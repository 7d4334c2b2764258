/** `freewalk` of kernel/vm.c: a page table without leaves is given back, every table page once. */
module Freewalk {
  import opened Counting
  import opened PageTable
  import opened Vm

  /** The table pages below and including p, in the order in which freewalk frees them, from entry i
      of p on. */
  function Pages(mem: Memory, p: nat, level: nat, i: nat): (ps: seq<nat>)
    requires p < |mem| && i <= 512
    ensures p in ps && forall q :: q in ps ==> q < |mem|
    decreases level, 512 - i
  {
    if i == 512 then [p]
    else if level > 0 && IsValid(mem[p][i]) && Target(mem[p][i]) < |mem|
    then Pages(mem, Target(mem[p][i]), level - 1, 0) + Pages(mem, p, level, i + 1)
    else Pages(mem, p, level, i + 1)
  }

  /** No entry below p is a leaf. */
  ghost predicate Leafless(mem: Memory, p: nat, level: nat)
    requires p < |mem|
    decreases level
  {
    forall i :: 0 <= i < 512 && IsValid(mem[p][i]) ==>
      level > 0 && Flags(mem[p][i]) == 1 && Target(mem[p][i]) < |mem| && Leafless(mem, Target(mem[p][i]), level - 1)
  }

  lemma PagesStep(mem: Memory, p: nat, level: nat, i: nat)
    requires p < |mem| && i < 512 && level > 0 && IsValid(mem[p][i]) && Target(mem[p][i]) < |mem|
    ensures Pages(mem, p, level, i) == Pages(mem, Target(mem[p][i]), level - 1, 0) + Pages(mem, p, level, i + 1)
  {
  }

  lemma PagesSkip(mem: Memory, p: nat, level: nat, i: nat)
    requires p < |mem| && i < 512 && !(level > 0 && IsValid(mem[p][i]) && Target(mem[p][i]) < |mem|)
    ensures Pages(mem, p, level, i) == Pages(mem, p, level, i + 1)
  {
  }

  lemma PagesEnd(mem: Memory, p: nat, level: nat)
    requires p < |mem|
    ensures Pages(mem, p, level, 512) == [p]
  {
  }

  /** Only the pages listed matter. */
  lemma {:induction false} PagesFrame(mem: Memory, f: Memory, p: nat, level: nat, i: nat)
    requires p < |mem| == |f| && i <= 512 && forall q :: q in Pages(mem, p, level, i) ==> f[q] == mem[q]
    ensures Pages(f, p, level, i) == Pages(mem, p, level, i)
    decreases level, 512 - i
  {
    hide IsValid, Target, Pages;
    if i == 512 {
      PagesEnd(mem, p, level);
      PagesEnd(f, p, level);
    } else if level > 0 && IsValid(mem[p][i]) && Target(mem[p][i]) < |mem| {
      PagesStep(mem, p, level, i);
      PagesFrame(mem, f, Target(mem[p][i]), level - 1, 0);
      PagesFrame(mem, f, p, level, i + 1);
      PagesStep(f, p, level, i);
    } else {
      PagesSkip(mem, p, level, i);
      PagesFrame(mem, f, p, level, i + 1);
      PagesSkip(f, p, level, i);
    }
  }

  lemma {:induction false} ChildPages(mem: Memory, p: nat, level: nat, i: nat, j: nat)
    requires p < |mem| && i <= j < 512 && level > 0 && IsValid(mem[p][j]) && Target(mem[p][j]) < |mem|
    ensures forall q :: q in Pages(mem, Target(mem[p][j]), level - 1, 0) ==> q in Pages(mem, p, level, i)
    decreases j - i
  {
    hide IsValid, Target;
    if i < j {
      ChildPages(mem, p, level, i + 1, j);
    }
  }

  lemma {:induction false} LeaflessFrame(mem: Memory, f: Memory, p: nat, level: nat)
    requires p < |mem| == |f| && Leafless(mem, p, level) && forall q :: q in Pages(mem, p, level, 0) ==> f[q] == mem[q]
    ensures Leafless(f, p, level)
    decreases level
  {
    hide IsValid, Target, Flags, Pages;
    forall i | 0 <= i < 512 && IsValid(f[p][i])
      ensures level > 0 && Flags(f[p][i]) == 1 && Target(f[p][i]) < |f| && Leafless(f, Target(f[p][i]), level - 1)
    {
      ChildPages(mem, p, level, 0, i);
      LeaflessFrame(mem, f, Target(mem[p][i]), level - 1);
    }
  }

  /** freewalk has dealt with the entries of p before i. */
  ghost predicate Freeing(s: State, e: State, p: nat, level: nat, i: nat, done: seq<nat>)
    requires p < |s.mem| && i <= 512
  {
    && |e.mem| == |s.mem| && e.refs == s.refs
    && Pages(s.mem, p, level, 0) == done + Pages(s.mem, p, level, i)
    && e.freelist == Reversed(done) + s.freelist
    && (forall q :: 0 <= q < |s.mem| && q != p && q !in done ==> e.mem[q] == s.mem[q])
    && forall j :: i <= j < 512 ==> e.mem[p][j] == s.mem[p][j]
  }

  /** The pages of the next child are as they were, and allocated. */
  lemma NextChild(k: Kernel, s: State, p: nat, level: nat, i: nat, done: seq<nat>)
    requires k.Valid() && p < |s.mem| && i < 512 && Freeing(s, k.Now(), p, level, i, done)
    requires Leafless(s.mem, p, level) && IsValid(s.mem[p][i])
    requires Distinct(Pages(s.mem, p, level, 0)) && InUse(s, k.first, Pages(s.mem, p, level, 0))
    ensures var c := Target(s.mem[p][i]);
            && level > 0 && c < |s.mem| && Flags(s.mem[p][i]) == 1 && k.mem[p][i] == s.mem[p][i]
            && Pages(k.mem, c, level - 1, 0) == Pages(s.mem, c, level - 1, 0) && Leafless(k.mem, c, level - 1)
            && Distinct(Pages(s.mem, c, level - 1, 0)) && InUse(k.Now(), k.first, Pages(s.mem, c, level - 1, 0))
            && p !in Pages(s.mem, c, level - 1, 0)
  {
    hide IsValid, Target, Flags, Pages, Reversed, Distinct;
    var c := Target(s.mem[p][i]);
    var mine := Pages(s.mem, c, level - 1, 0);
    PagesStep(s.mem, p, level, i);
    assert done + (mine + Pages(s.mem, p, level, i + 1)) == done + mine + Pages(s.mem, p, level, i + 1);
    Apart(done, mine, Pages(s.mem, p, level, i + 1));
    PagesFrame(s.mem, k.mem, c, level - 1, 0);
    LeaflessFrame(s.mem, k.mem, c, level - 1);
    forall q | q in mine
      ensures q !in k.freelist
    {
      ReversedElems(done, q);
    }
  }

  lemma Apart(a: seq<nat>, b: seq<nat>, c: seq<nat>)
    requires Distinct(a + b + c)
    ensures Distinct(b) && forall q :: q in b ==> q !in a && q !in c
  {
    var s := a + b + c;
    assert forall i :: 0 <= i < |a| ==> s[i] == a[i];
    assert forall i :: 0 <= i < |b| ==> s[|a| + i] == b[i];
    assert forall i :: 0 <= i < |c| ==> s[|a| + |b| + i] == c[i];
  }

  /** The pages are in use, once each as far as the allocator knows. */
  ghost predicate InUse(s: State, first: nat, ps: seq<nat>) {
    |s.refs| == PAGES && forall p :: p in ps ==> first <= p < PAGES && p !in s.freelist && s.refs[p] == 1
  }

  /** The pages ps have been put on the free list, each once, and nothing else has changed. */
  ghost predicate Freed(s: State, e: State, ps: seq<nat>) {
    && |e.mem| == |s.mem| && e.refs == s.refs && e.freelist == Reversed(ps) + s.freelist
    && forall q :: 0 <= q < |s.mem| && q !in ps ==> e.mem[q] == s.mem[q]
  }

  lemma SkipEntry(s: State, e: State, p: nat, level: nat, i: nat, done: seq<nat>)
    requires p < |s.mem| && i < 512 && Freeing(s, e, p, level, i, done) && !IsValid(s.mem[p][i])
    ensures Freeing(s, e, p, level, i + 1, done)
  {
    hide IsValid, Reversed;
  }

  lemma AfterChild(s: State, e: State, f: State, g: State, p: nat, level: nat, i: nat, done: seq<nat>, mine: seq<nat>)
    requires p < |s.mem| && i < 512 && Freeing(s, e, p, level, i, done) && Freed(e, f, mine) && p !in mine
    requires Pages(s.mem, p, level, i) == mine + Pages(s.mem, p, level, i + 1)
    requires g == f.(mem := f.mem[p := f.mem[p][i := 0]])
    ensures Freeing(s, g, p, level, i + 1, done + mine)
  {
    hide Pages, Reversed;
    ReversedSum(done, mine);
    assert done + (mine + Pages(s.mem, p, level, i + 1)) == done + mine + Pages(s.mem, p, level, i + 1);
    assert Reversed(mine) + (Reversed(done) + s.freelist) == Reversed(mine) + Reversed(done) + s.freelist;
  }

  lemma {:induction false} ReversedSum(a: seq<nat>, b: seq<nat>)
    ensures Reversed(a + b) == Reversed(b) + Reversed(a)
  {
    if b == [] {
      assert a + b == a;
    } else {
      var front := b[..|b| - 1];
      ReversedSum(a, front);
      assert (a + b)[..|a + b| - 1] == a + front;
    }
  }

  /** One round of freewalk's loop. */
  method FreeEntry(k: Kernel, p: nat, i: nat, ghost s: State, ghost level: nat, ghost done: seq<nat>)
      returns (ghost more: seq<nat>)
    requires k.Valid() && p < |s.mem| && i < 512 && Freeing(s, k.Now(), p, level, i, done) && Leafless(s.mem, p, level)
    requires Distinct(Pages(s.mem, p, level, 0)) && InUse(s, k.first, Pages(s.mem, p, level, 0))
    modifies k
    ensures k.Valid() && Freeing(s, k.Now(), p, level, i + 1, more)
    decreases level, 0
  {
    hide IsValid, Target, Flags, Pages, Reversed, Distinct, Freed, InUse, Leafless;
    more := done;
    var pte := k.mem[p][i];
    if !IsValid(pte) {
      SkipEntry(s, k.Now(), p, level, i, done);
      return;
    }
    NextChild(k, s, p, level, i, done);
    PagesStep(s.mem, p, level, i);
    more := done + Pages(s.mem, Target(pte), level - 1, 0);
    ghost var e := k.Now();
    Freewalk(k, Target(pte), level - 1);
    ghost var f := k.Now();
    FreedLength(e, f, Pages(s.mem, Target(pte), level - 1, 0));
    k.mem := k.mem[p := k.mem[p][i := 0]];
    AfterChild(s, e, f, k.Now(), p, level, i, done, Pages(s.mem, Target(pte), level - 1, 0));
  }

  lemma FreedLength(s: State, e: State, ps: seq<nat>)
    requires Freed(s, e, ps)
    ensures |e.mem| == |s.mem|
  {
  }

  /** `freewalk`. The panic of the original is excluded by `Leafless`. */
  method Freewalk(k: Kernel, p: nat, ghost level: nat)
    requires k.Valid() && p < |k.mem| && Leafless(k.mem, p, level)
    requires Distinct(Pages(k.mem, p, level, 0)) && InUse(k.Now(), k.first, Pages(k.mem, p, level, 0))
    modifies k
    ensures k.Valid() && Freed(old(k.Now()), k.Now(), Pages(old(k.mem), p, level, 0))
    decreases level, 1
  {
    hide IsValid, Target, Flags, Pages, Reversed, Distinct, Freed, InUse, Leafless, Freeing;
    ghost var s := k.Now();
    ghost var done: seq<nat> := [];
    StartFreeing(s, p, level);
    var i := 0;
    while i < 512
      invariant 0 <= i <= 512 && k.Valid() && Freeing(s, k.Now(), p, level, i, done)
    {
      done := FreeEntry(k, p, i, s, level, done);
      i := i + 1;
    }
    EndFreeing(k, s, p, level, done);
    ghost var e := k.Now();
    var freed := k.Kfree(p);
    AllFreed(s, e, k.Now(), p, level, done);
  }

  lemma StartFreeing(s: State, p: nat, level: nat)
    requires p < |s.mem|
    ensures Freeing(s, s, p, level, 0, [])
  {
    hide Pages;
    assert Reversed([]) + s.freelist == s.freelist;
  }

  lemma EndFreeing(k: Kernel, s: State, p: nat, level: nat, done: seq<nat>)
    requires k.Valid() && p < |s.mem| && Freeing(s, k.Now(), p, level, 512, done)
    requires Distinct(Pages(s.mem, p, level, 0)) && InUse(s, k.first, Pages(s.mem, p, level, 0))
    ensures k.Allocated(p) && |s.mem| == |k.mem| && Pages(s.mem, p, level, 0) == done + [p]
  {
    hide Reversed, Distinct;
    assert done + [p] == done + [p] + [];
    Apart(done, [p], []);
    ReversedElems(done, p);
    assert p in [p];
  }

  lemma AllFreed(s: State, e: State, f: State, p: nat, level: nat, done: seq<nat>)
    requires p < |s.mem| && Freeing(s, e, p, level, 512, done) && Pages(s.mem, p, level, 0) == done + [p]
    requires |e.mem| == |s.mem| && f == State(e.mem[p := Fill(1)], [p] + e.freelist, e.refs)
    ensures Freed(s, f, Pages(s.mem, p, level, 0))
  {
    hide Pages, Reversed;
    ReversedMore(done, p);
    assert [p] + (Reversed(done) + s.freelist) == [p] + Reversed(done) + s.freelist;
  }

  /** No virtual page is mapped. */
  ghost predicate Unmapped(mem: Memory, root: nat)
    requires root < |mem|
  {
    forall v :: 0 <= v < VPAGES ==> !IsValid(PteAt(mem, root, v))
  }

  lemma LowEmpty(mem: Memory, root: nat, tree: map<nat, Node>, p: nat)
    requires IsTree(mem, root, tree) && Unmapped(mem, root) && p in tree && tree[p].Low?
    ensures Leafless(mem, p, 0) && Pages(mem, p, 0, 0) == [p]
  {
    hide IsValid, Target, Flags, Pages, PteAt;
    var k := tree[p].k;
    assert Linked(mem, root, tree, p);
    forall i | 0 <= i < 512
      ensures !IsValid(mem[p][i])
    {
      assert !IsValid(PteAt(mem, root, 512 * k + i));
      LowPte(mem, root, tree, p, i);
    }
    LowPages(mem, p, 0);
  }

  lemma LowPte(mem: Memory, root: nat, tree: map<nat, Node>, p: nat, i: nat)
    requires IsTree(mem, root, tree) && p in tree && tree[p].Low? && i < 512
    ensures tree[p].k < 256 * 512 && PteAt(mem, root, 512 * tree[p].k + i) == mem[p][i]
  {
    hide IsValid, Target, Flags, MakePte;
    assert Linked(mem, root, tree, p);
    var v := 512 * tree[p].k + i;
    assert v / 512 == tree[p].k && v % 512 == i;
  }

  lemma {:induction false} LowPages(mem: Memory, p: nat, i: nat)
    requires p < |mem| && i <= 512
    ensures Pages(mem, p, 0, i) == [p]
    decreases 512 - i
  {
    if i < 512 {
      LowPages(mem, p, i + 1);
    }
  }

  /** The label of a page below entry j or later of the page labelled Mid(i). */
  ghost predicate UnderMid(n: Node, i: nat, j: nat) {
    n.Low? && n.k / 512 == i && n.k % 512 >= j
  }

  lemma {:induction false} MidPages(mem: Memory, root: nat, tree: map<nat, Node>, p: nat, i: nat, j: nat)
    requires IsTree(mem, root, tree) && Unmapped(mem, root) && p in tree && tree[p] == Mid(i) && j <= 512
    ensures forall q :: q in Pages(mem, p, 1, j) <==> q == p || (q in tree && UnderMid(tree[q], i, j))
    ensures Distinct(Pages(mem, p, 1, j))
    decreases 512 - j
  {
    hide IsTree, Unmapped, IsValid, Target, Flags, Pages, Distinct, UnderMid;
    forall q | q in tree
      ensures UnderMid(tree[q], i, j) <==> j < 512 && (UnderMid(tree[q], i, j + 1) || tree[q] == Low(512 * i + j))
      ensures tree[q] == Mid(i) || tree[q] == Low(512 * i + j) ==> !UnderMid(tree[q], i, j + 1)
    {
      UnderMidSplit(tree[q], i, j);
    }
    RootFacts(mem, root, tree);
    if j == 512 {
      PagesEnd(mem, p, 1);
      SingleDistinct(p);
      return;
    }
    MidPages(mem, root, tree, p, i, j + 1);
    MidEntry(mem, root, tree, p, i, j);
    if IsValid(mem[p][j]) {
      var c := Target(mem[p][j]);
      LowEmpty(mem, root, tree, c);
      PagesStep(mem, p, 1, j);
      SingleDistinct(c);
      DistinctSum([c], Pages(mem, p, 1, j + 1));
    } else {
      PagesSkip(mem, p, 1, j);
    }
  }

  lemma UnderMidSplit(n: Node, i: nat, j: nat)
    requires j <= 512
    ensures UnderMid(n, i, j) <==> j < 512 && (UnderMid(n, i, j + 1) || n == Low(512 * i + j))
    ensures n == Mid(i) || n == Low(512 * i + j) ==> !UnderMid(n, i, j + 1)
  {
    if n == Low(512 * i + j) && j < 512 {
      assert n.k / 512 == i && n.k % 512 == j;
    }
  }

  /** Entry j of a level-1 table and the page labelled below it. */
  lemma MidEntry(mem: Memory, root: nat, tree: map<nat, Node>, p: nat, i: nat, j: nat)
    requires IsTree(mem, root, tree) && p in tree && tree[p] == Mid(i) && j < 512
    ensures p < |mem|
    ensures var pte := mem[p][j];
            && (IsValid(pte) ==> Flags(pte) == 1 && Target(pte) < |mem|)
            && (IsValid(pte) ==> Target(pte) in tree && tree[Target(pte)] == Low(512 * i + j))
            && forall q :: q in tree && tree[q] == Low(512 * i + j) ==> IsValid(pte) && q == Target(pte)
  {
    hide IsValid, Target, Flags, MakePte;
    assert Linked(mem, root, tree, p);
    assert Links(mem[p][j], tree, Low(512 * i + j));
    forall q | q in tree && tree[q] == Low(512 * i + j)
      ensures IsValid(mem[p][j]) && q == Target(mem[p][j])
    {
      assert Linked(mem, root, tree, q);
      assert (512 * i + j) / 512 == i && (512 * i + j) % 512 == j;
    }
  }

  lemma MidLeafless(mem: Memory, root: nat, tree: map<nat, Node>, p: nat)
    requires IsTree(mem, root, tree) && Unmapped(mem, root) && p in tree && tree[p].Mid?
    ensures p < |mem| && Leafless(mem, p, 1)
  {
    hide IsTree, Unmapped, IsValid, Target, Flags;
    MidEntry(mem, root, tree, p, tree[p].i, 0);
    forall j | 0 <= j < 512 && IsValid(mem[p][j])
      ensures Flags(mem[p][j]) == 1 && Target(mem[p][j]) < |mem| && Leafless(mem, Target(mem[p][j]), 0)
    {
      MidEntry(mem, root, tree, p, tree[p].i, j);
      LowEmpty(mem, root, tree, Target(mem[p][j]));
    }
  }

  ghost predicate UnderRoot(n: Node, i: nat) {
    (n.Mid? && n.i >= i) || (n.Low? && n.k / 512 >= i)
  }

  lemma {:induction false} RootPages(mem: Memory, root: nat, tree: map<nat, Node>, i: nat)
    requires IsTree(mem, root, tree) && Unmapped(mem, root) && i <= 512
    ensures forall q :: q in Pages(mem, root, 2, i) <==> q == root || (q in tree && UnderRoot(tree[q], i))
    ensures Distinct(Pages(mem, root, 2, i))
    decreases 512 - i
  {
    hide IsTree, Unmapped, IsValid, Target, Flags, UnderMid, Distinct;
    RootFacts(mem, root, tree);
    if i < 512 {
      RootPages(mem, root, tree, i + 1);
      RootEntry(mem, root, tree, i);
      var c := Target(mem[root][i]);
      if IsValid(mem[root][i]) {
        MidPages(mem, root, tree, c, i, 0);
        RootStep(mem, root, tree, i, c);
      } else {
        assert Pages(mem, root, 2, i) == Pages(mem, root, 2, i + 1);
      }
    } else {
      SingleDistinct(root);
    }
  }

  lemma SingleDistinct(p: nat)
    ensures Distinct([p])
  {
  }

  lemma RootFacts(mem: Memory, root: nat, tree: map<nat, Node>)
    requires IsTree(mem, root, tree)
    ensures root < |mem| && root in tree && tree[root] == Root
    ensures forall q :: q in tree ==>
            q < |mem| && (tree[q].Mid? ==> tree[q].i < 256) && (tree[q].Low? ==> tree[q].k < 256 * 512)
    ensures forall q :: q in tree && tree[q].Root? ==> q == root
  {
    hide IsValid, Target, Flags, MakePte;
    forall q | q in tree
      ensures q < |mem| && (tree[q].Mid? ==> tree[q].i < 256) && (tree[q].Low? ==> tree[q].k < 256 * 512)
      ensures (tree[q].Root? ==> q == root)
    {
      assert Linked(mem, root, tree, q);
    }
  }

  lemma RootEntry(mem: Memory, root: nat, tree: map<nat, Node>, i: nat)
    requires IsTree(mem, root, tree) && i < 512
    ensures var pte := mem[root][i];
            && (IsValid(pte) ==> Flags(pte) == 1 && Target(pte) < |mem|)
            && (IsValid(pte) ==> Target(pte) in tree && tree[Target(pte)] == Mid(i))
            && forall q :: q in tree && UnderRoot(tree[q], i) && !UnderRoot(tree[q], i + 1) ==>
                 IsValid(pte) && (tree[q] == Mid(i) ==> q == Target(pte))
  {
    hide IsValid, Target, Flags, MakePte;
    assert Linked(mem, root, tree, root);
    assert Links(mem[root][i], tree, Mid(i));
    forall q | q in tree && UnderRoot(tree[q], i) && !UnderRoot(tree[q], i + 1)
      ensures IsValid(mem[root][i]) && (tree[q] == Mid(i) ==> q == Target(mem[root][i]))
    {
      assert Linked(mem, root, tree, q);
    }
  }

  lemma RootStep(mem: Memory, root: nat, tree: map<nat, Node>, i: nat, c: nat)
    requires IsTree(mem, root, tree) && i < 512 && IsValid(mem[root][i]) && c == Target(mem[root][i]) && c < |mem|
    requires c in tree && tree[c] == Mid(i)
    requires forall q :: q in tree && UnderRoot(tree[q], i) && !UnderRoot(tree[q], i + 1) && tree[q] == Mid(i) ==>
             q == c
    requires forall q :: q in Pages(mem, c, 1, 0) <==> q == c || (q in tree && UnderMid(tree[q], i, 0))
    requires forall q :: q in Pages(mem, root, 2, i + 1) <==> q == root || (q in tree && UnderRoot(tree[q], i + 1))
    requires Distinct(Pages(mem, c, 1, 0)) && Distinct(Pages(mem, root, 2, i + 1)) && root in tree && tree[root] == Root
    ensures forall q :: q in Pages(mem, root, 2, i) <==> q == root || (q in tree && UnderRoot(tree[q], i))
    ensures Distinct(Pages(mem, root, 2, i))
  {
    hide IsTree, IsValid, Target, Flags, Pages, Distinct, UnderRoot, UnderMid;
    PagesStep(mem, root, 2, i);
    var a, b := Pages(mem, c, 1, 0), Pages(mem, root, 2, i + 1);
    forall q | q in tree
      ensures UnderRoot(tree[q], i) <==> UnderRoot(tree[q], i + 1) || tree[q] == Mid(i) || UnderMid(tree[q], i, 0)
      ensures UnderRoot(tree[q], i + 1) ==> tree[q] != Mid(i) && !UnderMid(tree[q], i, 0) && tree[q] != Root
      ensures tree[q] == Root ==> !UnderMid(tree[q], i, 0)
    {
      UnderSplit(tree[q], i);
    }
    DistinctSum(a, b);
  }

  lemma UnderSplit(n: Node, i: nat)
    ensures UnderRoot(n, i) <==> UnderRoot(n, i + 1) || n == Mid(i) || UnderMid(n, i, 0)
    ensures UnderRoot(n, i + 1) ==> n != Mid(i) && !UnderMid(n, i, 0) && n != Root
    ensures n == Root ==> !UnderMid(n, i, 0)
  {
  }

  lemma DistinctSum(a: seq<nat>, b: seq<nat>)
    requires Distinct(a) && Distinct(b) && forall q :: q in a ==> q !in b
    ensures Distinct(a + b)
  {
    forall i, j | 0 <= i < |a| <= j < |a + b|
      ensures (a + b)[i] != (a + b)[j]
    {
      assert a[i] in a && b[j - |a|] in b;
    }
  }

  /** A page table without mappings is given back whole: every one of its table pages is put on the
      free list exactly once, and nothing else. */
  lemma TreePages(mem: Memory, root: nat, tree: map<nat, Node>)
    requires IsTree(mem, root, tree) && Unmapped(mem, root)
    ensures root < |mem| && Leafless(mem, root, 2) && Distinct(Pages(mem, root, 2, 0))
    ensures forall q :: q in Pages(mem, root, 2, 0) <==> q in tree
  {
    hide IsTree, Unmapped, IsValid, Target, Flags, Pages;
    RootFacts(mem, root, tree);
    RootPages(mem, root, tree, 0);
    forall i | 0 <= i < 512 && IsValid(mem[root][i])
      ensures Flags(mem[root][i]) == 1 && Target(mem[root][i]) < |mem| && Leafless(mem, Target(mem[root][i]), 1)
    {
      RootEntry(mem, root, tree, i);
      MidLeafless(mem, root, tree, Target(mem[root][i]));
    }
  }

  /** `uvmfree`: the data pages below sz and then the page table. */
  method Uvmfree(k: Kernel, root: nat, sz: nat, ghost tree: map<nat, Node>)
    requires k.Owns(root, tree) && sz <= VPAGES * 4096 && k.Leaves(root, 0, Up(sz))
    requires k.Disposable(root, tree, 0, Up(sz))
    requires forall v :: Up(sz) <= v < VPAGES ==> !IsValid(PteAt(k.mem, root, v))
    modifies k
    ensures k.Valid() && k.refs == old(k.refs)
    ensures forall p :: p in k.freelist <==>
            p in old(k.freelist) || p in tree || p in Targets(old(k.mem), root, 0, Up(sz))
    ensures |k.freelist| == |old(k.freelist)| + |tree| + |Targets(old(k.mem), root, 0, Up(sz))|
  {
    hide IsTree, IsValid, Target, Flags, Pages, PteAt, Distinct, Targets, Leafless, Reversed;
    ghost var s := k.Now();
    k.OwnsFacts(root, tree);
    if sz > 0 {
      k.Uvmunmap(root, 0, Up(sz), true, tree);
    } else {
      NoneUnmapped(s, root, tree, 0, true);
    }
    ghost var e := k.Now();
    Unleafed(s, e, root, tree, Up(sz));
    TreePages(k.mem, root, tree);
    Freewalk(k, root, 2);
    Counted(s, e, k.Now(), root, tree, Up(sz), Pages(e.mem, root, 2, 0));
  }

  lemma Unleafed(s: State, e: State, root: nat, tree: map<nat, Node>, n: nat)
    requires n <= VPAGES && root < |s.mem| && Vm.Unmapped(s, e, root, tree, 0, n, true)
    requires forall v :: n <= v < VPAGES ==> !IsValid(PteAt(s.mem, root, v))
    ensures root < |e.mem| && Unmapped(e.mem, root)
  {
    hide PteAt;
  }

  lemma Counted(s: State, e: State, f: State, root: nat, tree: map<nat, Node>, n: nat, ps: seq<nat>)
    requires n <= VPAGES && root < |s.mem| && Vm.Unmapped(s, e, root, tree, 0, n, true) && Freed(e, f, ps)
    requires Distinct(ps) && forall q :: q in ps <==> q in tree
    ensures f.refs == s.refs
    ensures forall p :: p in f.freelist <==> p in s.freelist || p in tree || p in Targets(s.mem, root, 0, n)
    ensures |f.freelist| == |s.freelist| + |tree| + |Targets(s.mem, root, 0, n)|
  {
    hide PteAt, Targets, Reversed;
    var t := Targets(s.mem, root, 0, n);
    forall p
      ensures (p in Reversed(ps) <==> p in ps) && (p in Reversed(t) <==> p in t)
    {
      ReversedElems(ps, p);
      ReversedElems(t, p);
    }
    ReversedLength(ps);
    ReversedLength(t);
    DistinctCount(ps);
    assert Elems(ps) == tree.Keys;
  }

  lemma {:induction false} ReversedLength(s: seq<nat>)
    ensures |Reversed(s)| == |s|
  {
    if s != [] {
      ReversedLength(s[..|s| - 1]);
    }
  }
}
