/** kernel/vm.c over kernel/kalloc.c: page tables built, searched and torn down in place. Physical
    memory is counted in pages; `tree` and `t` label the table pages of one page table before and
    after a call. */
module Vm {
  import opened Counting
  import opened PageTable

  /** PHYSTOP / PGSIZE. */
  const PAGES: nat := 0x8_8000

  /** The allocator's and the page tables' memory at one moment. */
  datatype State = State(mem: Memory, freelist: seq<nat>, refs: seq<nat>)

  function Fill(x: nat): Page {
    seq(512, _ => x * 0x0101_0101_0101_0101)
  }

  ghost predicate Zeroed(x: Page) {
    forall i :: 0 <= i < 512 ==> x[i] == 0
  }

  /** Pages of the free list have gone into the tree, and nothing else has changed outside it. */
  ghost predicate Took(s: State, e: State, tree: map<nat, Node>, t: map<nat, Node>) {
    var n := |s.freelist| - |e.freelist|;
    && n >= 0 && e.freelist == s.freelist[n..] && |e.mem| == |s.mem| && |e.refs| == |s.refs|
    && (forall p :: p in tree ==> p in t)
    && (forall p :: p in s.freelist[..n] <==> p in t && p !in tree)
    && (forall p :: 0 <= p < |s.mem| && p !in t ==> e.mem[p] == s.mem[p])
    && (forall p :: 0 <= p < |s.refs| && p !in t ==> e.refs[p] == s.refs[p])
  }

  lemma TookTook(a: State, b: State, c: State, t: map<nat, Node>, u: map<nat, Node>, w: map<nat, Node>)
    requires Took(a, b, t, u) && Took(b, c, u, w) && Distinct(a.freelist)
    ensures Took(a, c, t, w)
  {
    var n, m := |a.freelist| - |b.freelist|, |b.freelist| - |c.freelist|;
    assert a.freelist[..n + m] == a.freelist[..n] + b.freelist[..m];
    assert c.freelist == a.freelist[n + m..];
  }

  ghost predicate SameMap(s: State, e: State, root: nat)
    requires root < |s.mem| && root < |e.mem|
  {
    forall v :: 0 <= v < VPAGES ==> PteAt(e.mem, root, v) == PteAt(s.mem, root, v)
  }

  lemma SameSame(a: State, b: State, c: State, root: nat)
    requires root < |a.mem| && root < |b.mem| && root < |c.mem| && SameMap(a, b, root) && SameMap(b, c, root)
    ensures SameMap(a, c, root)
  {
  }

  /** PX(level, va), for va in virtual page v. */
  function Px(level: nat, v: nat): (i: nat)
    requires level <= 2 && v < VPAGES
    ensures i < 512
  {
    if level == 0 then v % 512 else if level == 1 then v / 512 % 512 else v / 512 / 512
  }

  /** The table that the walk for page v reaches at a level. */
  ghost predicate Reached(mem: Memory, root: nat, v: nat, level: nat, table: nat)
    requires root < |mem| && v < VPAGES
  {
    if level == 2 then table == root
    else if level == 1 then IsValid(mem[root][v / 512 / 512]) && table == Target(mem[root][v / 512 / 512])
    else table == TableFor(mem, root, v / 512) < |mem|
  }

  lemma ReachedTable(mem: Memory, root: nat, tree: map<nat, Node>, v: nat, level: nat, table: nat)
    requires IsTree(mem, root, tree) && v < VPAGES && 0 < level <= 2 && Reached(mem, root, v, level, table)
    ensures table in tree && table < |mem|
    ensures IsValid(mem[table][Px(level, v)]) ==> Target(mem[table][Px(level, v)]) in tree
    ensures IsValid(mem[table][Px(level, v)]) ==> Reached(mem, root, v, level - 1, Target(mem[table][Px(level, v)]))
    ensures !IsValid(mem[table][Px(level, v)]) ==> TableFor(mem, root, v / 512) == |mem|
  {
    hide IsValid, Target;
    if IsValid(mem[root][v / 512 / 512]) {
      FollowMid(mem, root, tree, v / 512 / 512);
      FollowLow(mem, root, tree, v / 512 / 512, v / 512 % 512);
    }
  }

  /** Hanging a new table under the one that the walk has reached. */
  function NewNode(v: nat, level: nat): Node {
    if level == 2 then Mid(v / 512 / 512) else Low(v / 512)
  }

  lemma AddTable(mem: Memory, root: nat, tree: map<nat, Node>, v: nat, level: nat, table: nat, q: nat)
    requires IsTree(mem, root, tree) && v < VPAGES && 0 < level <= 2 && Reached(mem, root, v, level, table)
    requires q < |mem| && q !in tree && mem[q] == ZeroPage && table < |mem| && !IsValid(mem[table][Px(level, v)])
    ensures var f := mem[table := mem[table][Px(level, v) := MakePte(q, 1)]];
            && IsTree(f, root, tree[q := NewNode(v, level)]) && Reached(f, root, v, level - 1, q)
            && forall u :: 0 <= u < VPAGES ==> PteAt(f, root, u) == PteAt(mem, root, u)
  {
    hide IsValid, Target, MakePte;
    ReachedTable(mem, root, tree, v, level, table);
    if level == 2 {
      AddMid(mem, root, tree, v / 512 / 512, q);
    } else {
      FollowMid(mem, root, tree, v / 512 / 512);
      AddLow(mem, root, tree, v / 512, q);
    }
  }

  /** How many pages [va, va + size) touches. */
  function Span(va: nat, size: nat): nat
    requires size > 0
  {
    (va + size - 1) / 4096 - va / 4096 + 1
  }

  function Reversed(s: seq<nat>): seq<nat> {
    if s == [] then [] else [s[|s| - 1]] + Reversed(s[..|s| - 1])
  }

  lemma {:induction false} ReversedElems(s: seq<nat>, p: nat)
    ensures p in Reversed(s) <==> p in s
  {
    if s != [] {
      ReversedElems(s[..|s| - 1], p);
      assert s == s[..|s| - 1] + [s[|s| - 1]];
    }
  }

  /** The physical pages that n virtual pages from v on lead to, those that are mapped. */
  function Targets(mem: Memory, root: nat, v: nat, n: nat): seq<nat>
    requires root < |mem| && v + n <= VPAGES
  {
    if n == 0 then [] else
    var pte := PteAt(mem, root, v + n - 1);
    Targets(mem, root, v, n - 1) + if IsValid(pte) then [Target(pte)] else []
  }

  lemma {:induction false} TargetsPrefix(mem: Memory, root: nat, v: nat, n: nat, m: nat)
    requires root < |mem| && n <= m && v + m <= VPAGES
    ensures Targets(mem, root, v, n) <= Targets(mem, root, v, m)
  {
    if n < m {
      TargetsPrefix(mem, root, v, n, m - 1);
    }
  }

  /** uvmunmap has dealt with n pages from v on: those that were mapped are not any more, and their
      physical pages are on the free list. */
  ghost predicate Unmapped(s: State, e: State, root: nat, tree: map<nat, Node>, v: nat, n: nat, doFree: bool)
    requires root < |s.mem| && v + n <= VPAGES
  {
    && |e.mem| == |s.mem| && e.refs == s.refs
    && (forall u :: 0 <= u < VPAGES ==>
          var pte := PteAt(s.mem, root, u);
          PteAt(e.mem, root, u) == if v <= u < v + n && IsValid(pte) then 0 else pte)
    && e.freelist == (if doFree then Reversed(Targets(s.mem, root, v, n)) else []) + s.freelist
    && forall p :: 0 <= p < |e.mem| && p !in tree && !(doFree && p in Targets(s.mem, root, v, n)) ==>
       e.mem[p] == s.mem[p]
  }

  lemma NoneUnmapped(s: State, root: nat, tree: map<nat, Node>, v: nat, doFree: bool)
    requires root < |s.mem| && v <= VPAGES
    ensures Unmapped(s, s, root, tree, v, 0, doFree)
  {
  }

  lemma UnmappedPte(s: State, e: State, root: nat, tree: map<nat, Node>, v: nat, n: nat, doFree: bool)
    requires root < |s.mem| && v + n < VPAGES && Unmapped(s, e, root, tree, v, n, doFree)
    ensures |e.mem| == |s.mem| && PteAt(e.mem, root, v + n) == PteAt(s.mem, root, v + n)
  {
  }

  lemma UnmapSkip(s: State, e: State, root: nat, tree: map<nat, Node>, v: nat, n: nat, doFree: bool)
    requires root < |s.mem| && v + n < VPAGES && Unmapped(s, e, root, tree, v, n, doFree)
    requires !IsValid(PteAt(s.mem, root, v + n))
    ensures Unmapped(s, e, root, tree, v, n + 1, doFree)
  {
    hide PteAt, IsValid, Reversed;
    assert Targets(s.mem, root, v, n + 1) == Targets(s.mem, root, v, n);
  }

  lemma UnmapClear(s: State, e: State, f: State, root: nat, tree: map<nat, Node>, v: nat, n: nat, doFree: bool)
    requires root < |s.mem| && v + n < VPAGES && Unmapped(s, e, root, tree, v, n, doFree)
    requires IsValid(PteAt(s.mem, root, v + n))
    requires |f.mem| == |e.mem| && f.refs == e.refs
    requires f.freelist == (if doFree then [Target(PteAt(s.mem, root, v + n))] else []) + e.freelist
    requires forall u :: 0 <= u < VPAGES ==> PteAt(f.mem, root, u) == if u == v + n then 0 else PteAt(e.mem, root, u)
    requires forall p :: 0 <= p < |e.mem| && p !in tree && !(doFree && p == Target(PteAt(s.mem, root, v + n))) ==>
             f.mem[p] == e.mem[p]
    ensures Unmapped(s, f, root, tree, v, n + 1, doFree)
  {
    hide PteAt, IsValid, Target, Reversed;
    var t, p := Targets(s.mem, root, v, n), Target(PteAt(s.mem, root, v + n));
    assert Targets(s.mem, root, v, n + 1) == t + [p];
    ReversedMore(t, p);
    assert [p] + (Reversed(t) + s.freelist) == ([p] + Reversed(t)) + s.freelist;
  }

  lemma ReversedMore(t: seq<nat>, p: nat)
    ensures Reversed(t + [p]) == [p] + Reversed(t)
  {
    assert (t + [p])[..|t|] == t;
  }

  /** PGROUNDUP(sz) / PGSIZE. */
  function Up(sz: nat): (n: nat)
    ensures sz <= 4096 * n < sz + 4096
  {
    (sz + 4095) / 4096
  }

  function GrownPte(mem: Memory, root: nat, v: nat, data: seq<nat>, perm: nat, u: nat): nat
    requires root < |mem| && u < VPAGES && perm < 1024
  {
    if v <= u < v + |data| then MakePte(data[u - v], perm) else PteAt(mem, root, u)
  }

  /** uvmalloc has added the n = |data| pages from v on. Every page that was free is still free,
      has become a table page, or is one of the new zeroed pages, and only one of the three. */
  ghost predicate Grown(s: State, e: State, root: nat, tree: map<nat, Node>, t: map<nat, Node>, v: nat,
      data: seq<nat>, perm: nat)
    requires perm < 1024
  {
    && root < |s.mem| && |e.mem| == |s.mem| == |s.refs| == |e.refs|
    && (forall u :: 0 <= u < VPAGES ==> PteAt(e.mem, root, u) == GrownPte(s.mem, root, v, data, perm, u))
    && (forall p :: p in tree ==> p in t)
    && (forall p :: p in s.freelist <==> p in e.freelist || (p in t && p !in tree) || p in data)
    && Distinct(data)
    && (forall p :: p in data ==> p !in e.freelist && p !in t && p < |e.mem| && e.refs[p] == 1 && Zeroed(e.mem[p]))
    && forall p :: 0 <= p < |e.mem| && p !in t && p !in data && p !in e.freelist ==>
       e.mem[p] == s.mem[p] && e.refs[p] == s.refs[p]
  }

  /** The same pages are mapped, to the same entries. */
  ghost predicate SameTranslation(s: State, e: State, root: nat)
    requires root < |s.mem| && root < |e.mem|
  {
    forall u :: 0 <= u < VPAGES && (IsValid(PteAt(e.mem, root, u)) || IsValid(PteAt(s.mem, root, u))) ==>
      PteAt(e.mem, root, u) == PteAt(s.mem, root, u)
  }

  /** kalloc and memset before mappages. */
  ghost predicate Taken(e: State, m: State, p: nat) {
    && e.freelist != [] && p == e.freelist[0] && p < |e.mem| == |e.refs|
    && |m.mem| == |e.mem| && Zeroed(m.mem[p]) && m == State(e.mem[p := m.mem[p]], e.freelist[1..], e.refs[p := 1])
  }

  lemma GrownMore(s: State, e: State, m: State, f: State, root: nat, tree: map<nat, Node>, t: map<nat, Node>,
      w: map<nat, Node>, v: nat, data: seq<nat>, perm: nat, p: nat)
    requires perm < 1024 && Grown(s, e, root, tree, t, v, data, perm) && v + |data| < VPAGES
    requires Distinct(e.freelist) && (forall q :: q in t ==> q !in e.freelist)
    requires Taken(e, m, p) && Took(m, f, t, w)
    requires forall u :: 0 <= u < VPAGES ==>
             PteAt(f.mem, root, u) == if u == v + |data| then MakePte(p, perm) else PteAt(e.mem, root, u)
    ensures Grown(s, f, root, tree, w, v, data + [p], perm)
  {
    hide PteAt, MakePte, GrownPte, Distinct, Zeroed;
    TakenApart(e, m, f, t, w, p);
    GrownMorePtes(s.mem, e.mem, f.mem, root, v, data, perm, p);
    OneMore(data, p);
  }

  lemma GrownMorePtes(mem: Memory, e: Memory, f: Memory, root: nat, v: nat, data: seq<nat>, perm: nat, p: nat)
    requires perm < 1024 && v + |data| < VPAGES && root < |mem| && root < |e| && root < |f|
    requires forall u :: 0 <= u < VPAGES ==> PteAt(e, root, u) == GrownPte(mem, root, v, data, perm, u)
    requires forall u :: 0 <= u < VPAGES ==>
             PteAt(f, root, u) == if u == v + |data| then MakePte(p, perm) else PteAt(e, root, u)
    ensures forall u :: 0 <= u < VPAGES ==> PteAt(f, root, u) == GrownPte(mem, root, v, data + [p], perm, u)
  {
    hide PteAt, MakePte;
  }

  lemma OneMore(data: seq<nat>, p: nat)
    ensures forall q :: q in data + [p] <==> q in data || q == p
    ensures Distinct(data) && p !in data ==> Distinct(data + [p])
  {
  }

  lemma TakenApart(e: State, m: State, f: State, t: map<nat, Node>, w: map<nat, Node>, p: nat)
    requires Distinct(e.freelist) && (forall q :: q in t ==> q !in e.freelist) && Taken(e, m, p) && Took(m, f, t, w)
    ensures p !in w && p !in f.freelist && p !in t
    ensures forall q :: q in e.freelist <==> q == p || q in f.freelist || (q in w && q !in t)
    ensures forall q :: q in f.freelist ==> q !in w
  {
    var n := |m.freelist| - |f.freelist|;
    assert e.freelist == [p] + m.freelist[..n] + f.freelist;
    assert p !in m.freelist;
  }

  /** kfree of the page that could not be mapped. */
  lemma GrownNot(s: State, e: State, m: State, f: State, g: State, root: nat, tree: map<nat, Node>, t: map<nat, Node>,
      w: map<nat, Node>, v: nat, data: seq<nat>, perm: nat, p: nat)
    requires perm < 1024 && Grown(s, e, root, tree, t, v, data, perm) && Distinct(e.freelist)
    requires (forall q :: q in t ==> q !in e.freelist)
    requires Taken(e, m, p) && Took(m, f, t, w) && g == State(f.mem[p := Fill(1)], [p] + f.freelist, f.refs)
    requires forall u :: 0 <= u < VPAGES ==> PteAt(g.mem, root, u) == PteAt(e.mem, root, u)
    ensures Grown(s, g, root, tree, w, v, data, perm)
  {
    hide PteAt, MakePte;
    TakenApart(e, m, f, t, w, p);
  }

  /** What mappages has done: the first n pages from v on lead to the pages from p on. */
  ghost predicate Mapping(s: State, e: State, root: nat, v: nat, n: nat, p: nat, perm: nat)
    requires root < |s.mem| && root < |e.mem| && perm < 1024
  {
    && (forall u :: v <= u < v + n && u < VPAGES ==> !IsValid(PteAt(s.mem, root, u)))
    && forall u :: 0 <= u < VPAGES ==>
       PteAt(e.mem, root, u) == if v <= u < v + n then MakePte(p + (u - v), perm) else PteAt(s.mem, root, u)
  }

  lemma OnePage(s: State, e: State, root: nat, a: nat, n: nat, p: nat, perm: nat)
    requires root < |s.mem| && root < |e.mem| && perm < 1024
    requires Mapping(s, e, root, a * 4096 / 4096, n, p * 4096 / 4096, perm) && n == Span(a * 4096, 4096)
    ensures forall u :: 0 <= u < VPAGES ==>
            PteAt(e.mem, root, u) == if u == a then MakePte(p, perm) else PteAt(s.mem, root, u)
    ensures n == 1
  {
    hide PteAt, MakePte;
  }

  lemma NoPage(s: State, e: State, root: nat, a: nat, n: nat, p: nat, perm: nat)
    requires root < |s.mem| && root < |e.mem| && perm < 1024
    requires Mapping(s, e, root, a * 4096 / 4096, n, p * 4096 / 4096, perm) && n < Span(a * 4096, 4096)
    ensures forall u :: 0 <= u < VPAGES ==> PteAt(e.mem, root, u) == PteAt(s.mem, root, u)
    ensures n == 0
  {
    hide PteAt, MakePte;
  }

  datatype MapResult = Mapped | NoMemory | Remap

  lemma TookWrite(s: State, e: State, tree: map<nat, Node>, t: map<nat, Node>, p: nat, x: Page)
    requires Took(s, e, tree, t) && p in t && p < |e.mem|
    ensures Took(s, e.(mem := e.mem[p := x]), tree, t)
  {
  }

  class Kernel {
    /** The first page after the kernel. */
    const first: nat
    var mem: Memory
    var freelist: seq<nat>
    var refs: seq<nat>

    ghost function Now(): State
      reads this
    {
      State(mem, freelist, refs)
    }

    ghost predicate Valid()
      reads this
    {
      && 0 < first && |mem| == PAGES && |refs| == PAGES && Distinct(freelist)
      && forall i :: 0 <= i < |freelist| ==> first <= freelist[i] < PAGES
    }

    ghost predicate Allocated(p: nat)
      reads this
      requires Valid()
    {
      first <= p < PAGES && p !in freelist && refs[p] == 1
    }

    /** The page table at root is a tree of allocated pages. */
    ghost predicate Owns(root: nat, tree: map<nat, Node>)
      reads this
    {
      Valid() && IsTree(mem, root, tree) && forall p :: p in tree ==> Allocated(p)
    }

    method Kalloc() returns (p: nat)
      requires Valid()
      modifies this
      ensures Valid() && (p == 0 <==> old(freelist) == [])
      ensures p == 0 ==> Now() == old(Now())
      ensures p != 0 ==> p == old(freelist)[0] && Allocated(p)
      ensures p != 0 ==> Now() == State(old(mem)[p := Fill(5)], old(freelist)[1..], old(refs)[p := 1])
    {
      if freelist == [] {
        return 0;
      }
      p := freelist[0];
      refs := refs[p := 1];
      freelist := freelist[1..];
      mem := mem[p := Fill(5)];
    }

    /** `kfree`. A false result is the exit of a process that frees a page others count on. */
    method Kfree(p: nat) returns (ok: bool)
      requires Valid() && first <= p < PAGES && p !in freelist
      modifies this
      ensures ok <==> old(refs)[p] == 1
      ensures Valid()
      ensures Now() == State(old(mem)[p := Fill(1)], if ok then [p] + old(freelist) else old(freelist), old(refs))
    {
      mem := mem[p := Fill(1)];
      if refs[p] != 1 {
        return false;
      }
      freelist := [p] + freelist;
      ok := true;
    }

    /** `uvmcreate`. */
    method Uvmcreate() returns (root: nat)
      requires Valid()
      modifies this
      ensures Valid() && (root == 0 <==> old(freelist) == [])
      ensures root != 0 ==> Owns(root, map[root := Root]) && Took(old(Now()), Now(), map[], map[root := Root])
      ensures root != 0 ==> forall v :: 0 <= v < VPAGES ==> PteAt(mem, root, v) == 0
    {
      root := Kalloc();
      if root != 0 {
        mem := mem[root := ZeroPage];
        EmptyTable(mem, root);
      }
    }

    /** The page a table's entry i leads to; with `alloc` it is made if need be. */
    method Descend(table: nat, i: nat, alloc: bool) returns (next: nat)
      requires Valid() && Allocated(table) && i < 512 && (IsValid(mem[table][i]) ==> 0 < Target(mem[table][i]) < PAGES)
      modifies this
      ensures Valid() && (IsValid(old(mem[table][i])) ==> Now() == old(Now()) && next == Target(mem[table][i]))
      ensures !IsValid(old(mem[table][i])) && (!alloc || old(freelist) == []) ==> next == 0 && Now() == old(Now())
      ensures !IsValid(old(mem[table][i])) && alloc && old(freelist) != [] ==>
                && next == old(freelist)[0] != table && next < PAGES
                && Now() == State(old(mem)[next := ZeroPage][table := old(mem)[table][i := MakePte(next, 1)]],
                                  old(freelist)[1..], old(refs)[next := 1])
    {
      if IsValid(mem[table][i]) {
        return Target(mem[table][i]);
      }
      if !alloc {
        return 0;
      }
      next := Kalloc();
      if next != 0 {
        mem := mem[next := ZeroPage];
        mem := mem[table := mem[table][i := MakePte(next, 1)]];
      }
    }

    /** One round of walk's loop. */
    method WalkLevel(root: nat, v: nat, level: nat, table: nat, alloc: bool, ghost tree: map<nat, Node>)
        returns (next: nat, ghost t: map<nat, Node>)
      requires Owns(root, tree) && v < VPAGES && 0 < level <= 2 && Reached(mem, root, v, level, table)
      modifies this
      ensures Owns(root, t) && Took(old(Now()), Now(), tree, t) && SameMap(old(Now()), Now(), root)
      ensures next != 0 ==> Reached(mem, root, v, level - 1, next)
      ensures next == 0 ==> TableFor(mem, root, v / 512) == |mem| && (alloc ==> freelist == [])
      ensures !alloc || next == 0 ==> Now() == old(Now()) && t == tree
      ensures |freelist| >= |old(freelist)| - 1
    {
      hide IsTree, Reached, Px, PteAt, MakePte, IsValid, Target, TableFor;
      ReachedTable(mem, root, tree, v, level, table);
      t := tree;
      ghost var s := Now();
      next := Descend(table, Px(level, v), alloc);
      if Now() != s {
        t := tree[next := NewNode(v, level)];
        Elsewhere(s.mem, s.mem[next := ZeroPage], root, tree);
        StillReached(s.mem, root, tree, v, level, table, next);
        AddTable(s.mem[next := ZeroPage], root, tree, v, level, table, next);
      }
    }

    /** `walk`: the level-0 table for virtual page v, or 0. Only with `alloc` are tables added, and
        adding them never changes what is mapped. */
    method Walk(root: nat, v: nat, alloc: bool, ghost tree: map<nat, Node>) returns (table: nat,
        ghost t: map<nat, Node>)
      requires Owns(root, tree) && v < VPAGES
      modifies this
      ensures Owns(root, t) && Took(old(Now()), Now(), tree, t) && SameMap(old(Now()), Now(), root)
      ensures table != 0 ==> table == TableFor(mem, root, v / 512) < |mem|
      ensures table == 0 ==> TableFor(mem, root, v / 512) == |mem| && (alloc ==> freelist == [])
      ensures !alloc ==> Now() == old(Now()) && t == tree
      ensures |freelist| >= |old(freelist)| - 2 && (table == 0 && alloc ==> |old(freelist)| < 2)
    {
      hide Reached, PteAt, TableFor, Took, Owns, IsTree, SameMap, Distinct;
      OwnsFacts(root, tree);
      table, t := root, tree;
      StartWalk(root, v, tree);
      var level := 2;
      ghost var s := Now();
      while level > 0
        invariant 0 <= level <= 2 && Owns(root, t) && root < |mem| && |mem| == |s.mem|
        invariant Took(s, Now(), tree, t) && SameMap(s, Now(), root)
        invariant Reached(mem, root, v, level, table) && (!alloc ==> Now() == s && t == tree)
        invariant |freelist| >= |s.freelist| - (2 - level)
      {
        ghost var m, u := Now(), t;
        table, t := WalkLevel(root, v, level, table, alloc, u);
        OwnsFacts(root, t);
        TookTook(s, m, Now(), tree, u, t);
        SameSame(s, m, Now(), root);
        if table == 0 {
          return;
        }
        level := level - 1;
      }
      EndWalk(root, v, t, table);
    }

    lemma OwnsFacts(root: nat, tree: map<nat, Node>)
      requires Owns(root, tree)
      ensures Valid() && root < |mem| == PAGES && IsTree(mem, root, tree) && Distinct(freelist)
      ensures forall p :: p in tree ==> p !in freelist
    {
    }

    lemma StartWalk(root: nat, v: nat, tree: map<nat, Node>)
      requires Owns(root, tree) && v < VPAGES
      ensures root < |mem| && Reached(mem, root, v, 2, root) && Took(Now(), Now(), tree, tree)
      ensures SameMap(Now(), Now(), root)
    {
      assert freelist[0..] == freelist;
    }

    lemma EndWalk(root: nat, v: nat, tree: map<nat, Node>, table: nat)
      requires Owns(root, tree) && v < VPAGES && Reached(mem, root, v, 0, table)
      ensures 0 < table == TableFor(mem, root, v / 512) < |mem|
    {
      TableOfLow(mem, root, tree, v / 512);
    }

    /** The page of va is mapped, for user mode. */
    ghost predicate UserPage(root: nat, va: nat)
      reads this
      requires root < |mem|
    {
      && va < VPAGES * 4096 && IsValid(PteAt(mem, root, va / 4096))
      && PteAt(mem, root, va / 4096) / 16 % 2 == 1
    }

    /** `walkaddr`: the physical address of a user page, or 0. */
    method Walkaddr(root: nat, va: nat, ghost tree: map<nat, Node>) returns (pa: nat)
      requires Owns(root, tree)
      modifies this
      ensures Now() == old(Now())
      ensures pa == if UserPage(root, va) then Target(PteAt(mem, root, va / 4096)) * 4096 else 0
    {
      if va >= VPAGES * 4096 {
        return 0;
      }
      var table;
      ghost var t;
      table, t := Walk(root, va / 4096, false, tree);
      if table == 0 {
        return 0;
      }
      var pte := mem[table][va / 4096 % 512];
      if !IsValid(pte) || pte / 16 % 2 == 0 {
        return 0;
      }
      pa := Target(pte) * 4096;
    }

    /** One round of the loop of `mappages`. */
    method MapNext(root: nat, v: nat, n: nat, p: nat, perm: nat, ghost s: State, ghost tree: map<nat, Node>,
        ghost u: map<nat, Node>) returns (r: MapResult, ghost t: map<nat, Node>)
      requires Owns(root, u) && root < |s.mem| && perm < 1024 && v + n < VPAGES
      requires Took(s, Now(), tree, u) && Distinct(s.freelist) && Mapping(s, Now(), root, v, n, p, perm)
      modifies this
      ensures Owns(root, t) && Took(s, Now(), tree, t)
      ensures Mapping(s, Now(), root, v, if r.Mapped? then n + 1 else n, p, perm)
      ensures r.NoMemory? ==> freelist == []
      ensures r.Remap? ==> IsValid(PteAt(s.mem, root, v + n))
      ensures |freelist| >= |old(freelist)| - 2 && (r.NoMemory? ==> |old(freelist)| < 2)
    {
      hide IsTree, MakePte, Took, TableFor, PteAt;
      ghost var m := Now();
      var table;
      table, t := Walk(root, v + n, true, u);
      TookTook(s, m, Now(), tree, u, t);
      if table == 0 {
        return NoMemory, t;
      }
      EntryIs(root, v + n, t);
      var pte := mem[table][(v + n) % 512];
      if IsValid(pte) {
        return Remap, t;
      }
      SetEntry(mem, root, t, v + n, MakePte(p + n, perm));
      TookWrite(s, Now(), tree, t, table, mem[table][(v + n) % 512 := MakePte(p + n, perm)]);
      mem := mem[table := mem[table][(v + n) % 512 := MakePte(p + n, perm)]];
      r := Mapped;
    }

    lemma EntryIs(root: nat, v: nat, tree: map<nat, Node>)
      requires Owns(root, tree) && v < VPAGES && TableFor(mem, root, v / 512) < |mem|
      ensures PteAt(mem, root, v) == mem[TableFor(mem, root, v / 512)][v % 512]
    {
    }

    /** `mappages`: the pages that touch [va, va + size) are to lead to the physical pages from
        that of pa on. The outcome says exactly which of them now do; nothing else is remapped. */
    method Mappages(root: nat, va: nat, size: nat, pa: nat, perm: nat, ghost tree: map<nat, Node>)
        returns (r: MapResult, n: nat, ghost t: map<nat, Node>)
      requires Owns(root, tree) && perm < 1024 && 0 < size && va + size <= VPAGES * 4096
      modifies this
      ensures Owns(root, t) && Took(old(Now()), Now(), tree, t)
      ensures Mapping(old(Now()), Now(), root, va / 4096, n, pa / 4096, perm) && n <= Span(va, size)
      ensures r.Mapped? <==> n == Span(va, size)
      ensures r.NoMemory? ==> freelist == []
      ensures r.Remap? ==> va / 4096 + n < VPAGES && IsValid(PteAt(old(mem), root, va / 4096 + n))
      ensures |freelist| >= |old(freelist)| - 2 * (if r.Mapped? then n else n + 1)
      ensures r.NoMemory? ==> |old(freelist)| < 2 * (n + 1)
    {
      hide IsTree, MakePte, Took, Mapping, Owns;
      ghost var s := Now();
      var v, last, p := va / 4096, (va + size - 1) / 4096, pa / 4096;
      OwnsFacts(root, tree);
      NoneMapped(root, tree, v, p, perm);
      t := tree;
      n := 0;
      r := Mapped;
      while v + n <= last
        invariant 0 <= n <= last - v + 1 && r.Mapped? && Owns(root, t) && root < |mem|
        invariant Took(s, Now(), tree, t) && Mapping(s, Now(), root, v, n, p, perm)
        invariant |freelist| >= |s.freelist| - 2 * n
      {
        r, t := MapNext(root, v, n, p, perm, s, tree, t);
        OwnsFacts(root, t);
        if !r.Mapped? {
          return;
        }
        n := n + 1;
      }
    }

    /** The pages from v on may be unmapped and freed: they are leaves, and each of their physical
        pages is allocated and theirs alone. */
    ghost predicate Disposable(root: nat, tree: map<nat, Node>, v: nat, n: nat)
      reads this
      requires Owns(root, tree) && v + n <= VPAGES
    {
      && Distinct(Targets(mem, root, v, n))
      && forall p :: p in Targets(mem, root, v, n) ==> p !in tree && Allocated(p)
    }

    ghost predicate Leaves(root: nat, v: nat, n: nat)
      reads this
      requires root < |mem| && v + n <= VPAGES
    {
      forall u :: v <= u < v + n && IsValid(PteAt(mem, root, u)) ==> Flags(PteAt(mem, root, u)) != 1
    }

    /** The next page is still allocated when its turn comes. */
    lemma NextDisposable(s: State, root: nat, tree: map<nat, Node>, v: nat, n: nat, count: nat)
      requires Owns(root, tree) && root < |s.mem| && n < count && v + count <= VPAGES
      requires Unmapped(s, Now(), root, tree, v, n, true) && |s.mem| == PAGES
      requires IsValid(PteAt(s.mem, root, v + n)) && Distinct(Targets(s.mem, root, v, count))
      requires forall p :: p in Targets(s.mem, root, v, count) ==>
               p !in tree && first <= p < PAGES && p !in s.freelist && s.refs[p] == 1
      ensures var p := Target(PteAt(s.mem, root, v + n));
              && p !in tree && Allocated(p) && p !in Targets(s.mem, root, v, n)
    {
      hide IsTree, IsValid, Target, PteAt, Reversed;
      var t, p, all := Targets(s.mem, root, v, n), Target(PteAt(s.mem, root, v + n)), Targets(s.mem, root, v, count);
      TargetsPrefix(s.mem, root, v, n + 1, count);
      assert t + [p] <= all;
      assert all[|t|] == (t + [p])[|t|] == p;
      assert forall i :: 0 <= i < |t| ==> all[i] == (t + [p])[i] == t[i];
      assert p !in t;
      ReversedElems(t, p);
      assert p !in Reversed(t) + s.freelist;
    }

    /** One round of the loop of `uvmunmap`. */
    method UnmapNext(root: nat, v: nat, n: nat, doFree: bool, ghost s: State, ghost tree: map<nat, Node>,
        ghost count: nat)
      requires Owns(root, tree) && root < |s.mem| == PAGES && n < count && v + count <= VPAGES
      requires Unmapped(s, Now(), root, tree, v, n, doFree)
      requires doFree ==> Distinct(Targets(s.mem, root, v, count))
      requires doFree ==> forall p :: p in Targets(s.mem, root, v, count) ==>
               p !in tree && first <= p < PAGES && p !in s.freelist && s.refs[p] == 1
      modifies this
      ensures Owns(root, tree) && Unmapped(s, Now(), root, tree, v, n + 1, doFree)
    {
      hide IsTree, PteAt, TableFor, Distinct, Unmapped, Targets, Reversed, IsValid, Target, Took;
      var table;
      ghost var t;
      table, t := Walk(root, v + n, false, tree);
      UnmappedPte(s, Now(), root, tree, v, n, doFree);
      if table == 0 {
        NotThere(mem, root, v + n);
        UnmapSkip(s, Now(), root, tree, v, n, doFree);
        return;
      }
      EntryIs(root, v + n, tree);
      var pte := mem[table][(v + n) % 512];
      if !IsValid(pte) {
        UnmapSkip(s, Now(), root, tree, v, n, doFree);
        return;
      }
      ghost var e := Now();
      TableOfLow(mem, root, tree, (v + n) / 512);
      if doFree {
        NextDisposable(s, root, tree, v, n, count);
        FreedIsElsewhere(mem, root, tree, v + n, Target(pte));
        var freed := Kfree(Target(pte));
      }
      SetEntry(mem, root, tree, v + n, 0);
      mem := mem[table := mem[table][(v + n) % 512 := 0]];
      UnmapClear(s, e, Now(), root, tree, v, n, doFree);
    }

    /** `uvmunmap`: the mapped pages among the given ones are unmapped, and with `doFree` their
        physical pages are put on the free list, each once. */
    method Uvmunmap(root: nat, v: nat, count: nat, doFree: bool, ghost tree: map<nat, Node>)
      requires Owns(root, tree) && v + count <= VPAGES && Leaves(root, v, count)
      requires (doFree ==> Disposable(root, tree, v, count))
      modifies this
      ensures Owns(root, tree) && Unmapped(old(Now()), Now(), root, tree, v, count, doFree)
    {
      hide IsTree, PteAt, Unmapped, Targets;
      ghost var s := Now();
      OwnsFacts(root, tree);
      NoneUnmapped(s, root, tree, v, doFree);
      var n := 0;
      while n < count
        invariant 0 <= n <= count && Owns(root, tree) && Unmapped(s, Now(), root, tree, v, n, doFree)
      {
        UnmapNext(root, v, n, doFree, s, tree, count);
        n := n + 1;
      }
    }

    /** `uvmdealloc`. */
    method Uvmdealloc(root: nat, oldsz: nat, newsz: nat, ghost tree: map<nat, Node>) returns (sz: nat)
      requires Owns(root, tree) && oldsz <= VPAGES * 4096
      requires newsz < oldsz ==> Leaves(root, Up(newsz), Up(oldsz) - Up(newsz))
      requires newsz < oldsz ==> Disposable(root, tree, Up(newsz), Up(oldsz) - Up(newsz))
      modifies this
      ensures Owns(root, tree) && sz == if newsz < oldsz then newsz else oldsz
      ensures newsz >= oldsz ==> Now() == old(Now())
      ensures newsz < oldsz ==> Unmapped(old(Now()), Now(), root, tree, Up(newsz), Up(oldsz) - Up(newsz), true)
    {
      hide IsTree, PteAt, Targets, Unmapped, Distinct;
      OwnsFacts(root, tree);
      if newsz >= oldsz {
        return oldsz;
      }
      if Up(newsz) < Up(oldsz) {
        Uvmunmap(root, Up(newsz), Up(oldsz) - Up(newsz), true, tree);
      } else {
        NoneUnmapped(Now(), root, tree, Up(newsz), true);
      }
      return newsz;
    }

    /** One round of the loop of `uvmalloc`: a zeroed page is mapped, or neither page nor mapping is
        left behind. */
    method UvmallocNext(root: nat, v: nat, a: nat, perm: nat, ghost s: State, ghost data: seq<nat>,
        ghost tree: map<nat, Node>, ghost u: map<nat, Node>) returns (ok: bool, p: nat, ghost t: map<nat, Node>)
      requires perm < 1024 && Owns(root, u) && Grown(s, Now(), root, tree, u, v, data, perm) && a == v + |data| < VPAGES
      requires !IsValid(PteAt(s.mem, root, a))
      modifies this
      ensures Owns(root, t) && Grown(s, Now(), root, tree, t, v, if ok then data + [p] else data, perm)
      ensures |freelist| >= |old(freelist)| - 3 && (!ok ==> |old(freelist)| < 3)
    {
      hide IsTree, PteAt, Grown, Distinct, IsValid, MakePte, Took;
      ghost var e := Now();
      GrownFacts(s, e, root, tree, u, v, data, perm, a);
      p := Kalloc();
      if p == 0 {
        return false, 0, u;
      }
      mem := mem[p := ZeroPage];
      ghost var m := Now();
      assert Taken(e, m, p);
      Elsewhere(e.mem, m.mem, root, u);
      OwnsFacts(root, u);
      var r, n;
      r, n, t := Mappages(root, a * 4096, 4096, p * 4096, perm, u);
      ghost var f := Now();
      if r.Mapped? {
        OnePage(m, f, root, a, n, p, perm);
        GrownMore(s, e, m, f, root, tree, u, t, v, data, perm, p);
        return true, p, t;
      }
      NoPage(m, f, root, a, n, p, perm);
      TakenApart(e, m, f, u, t, p);
      Elsewhere(mem, mem[p := Fill(1)], root, t);
      FreshAllocated(m, f, u, t, p);
      var freed := Kfree(p);
      GrownNot(s, e, m, f, Now(), root, tree, u, t, v, data, perm, p);
      ok := false;
    }

    /** `uvmalloc`: on success exactly the pages from oldsz up to newsz have been added, each on a
        zeroed page of its own. On failure the translation is what it was, and every page that was
        free is free again unless it has become a table page. */
    method Uvmalloc(root: nat, oldsz: nat, newsz: nat, perm: nat, ghost tree: map<nat, Node>) returns (sz: nat,
        ghost t: map<nat, Node>, ghost data: seq<nat>)
      requires Owns(root, tree) && newsz <= VPAGES * 4096 && perm < 1024 && perm / 2 % 2 == 1
      requires forall u :: Up(oldsz) <= u < Up(newsz) ==> !IsValid(PteAt(mem, root, u))
      modifies this
      ensures Owns(root, t) && (newsz < oldsz ==> sz == oldsz && Now() == old(Now()))
      ensures newsz >= oldsz ==> sz == newsz || sz == 0
      ensures newsz >= oldsz && sz == newsz ==> Grown(old(Now()), Now(), root, tree, t, Up(oldsz), data, perm)
      ensures newsz >= oldsz && sz == newsz ==> |data| == Up(newsz) - Up(oldsz)
      ensures newsz >= oldsz && sz != newsz ==> Undone(old(Now()), Now(), root, tree, t)
      ensures |old(freelist)| >= 3 * (Up(newsz) - Up(oldsz)) && newsz >= oldsz ==> sz == newsz
    {
      hide IsTree, PteAt, Targets, Unmapped, Distinct, Grown, Undone, Owns;
      ghost var s := Now();
      OwnsFacts(root, tree);
      t, data := tree, [];
      if newsz < oldsz {
        return oldsz, t, data;
      }
      var v := Up(oldsz);
      var a, ok, p := v, true, 0;
      NoneGrown(root, tree, v, perm);
      while a * 4096 < newsz
        invariant v <= a <= Up(newsz) && a == v + |data| && Owns(root, t)
        invariant Grown(s, Now(), root, tree, t, v, data, perm) && root < |s.mem|
        invariant |freelist| >= |s.freelist| - 3 * |data|
      {
        ok, p, t := UvmallocNext(root, v, a, perm, s, data, tree, t);
        if !ok {
          OwnsFacts(root, t);
          AllDisposable(s, root, tree, t, v, data, perm);
          ghost var e := Now();
          var _ := Uvmdealloc(root, a * 4096, v * 4096, t);
          if |data| > 0 {
            UndoneBy(s, e, Now(), root, tree, t, v, data, perm);
          } else {
            NothingDone(s, e, root, tree, t, v, perm);
          }
          return 0, t, data;
        }
        data := data + [p];
        a := a + 1;
      }
      sz := newsz;
    }

    lemma NoneGrown(root: nat, tree: map<nat, Node>, v: nat, perm: nat)
      requires Owns(root, tree) && perm < 1024
      ensures Grown(Now(), Now(), root, tree, tree, v, [], perm)
    {
      hide PteAt;
    }

    lemma AllDisposable(s: State, root: nat, tree: map<nat, Node>, t: map<nat, Node>, v: nat, data: seq<nat>, perm: nat)
      requires perm < 1024 && perm / 2 % 2 == 1 && Owns(root, t)
      requires Grown(s, Now(), root, tree, t, v, data, perm) && v + |data| <= VPAGES
      requires forall i :: 0 <= i < |s.freelist| ==> first <= s.freelist[i] < PAGES
      ensures Leaves(root, v, |data|) && Disposable(root, t, v, |data|)
    {
      hide IsTree, PteAt;
      GrownTargets(s, Now(), root, tree, t, v, data, perm, |data|);
      assert data[..|data|] == data;
      forall u | v <= u < v + |data|
        ensures Flags(PteAt(mem, root, u)) != 1
      {
        assert PteAt(mem, root, u) == GrownPte(s.mem, root, v, data, perm, u);
      }
    }

    lemma FreshAllocated(m: State, f: State, u: map<nat, Node>, t: map<nat, Node>, p: nat)
      requires Took(m, f, u, t) && p !in t && p < |m.refs|
      ensures |f.refs| == |m.refs| && f.refs[p] == m.refs[p]
    {
    }

    lemma NoneMapped(root: nat, tree: map<nat, Node>, v: nat, p: nat, perm: nat)
      requires Owns(root, tree) && perm < 1024
      ensures Took(Now(), Now(), tree, tree) && Mapping(Now(), Now(), root, v, 0, p, perm)
    {
      assert freelist[0..] == freelist;
    }
  }

  lemma NotThere(mem: Memory, root: nat, v: nat)
    requires root < |mem| && v < VPAGES && TableFor(mem, root, v / 512) == |mem|
    ensures PteAt(mem, root, v) == 0 && !IsValid(0)
  {
  }

  /** Filling a page that is no table page with junk. */
  lemma FreedIsElsewhere(mem: Memory, root: nat, tree: map<nat, Node>, v: nat, p: nat)
    requires IsTree(mem, root, tree) && v < VPAGES && p !in tree && p < |mem| && TableFor(mem, root, v / 512) < |mem|
    ensures var f := mem[p := Fill(1)];
            && IsTree(f, root, tree) && TableFor(f, root, v / 512) == TableFor(mem, root, v / 512)
            && (forall u :: 0 <= u < VPAGES ==> PteAt(f, root, u) == PteAt(mem, root, u))
            && TableFor(mem, root, v / 512) in tree
  {
    hide IsValid, Target;
    TableOfLow(mem, root, tree, v / 512);
    Elsewhere(mem, mem[p := Fill(1)], root, tree);
    TableElsewhere(mem, mem[p := Fill(1)], root, tree, v / 512);
  }

  lemma GrownFacts(s: State, e: State, root: nat, tree: map<nat, Node>, t: map<nat, Node>, v: nat, data: seq<nat>,
      perm: nat, a: nat)
    requires perm < 1024 && Grown(s, e, root, tree, t, v, data, perm) && a == v + |data| < VPAGES
    ensures root < |s.mem| == |e.mem| && PteAt(e.mem, root, a) == PteAt(s.mem, root, a)
  {
  }

  lemma {:induction false} GrownTargets(s: State, e: State, root: nat, tree: map<nat, Node>, t: map<nat, Node>,
      v: nat, data: seq<nat>, perm: nat, n: nat)
    requires perm < 1024 && Grown(s, e, root, tree, t, v, data, perm) && v + |data| <= VPAGES && n <= |data|
    ensures Targets(e.mem, root, v, n) == data[..n]
  {
    hide PteAt;
    if n > 0 {
      GrownTargets(s, e, root, tree, t, v, data, perm, n - 1);
      assert PteAt(e.mem, root, v + n - 1) == GrownPte(s.mem, root, v, data, perm, v + n - 1);
      assert data[..n] == data[..n - 1] + [data[n - 1]];
    }
  }

  /** After a failed uvmalloc: the same translation, and no page lost. */
  ghost predicate Undone(s: State, f: State, root: nat, tree: map<nat, Node>, t: map<nat, Node>) {
    && root < |s.mem| == |f.mem| && SameTranslation(s, f, root)
    && (forall p :: p in tree ==> p in t)
    && (forall p :: p in s.freelist <==> p in f.freelist || (p in t && p !in tree))
    && (forall p :: p in f.freelist ==> p !in t)
    && |s.refs| == |f.refs| == |s.mem|
    && forall p :: 0 <= p < |f.mem| && p !in t && p !in f.freelist ==> f.mem[p] == s.mem[p] && f.refs[p] == s.refs[p]
  }

  lemma UndoneBy(s: State, e: State, f: State, root: nat, tree: map<nat, Node>, t: map<nat, Node>, v: nat,
      data: seq<nat>, perm: nat)
    requires perm < 1024 && Grown(s, e, root, tree, t, v, data, perm) && v + |data| <= VPAGES
    requires Unmapped(e, f, root, t, v, |data|, true)
    requires (forall u :: v <= u < v + |data| ==> !IsValid(PteAt(s.mem, root, u)))
    requires forall p :: p in t ==> p !in e.freelist
    ensures Undone(s, f, root, tree, t)
  {
    hide PteAt, Reversed, Targets;
    GrownTargets(s, e, root, tree, t, v, data, perm, |data|);
    assert data[..|data|] == data;
    forall p
      ensures p in f.freelist <==> p in data || p in e.freelist
    {
      ReversedElems(data, p);
    }
    UndonePtes(s, e, f, root, tree, t, v, data, perm);
  }

  lemma UndonePtes(s: State, e: State, f: State, root: nat, tree: map<nat, Node>, t: map<nat, Node>, v: nat,
      data: seq<nat>, perm: nat)
    requires perm < 1024 && Grown(s, e, root, tree, t, v, data, perm) && v + |data| <= VPAGES
    requires Unmapped(e, f, root, t, v, |data|, true)
    requires forall u :: v <= u < v + |data| ==> !IsValid(PteAt(s.mem, root, u))
    ensures SameTranslation(s, f, root)
  {
    hide PteAt, Reversed, Targets, Distinct, MakePte;
    forall u | 0 <= u < VPAGES
      ensures IsValid(PteAt(f.mem, root, u)) || IsValid(PteAt(s.mem, root, u)) ==>
              PteAt(f.mem, root, u) == PteAt(s.mem, root, u)
    {
      assert PteAt(e.mem, root, u) == GrownPte(s.mem, root, v, data, perm, u);
    }
  }

  lemma NothingDone(s: State, e: State, root: nat, tree: map<nat, Node>, t: map<nat, Node>, v: nat, perm: nat)
    requires perm < 1024 && Grown(s, e, root, tree, t, v, [], perm) && forall p :: p in t ==> p !in e.freelist
    ensures Undone(s, e, root, tree, t)
  {
    hide PteAt;
  }

  lemma StillReached(mem: Memory, root: nat, tree: map<nat, Node>, v: nat, level: nat, table: nat, q: nat)
    requires IsTree(mem, root, tree) && v < VPAGES && 0 < level <= 2 && Reached(mem, root, v, level, table)
    requires q < |mem| && q !in tree
    ensures Reached(mem[q := ZeroPage], root, v, level, table)
  {
  }
}
