/** The Sv39 page tables of kernel/vm.c as three-level trees in physical memory, and the partial
    map from virtual pages to page-table entries that the hardware sees in them (section 4.4 of
    the RISC-V Privileged Architecture, version 20211203). */
module PageTable {
  /** Virtual pages below MAXVA = 2^38. */
  const VPAGES: nat := 0x400_0000

  type Page = s: seq<nat> | |s| == 512 witness seq(512, _ => 0)
  type Memory = seq<Page>

  const ZeroPage: Page := seq(512, _ => 0)

  predicate IsValid(pte: nat) {
    pte % 2 == 1
  }

  /** The physical page of an entry: PTE2PA, in pages. */
  function Target(pte: nat): nat {
    pte / 1024
  }

  function Flags(pte: nat): nat {
    pte % 1024
  }

  /** PA2PTE(pa) | flags | PTE_V. */
  function MakePte(page: nat, flags: nat): (pte: nat)
    requires flags < 1024
    ensures IsValid(pte) && Target(pte) == page && (IsValid(flags) ==> Flags(pte) == flags)
  {
    var f := if flags % 2 == 1 then flags else flags + 1;
    Packed(page, f);
    SameParity(page, f);
    page * 1024 + f
  }

  lemma Packed(page: nat, f: nat)
    requires f < 1024
    ensures (page * 1024 + f) / 1024 == page && (page * 1024 + f) % 1024 == f
  {
  }

  lemma SameParity(page: nat, f: nat)
    ensures (page * 1024 + f) % 2 == f % 2
  {
    assert page * 1024 + f == 2 * (page * 512 + f / 2) + f % 2;
  }

  lemma ValidBit()
    ensures IsValid(1) && !IsValid(0)
  {
  }

  /** The level-0 table for the 512 virtual pages from 512 * k on, if there is one. */
  function TableFor(mem: Memory, root: nat, k: nat): (p: nat)
    requires root < |mem| && k < 512 * 512
    ensures p <= |mem|
  {
    var pte := mem[root][k / 512];
    if !IsValid(pte) || Target(pte) >= |mem| then |mem|
    else
      var pte' := mem[Target(pte)][k % 512];
      if !IsValid(pte') || Target(pte') >= |mem| then |mem| else Target(pte')
  }

  /** What the hardware finds for virtual page v: the level-0 entry, or 0 if the walk stops. */
  function PteAt(mem: Memory, root: nat, v: nat): nat
    requires root < |mem| && v < VPAGES
  {
    var p := TableFor(mem, root, v / 512);
    if p < |mem| then mem[p][v % 512] else 0
  }

  /** The place of a table page in the tree. */
  datatype Node = Root | Mid(i: nat) | Low(k: nat)

  /** An entry of an inner table: empty, or a link to the table page labelled n. */
  ghost predicate Links(pte: nat, tree: map<nat, Node>, n: Node) {
    IsValid(pte) ==> Flags(pte) == 1 && Target(pte) in tree && tree[Target(pte)] == n
  }

  ghost predicate Linked(mem: Memory, root: nat, tree: map<nat, Node>, p: nat)
    requires root < |mem| && p < |mem| && p in tree
  {
    match tree[p]
    case Root => p == root && forall i :: 0 <= i < 512 ==> Links(mem[p][i], tree, Mid(i))
    case Mid(i) => i < 256 && mem[root][i] == MakePte(p, 1) && forall j :: 0 <= j < 512 ==>
      Links(mem[p][j], tree, Low(512 * i + j))
    case Low(k) =>
      k < 256 * 512 &&
      var q := Target(mem[root][k / 512]);
      IsValid(mem[root][k / 512]) && q < |mem| && mem[q][k % 512] == MakePte(p, 1)
  }

  /** `tree` labels the table pages of the page table at `root`: every link leads to the page with
      the right label, so no table page is shared, and every labelled page is linked, so none is
      lost. */
  ghost predicate IsTree(mem: Memory, root: nat, tree: map<nat, Node>) {
    && root < |mem| && root in tree && tree[root] == Root
    && forall p :: p in tree ==> p < |mem| && Linked(mem, root, tree, p)
  }

  /** A link that is set is followed to its page. */
  lemma FollowMid(mem: Memory, root: nat, tree: map<nat, Node>, i: nat)
    requires IsTree(mem, root, tree) && i < 512 && IsValid(mem[root][i])
    ensures Target(mem[root][i]) in tree && tree[Target(mem[root][i])] == Mid(i)
  {
    hide IsValid, Target, Flags, MakePte;
    assert Linked(mem, root, tree, root);
    assert Links(mem[root][i], tree, Mid(i));
  }

  lemma FollowLow(mem: Memory, root: nat, tree: map<nat, Node>, i: nat, j: nat)
    requires IsTree(mem, root, tree) && i < 512 && j < 512 && IsValid(mem[root][i])
    ensures Target(mem[root][i]) < |mem|
    ensures var pte := mem[Target(mem[root][i])][j];
            IsValid(pte) ==> Target(pte) in tree && tree[Target(pte)] == Low(512 * i + j)
  {
    hide IsValid, Target, Flags, MakePte;
    FollowMid(mem, root, tree, i);
    var q := Target(mem[root][i]);
    assert Linked(mem, root, tree, q);
    assert Links(mem[q][j], tree, Low(512 * i + j));
  }

  lemma TableOfLow(mem: Memory, root: nat, tree: map<nat, Node>, k: nat)
    requires IsTree(mem, root, tree) && k < 512 * 512 && TableFor(mem, root, k) < |mem|
    ensures TableFor(mem, root, k) in tree && tree[TableFor(mem, root, k)] == Low(k)
  {
    hide IsValid, Target, Flags, MakePte;
    FollowLow(mem, root, tree, k / 512, k % 512);
  }

  /** Writing one level-0 entry changes the mapping of that page and of no other. */
  lemma SetEntry(mem: Memory, root: nat, tree: map<nat, Node>, v: nat, pte: nat)
    requires IsTree(mem, root, tree) && v < VPAGES && TableFor(mem, root, v / 512) < |mem|
    ensures var p := TableFor(mem, root, v / 512);
            var f := mem[p := mem[p][v % 512 := pte]];
            && IsTree(f, root, tree) && p in tree
            && forall u :: 0 <= u < VPAGES ==> PteAt(f, root, u) == if u == v then pte else PteAt(mem, root, u)
  {
    hide IsValid, Target, Flags, MakePte;
    var p := TableFor(mem, root, v / 512);
    TableOfLow(mem, root, tree, v / 512);
    var f := mem[p := mem[p][v % 512 := pte]];
    InnerSame(mem, f, root, tree, p);
    forall u | 0 <= u < VPAGES
      ensures PteAt(f, root, u) == if u == v then pte else PteAt(mem, root, u)
    {
      SameTables(mem, f, root, tree, p, u / 512);
      if TableFor(mem, root, u / 512) < |mem| {
        TableOfLow(mem, root, tree, u / 512);
      }
    }
  }

  /** A change to a level-0 table is not a change to the tree. */
  lemma InnerSame(mem: Memory, f: Memory, root: nat, tree: map<nat, Node>, p: nat)
    requires IsTree(mem, root, tree) && p in tree && tree[p].Low? && |f| == |mem|
    requires forall q :: 0 <= q < |mem| && q != p ==> f[q] == mem[q]
    ensures IsTree(f, root, tree)
  {
    hide IsValid, Target, Flags, MakePte;
    forall q | q in tree
      ensures Linked(f, root, tree, q)
    {
      assert Linked(mem, root, tree, q);
      if tree[q].Low? {
        FollowMid(mem, root, tree, tree[q].k / 512);
      }
    }
  }

  lemma SameTables(mem: Memory, f: Memory, root: nat, tree: map<nat, Node>, p: nat, k: nat)
    requires IsTree(mem, root, tree) && p in tree && tree[p].Low? && |f| == |mem| && k < 512 * 512
    requires forall q :: 0 <= q < |mem| && q != p ==> f[q] == mem[q]
    ensures TableFor(f, root, k) == TableFor(mem, root, k)
  {
    hide IsValid, Target, Flags, MakePte;
    if IsValid(mem[root][k / 512]) {
      FollowMid(mem, root, tree, k / 512);
    }
  }

  /** What happens in pages that are not table pages does not concern the page table. */
  lemma Elsewhere(mem: Memory, f: Memory, root: nat, tree: map<nat, Node>)
    requires IsTree(mem, root, tree) && |f| == |mem| && forall p :: p in tree ==> f[p] == mem[p]
    ensures IsTree(f, root, tree) && forall v :: 0 <= v < VPAGES ==> PteAt(f, root, v) == PteAt(mem, root, v)
  {
    hide IsValid, Target, Flags, MakePte;
    forall q | q in tree
      ensures Linked(f, root, tree, q)
    {
      assert Linked(mem, root, tree, q);
      if tree[q].Low? {
        FollowMid(mem, root, tree, tree[q].k / 512);
      }
    }
    forall v | 0 <= v < VPAGES
      ensures PteAt(f, root, v) == PteAt(mem, root, v)
    {
      TableElsewhere(mem, f, root, tree, v / 512);
    }
  }

  lemma TableElsewhere(mem: Memory, f: Memory, root: nat, tree: map<nat, Node>, k: nat)
    requires IsTree(mem, root, tree) && |f| == |mem| && k < 512 * 512 && forall p :: p in tree ==> f[p] == mem[p]
    ensures var p := TableFor(mem, root, k); TableFor(f, root, k) == p && (p < |mem| ==> f[p] == mem[p])
  {
    hide IsValid, Target, Flags, MakePte;
    if IsValid(mem[root][k / 512]) {
      FollowLow(mem, root, tree, k / 512, k % 512);
      FollowMid(mem, root, tree, k / 512);
    }
  }

  /** A fresh zeroed page hung under the root. */
  lemma AddMid(mem: Memory, root: nat, tree: map<nat, Node>, i: nat, q: nat)
    requires IsTree(mem, root, tree) && i < 256 && !IsValid(mem[root][i]) && q < |mem| && q !in tree
    requires mem[q] == ZeroPage
    ensures var f := mem[root := mem[root][i := MakePte(q, 1)]];
            && IsTree(f, root, tree[q := Mid(i)])
            && forall v :: 0 <= v < VPAGES ==> PteAt(f, root, v) == PteAt(mem, root, v)
  {
    hide IsValid, Target, Flags, MakePte;
    ValidBit();
    var f := mem[root := mem[root][i := MakePte(q, 1)]];
    var t := tree[q := Mid(i)];
    forall p | p in t
      ensures p < |f| && Linked(f, root, t, p)
    {
      if p != q {
        MidAdded(mem, root, tree, i, q, p);
      }
    }
    forall v | 0 <= v < VPAGES
      ensures PteAt(f, root, v) == PteAt(mem, root, v)
    {
      if IsValid(mem[root][v / 512 / 512]) {
        FollowLow(mem, root, tree, v / 512 / 512, v / 512 % 512);
        FollowMid(mem, root, tree, v / 512 / 512);
      }
    }
  }

  lemma MidAdded(mem: Memory, root: nat, tree: map<nat, Node>, i: nat, q: nat, p: nat)
    requires IsTree(mem, root, tree) && i < 256 && !IsValid(mem[root][i]) && q < |mem| && q !in tree && p in tree
    ensures Linked(mem[root := mem[root][i := MakePte(q, 1)]], root, tree[q := Mid(i)], p)
  {
    hide IsValid, Target, Flags, MakePte;
    ValidBit();
    assert Linked(mem, root, tree, p);
    if tree[p].Low? {
      FollowMid(mem, root, tree, tree[p].k / 512);
    }
  }

  /** A fresh zeroed page hung under a level-1 table. */
  lemma AddLow(mem: Memory, root: nat, tree: map<nat, Node>, k: nat, q: nat)
    requires IsTree(mem, root, tree) && k < 256 * 512 && IsValid(mem[root][k / 512]) && q < |mem| && q !in tree
    requires mem[q] == ZeroPage
    requires Target(mem[root][k / 512]) < |mem| && !IsValid(mem[Target(mem[root][k / 512])][k % 512])
    ensures var m := Target(mem[root][k / 512]);
            var f := mem[m := mem[m][k % 512 := MakePte(q, 1)]];
            && IsTree(f, root, tree[q := Low(k)])
            && forall v :: 0 <= v < VPAGES ==> PteAt(f, root, v) == PteAt(mem, root, v)
  {
    hide IsValid, Target, Flags, MakePte;
    ValidBit();
    var m := Target(mem[root][k / 512]);
    FollowMid(mem, root, tree, k / 512);
    var f := mem[m := mem[m][k % 512 := MakePte(q, 1)]];
    var t := tree[q := Low(k)];
    forall p | p in t
      ensures p < |f| && Linked(f, root, t, p)
    {
      if p != q {
        LowAdded(mem, root, tree, k, q, p);
      }
    }
    forall v | 0 <= v < VPAGES
      ensures PteAt(f, root, v) == PteAt(mem, root, v)
    {
      if IsValid(mem[root][v / 512 / 512]) {
        FollowLow(mem, root, tree, v / 512 / 512, v / 512 % 512);
        FollowMid(mem, root, tree, v / 512 / 512);
      }
    }
  }

  lemma LowAdded(mem: Memory, root: nat, tree: map<nat, Node>, k: nat, q: nat, p: nat)
    requires IsTree(mem, root, tree) && k < 256 * 512 && IsValid(mem[root][k / 512]) && q < |mem| && q !in tree
    requires p in tree
    requires Target(mem[root][k / 512]) < |mem| && !IsValid(mem[Target(mem[root][k / 512])][k % 512])
    ensures var m := Target(mem[root][k / 512]);
            Linked(mem[m := mem[m][k % 512 := MakePte(q, 1)]], root, tree[q := Low(k)], p)
  {
    hide IsValid, Target, Flags, MakePte;
    ValidBit();
    assert Linked(mem, root, tree, p);
    FollowMid(mem, root, tree, k / 512);
    if tree[p].Low? {
      FollowMid(mem, root, tree, tree[p].k / 512);
    }
  }

  /** A zeroed page is an empty page table. */
  lemma EmptyTable(mem: Memory, root: nat)
    requires root < |mem| && mem[root] == ZeroPage
    ensures IsTree(mem, root, map[root := Root]) && forall v :: 0 <= v < VPAGES ==> PteAt(mem, root, v) == 0
  {
  }
}
