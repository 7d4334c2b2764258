/** user/umalloc.c: Kernighan and Ritchie's allocator. Addresses count units of one header; `base`
    is the static header, below everything that sbrk returns. */
module Umalloc {
  import opened Counting

  /** The `s.ptr` and `s.size` words of the headers. */
  datatype Headers = Headers(ptr: map<nat, nat>, size: map<nat, nat>)

  function Succ(i: nat, n: nat): (j: nat)
    requires i < n
    ensures j < n
  {
    if i + 1 < n then i + 1 else 0
  }

  ghost predicate Has(h: Headers, fl: seq<nat>) {
    0 < |fl| && forall i :: 0 <= i < |fl| ==> fl[i] in h.ptr && fl[i] in h.size
  }

  ghost predicate LinkAt(h: Headers, fl: seq<nat>, i: nat)
    requires Has(h, fl) && i < |fl|
  {
    h.ptr[fl[i]] == fl[Succ(i, |fl|)]
  }

  /** Block i lies before block j. */
  ghost predicate Before(h: Headers, fl: seq<nat>, i: nat, j: nat)
    requires Has(h, fl) && i < |fl| && j < |fl|
  {
    fl[i] < fl[j] && fl[i] + h.size[fl[i]] <= fl[j]
  }

  ghost predicate SizeAt(h: Headers, fl: seq<nat>, i: nat)
    requires Has(h, fl) && i < |fl|
  {
    h.size[fl[i]] > 0 <==> i > 0
  }

  /** fl lists the circular free list from base on: linked up, in address order, not overlapping, and
      only base is empty. */
  ghost predicate FreeList(h: Headers, fl: seq<nat>) {
    && Has(h, fl)
    && (forall i: nat :: i < |fl| ==> LinkAt(h, fl, i))
    && (forall i: nat, j: nat :: i < j < |fl| ==> Before(h, fl, i, j))
    && forall i: nat :: i < |fl| ==> SizeAt(h, fl, i)
  }

  /** u is a unit of block i. */
  ghost predicate Covers(h: Headers, fl: seq<nat>, i: nat, u: nat)
    requires Has(h, fl) && i < |fl|
  {
    fl[i] <= u < fl[i] + h.size[fl[i]]
  }

  ghost predicate InFree(h: Headers, fl: seq<nat>, u: nat)
    requires Has(h, fl)
  {
    exists i: nat :: i < |fl| && Covers(h, fl, i, u)
  }

  lemma Ordered(h: Headers, fl: seq<nat>, i: nat, j: nat)
    requires FreeList(h, fl) && i < |fl| && j < |fl|
    ensures i < j ==> fl[i] < fl[j] && fl[i] + h.size[fl[i]] <= fl[j]
    ensures fl[i] == fl[j] ==> i == j
  {
    if i < j {
      assert Before(h, fl, i, j);
    } else if j < i {
      assert Before(h, fl, j, i);
    }
  }

  // Linking a block in: lines 33-42 of the original, in steps.

  /** bp is put between p and its successor. */
  function Insert(h: Headers, p: nat, bp: nat): Headers
    requires p in h.ptr
  {
    h.(ptr := h.ptr[bp := h.ptr[p]][p := bp])
  }

  /** The successor of p is made part of p. */
  function Absorb(h: Headers, p: nat): Headers
    requires p in h.ptr && p in h.size && h.ptr[p] in h.ptr && h.ptr[p] in h.size
  {
    Headers(h.ptr[p := h.ptr[h.ptr[p]]], h.size[p := h.size[p] + h.size[h.ptr[p]]])
  }

  function Inserted(fl: seq<nat>, k: nat, bp: nat): (l: seq<nat>)
    requires k < |fl|
    ensures |l| == |fl| + 1
  {
    fl[..k + 1] + [bp] + fl[k + 1..]
  }

  lemma InsertedAt(fl: seq<nat>, k: nat, bp: nat, i: nat)
    requires k < |fl| && i <= |fl|
    ensures Inserted(fl, k, bp)[i] == if i <= k then fl[i] else if i == k + 1 then bp else fl[i - 1]
  {
  }

  function Without(fl: seq<nat>, k: nat): (l: seq<nat>)
    requires k < |fl|
    ensures |l| == |fl| - 1
  {
    fl[..k] + fl[k + 1..]
  }

  lemma WithoutAt(fl: seq<nat>, k: nat, i: nat)
    requires k < |fl| && i < |fl| - 1
    ensures Without(fl, k)[i] == if i < k then fl[i] else fl[i + 1]
  {
  }

  /** Block i lies before bp if i <= k, and after it otherwise. */
  ghost predicate FitsAt(h: Headers, fl: seq<nat>, k: nat, bp: nat, i: nat)
    requires Has(h, fl) && bp in h.size && i < |fl|
  {
    if i <= k then fl[i] < bp && fl[i] + h.size[fl[i]] <= bp else bp + h.size[bp] <= fl[i]
  }

  /** The place of a new block: after block k and before the next one. */
  ghost predicate Fits(h: Headers, fl: seq<nat>, k: nat, bp: nat) {
    Has(h, fl) && k < |fl| && bp in h.size && h.size[bp] > 0 && forall i: nat :: i < |fl| ==> FitsAt(h, fl, k, bp, i)
  }

  lemma NotThere(h: Headers, fl: seq<nat>, k: nat, bp: nat, i: nat)
    requires Fits(h, fl, k, bp) && i < |fl|
    ensures fl[i] != bp
  {
    assert FitsAt(h, fl, k, bp, i);
  }

  lemma InsertHas(h: Headers, fl: seq<nat>, k: nat, bp: nat)
    requires Has(h, fl) && k < |fl| && bp in h.size
    ensures Has(Insert(h, fl[k], bp), Inserted(fl, k, bp))
  {
    var g, l := Insert(h, fl[k], bp), Inserted(fl, k, bp);
    forall i | 0 <= i < |l|
      ensures l[i] in g.ptr && l[i] in g.size
    {
      InsertedAt(fl, k, bp, i);
    }
  }

  lemma InsertLink(h: Headers, fl: seq<nat>, k: nat, bp: nat, i: nat)
    requires FreeList(h, fl) && Fits(h, fl, k, bp) && i <= |fl|
    ensures Has(Insert(h, fl[k], bp), Inserted(fl, k, bp)) && LinkAt(Insert(h, fl[k], bp), Inserted(fl, k, bp), i)
  {
    hide Inserted, FitsAt, Before, SizeAt;
    InsertHas(h, fl, k, bp);
    InsertedAt(fl, k, bp, i);
    InsertedAt(fl, k, bp, Succ(i, |fl| + 1));
    var o := if i <= k then i else if i == k + 1 then k else i - 1;
    assert LinkAt(h, fl, o);
    Ordered(h, fl, o, k);
    NotThere(h, fl, k, bp, o);
    NotThere(h, fl, k, bp, k);
  }

  lemma InsertBefore(h: Headers, fl: seq<nat>, k: nat, bp: nat, i: nat, j: nat)
    requires FreeList(h, fl) && Fits(h, fl, k, bp) && i < j <= |fl|
    ensures Has(Insert(h, fl[k], bp), Inserted(fl, k, bp)) && Before(Insert(h, fl[k], bp), Inserted(fl, k, bp), i, j)
  {
    hide Inserted, LinkAt, SizeAt;
    InsertHas(h, fl, k, bp);
    InsertedAt(fl, k, bp, i);
    InsertedAt(fl, k, bp, j);
    var oi, oj := if i <= k then i else i - 1, if j <= k then j else j - 1;
    assert FitsAt(h, fl, k, bp, oi) && FitsAt(h, fl, k, bp, oj);
    Ordered(h, fl, oi, oj);
  }

  lemma InsertSize(h: Headers, fl: seq<nat>, k: nat, bp: nat, i: nat)
    requires FreeList(h, fl) && Fits(h, fl, k, bp) && i <= |fl|
    ensures Has(Insert(h, fl[k], bp), Inserted(fl, k, bp)) && SizeAt(Insert(h, fl[k], bp), Inserted(fl, k, bp), i)
  {
    hide Inserted, LinkAt, Before, FitsAt;
    InsertHas(h, fl, k, bp);
    InsertedAt(fl, k, bp, i);
    assert SizeAt(h, fl, if i <= k then i else i - 1);
  }

  lemma InsertFree(h: Headers, fl: seq<nat>, k: nat, bp: nat)
    requires FreeList(h, fl) && Fits(h, fl, k, bp)
    ensures FreeList(Insert(h, fl[k], bp), Inserted(fl, k, bp))
  {
    hide Inserted, LinkAt, Before, FitsAt, SizeAt;
    var g, l := Insert(h, fl[k], bp), Inserted(fl, k, bp);
    InsertHas(h, fl, k, bp);
    forall i: nat | i < |l|
      ensures LinkAt(g, l, i) && SizeAt(g, l, i)
    {
      InsertLink(h, fl, k, bp, i);
      InsertSize(h, fl, k, bp, i);
    }
    forall i: nat, j: nat | i < j < |l|
      ensures Before(g, l, i, j)
    {
      InsertBefore(h, fl, k, bp, i, j);
    }
  }

  lemma InsertUnits(h: Headers, fl: seq<nat>, k: nat, bp: nat, u: nat)
    requires FreeList(h, fl) && Fits(h, fl, k, bp)
    ensures Has(Insert(h, fl[k], bp), Inserted(fl, k, bp))
    ensures InFree(Insert(h, fl[k], bp), Inserted(fl, k, bp), u) <==> InFree(h, fl, u) || bp <= u < bp + h.size[bp]
  {
    hide Inserted, LinkAt, Before, FitsAt, SizeAt;
    var g, l := Insert(h, fl[k], bp), Inserted(fl, k, bp);
    InsertHas(h, fl, k, bp);
    if i: nat :| i < |fl| && Covers(h, fl, i, u) {
      var j := if i <= k then i else i + 1;
      InsertedAt(fl, k, bp, j);
      assert Covers(g, l, j, u);
    }
    if bp <= u < bp + h.size[bp] {
      InsertedAt(fl, k, bp, k + 1);
      assert Covers(g, l, k + 1, u);
    }
    if j: nat :| j < |l| && Covers(g, l, j, u) {
      InsertedAt(fl, k, bp, j);
      if j != k + 1 {
        assert Covers(h, fl, if j <= k then j else j - 1, u);
      }
    }
  }

  // Absorbing a neighbour.

  /** Block k ends where the next one begins. */
  ghost predicate Touch(h: Headers, fl: seq<nat>, k: nat)
    requires Has(h, fl)
  {
    k + 1 < |fl| && fl[k] + h.size[fl[k]] == fl[k + 1]
  }

  lemma TouchFacts(h: Headers, fl: seq<nat>, k: nat)
    requires FreeList(h, fl) && Touch(h, fl, k)
    ensures k > 0 && h.ptr[fl[k]] == fl[k + 1] && fl[k + 1] in h.ptr && fl[k + 1] in h.size && h.size[fl[k + 1]] > 0
  {
    assert LinkAt(h, fl, k) && SizeAt(h, fl, k) && SizeAt(h, fl, k + 1);
    Ordered(h, fl, k, k + 1);
  }

  lemma AbsorbHas(h: Headers, fl: seq<nat>, k: nat)
    requires FreeList(h, fl) && Touch(h, fl, k)
    ensures h.ptr[fl[k]] == fl[k + 1] && Has(Absorb(h, fl[k]), Without(fl, k + 1))
  {
    TouchFacts(h, fl, k);
    var g, l := Absorb(h, fl[k]), Without(fl, k + 1);
    forall i | 0 <= i < |l|
      ensures l[i] in g.ptr && l[i] in g.size
    {
      WithoutAt(fl, k + 1, i);
    }
  }

  lemma AbsorbLink(h: Headers, fl: seq<nat>, k: nat, i: nat)
    requires FreeList(h, fl) && Touch(h, fl, k) && i < |fl| - 1
    ensures h.ptr[fl[k]] == fl[k + 1] && Has(Absorb(h, fl[k]), Without(fl, k + 1))
    ensures LinkAt(Absorb(h, fl[k]), Without(fl, k + 1), i)
  {
    hide Without, Before, SizeAt;
    AbsorbHas(h, fl, k);
    WithoutAt(fl, k + 1, i);
    WithoutAt(fl, k + 1, Succ(i, |fl| - 1));
    var o := if i < k then i else i + 1;
    assert LinkAt(h, fl, o);
    Ordered(h, fl, o, k);
  }

  lemma AbsorbBefore(h: Headers, fl: seq<nat>, k: nat, i: nat, j: nat)
    requires FreeList(h, fl) && Touch(h, fl, k) && i < j < |fl| - 1
    ensures h.ptr[fl[k]] == fl[k + 1] && Has(Absorb(h, fl[k]), Without(fl, k + 1))
    ensures Before(Absorb(h, fl[k]), Without(fl, k + 1), i, j)
  {
    hide Without, LinkAt, SizeAt, Before;
    AbsorbHas(h, fl, k);
    WithoutAt(fl, k + 1, i);
    WithoutAt(fl, k + 1, j);
    var oi, oj := if i <= k then i else i + 1, if j <= k then j else j + 1;
    Ordered(h, fl, oi, oj);
    Ordered(h, fl, oi, k);
    if i == k {
      Ordered(h, fl, k + 1, oj);
    }
    BeforeDef(Absorb(h, fl[k]), Without(fl, k + 1), i, j);
  }

  lemma BeforeDef(h: Headers, fl: seq<nat>, i: nat, j: nat)
    requires Has(h, fl) && i < |fl| && j < |fl| && fl[i] < fl[j] && fl[i] + h.size[fl[i]] <= fl[j]
    ensures Before(h, fl, i, j)
  {
  }

  lemma AbsorbFree(h: Headers, fl: seq<nat>, k: nat)
    requires FreeList(h, fl) && Touch(h, fl, k)
    ensures h.ptr[fl[k]] == fl[k + 1] && FreeList(Absorb(h, fl[k]), Without(fl, k + 1))
  {
    hide Without, LinkAt, Before;
    TouchFacts(h, fl, k);
    AbsorbHas(h, fl, k);
    var g, l := Absorb(h, fl[k]), Without(fl, k + 1);
    forall i: nat | i < |l|
      ensures LinkAt(g, l, i) && SizeAt(g, l, i)
    {
      AbsorbLink(h, fl, k, i);
      WithoutAt(fl, k + 1, i);
      assert SizeAt(h, fl, if i <= k then i else i + 1);
    }
    forall i: nat, j: nat | i < j < |l|
      ensures Before(g, l, i, j)
    {
      AbsorbBefore(h, fl, k, i, j);
    }
  }

  lemma AbsorbUnits(h: Headers, fl: seq<nat>, k: nat, u: nat)
    requires FreeList(h, fl) && Touch(h, fl, k)
    ensures h.ptr[fl[k]] == fl[k + 1] && Has(Absorb(h, fl[k]), Without(fl, k + 1))
    ensures InFree(Absorb(h, fl[k]), Without(fl, k + 1), u) <==> InFree(h, fl, u)
  {
    hide Without, LinkAt, Before, SizeAt;
    TouchFacts(h, fl, k);
    AbsorbHas(h, fl, k);
    var g, l := Absorb(h, fl[k]), Without(fl, k + 1);
    if i: nat :| i < |fl| && Covers(h, fl, i, u) {
      var j := if i <= k then i else i - 1;
      WithoutAt(fl, k + 1, j);
      Ordered(h, fl, i, k);
      assert Covers(g, l, j, u);
    }
    if j: nat :| j < |l| && Covers(g, l, j, u) {
      WithoutAt(fl, k + 1, j);
      var o := if j <= k then j else j + 1;
      Ordered(h, fl, o, k);
      assert Covers(h, fl, o, u) || Covers(h, fl, k + 1, u);
    }
  }

  // Coalescing.

  /** No block touches the next one, except perhaps those whose index is in `but`. */
  ghost predicate Coalesced(h: Headers, fl: seq<nat>, but: set<nat>)
    requires Has(h, fl)
  {
    forall i: nat :: Touch(h, fl, i) ==> i in but
  }

  lemma NoTouch(h: Headers, fl: seq<nat>, i: nat)
    requires Has(h, fl) && Coalesced(h, fl, {})
    ensures !Touch(h, fl, i)
  {
  }

  lemma InsertCoalesced(h: Headers, fl: seq<nat>, k: nat, bp: nat)
    requires FreeList(h, fl) && Fits(h, fl, k, bp) && Coalesced(h, fl, {})
    ensures Has(Insert(h, fl[k], bp), Inserted(fl, k, bp))
    ensures Coalesced(Insert(h, fl[k], bp), Inserted(fl, k, bp), {k, k + 1})
  {
    hide Inserted, LinkAt, Before, FitsAt, SizeAt;
    var g, l := Insert(h, fl[k], bp), Inserted(fl, k, bp);
    InsertHas(h, fl, k, bp);
    forall i: nat | Touch(g, l, i)
      ensures i in {k, k + 1}
    {
      InsertedAt(fl, k, bp, i);
      InsertedAt(fl, k, bp, i + 1);
      NoTouch(h, fl, if i < k then i else if i > k + 1 then i - 1 else k);
    }
  }

  lemma AbsorbCoalesced(h: Headers, fl: seq<nat>, k: nat, but: set<nat>)
    requires FreeList(h, fl) && Touch(h, fl, k) && Coalesced(h, fl, but) && forall i :: i in but ==> i <= k
    ensures h.ptr[fl[k]] == fl[k + 1] && Has(Absorb(h, fl[k]), Without(fl, k + 1))
    ensures Coalesced(Absorb(h, fl[k]), Without(fl, k + 1), but - {k})
  {
    hide Without, LinkAt, Before, SizeAt;
    TouchFacts(h, fl, k);
    AbsorbHas(h, fl, k);
    var g, l := Absorb(h, fl[k]), Without(fl, k + 1);
    forall i: nat | Touch(g, l, i)
      ensures i in but - {k}
    {
      WithoutAt(fl, k + 1, i);
      WithoutAt(fl, k + 1, i + 1);
      var o := if i < k then i else i + 1;
      Ordered(h, fl, o, k);
      assert Touch(h, fl, o);
    }
  }

  /** Lines 33-42: what free does once it has found p. */
  function LinkRight(h: Headers, p: nat, bp: nat): Headers
    requires p in h.ptr && bp in h.size
  {
    var nx := h.ptr[p];
    if bp + h.size[bp] == nx && nx in h.ptr && nx in h.size
    then Headers(h.ptr[bp := h.ptr[nx]], h.size[bp := h.size[bp] + h.size[nx]])
    else Headers(h.ptr[bp := nx], h.size)
  }

  function LinkLeft(h: Headers, p: nat, bp: nat): Headers
    requires p in h.size && bp in h.ptr && bp in h.size
  {
    if p + h.size[p] == bp
    then Headers(h.ptr[p := h.ptr[bp]], h.size[p := h.size[p] + h.size[bp]])
    else Headers(h.ptr[p := bp], h.size)
  }

  /** The free units of fl and those of the block at bp. */
  ghost predicate Gained(h: Headers, fl: seq<nat>, g: Headers, l: seq<nat>, bp: nat, n: nat)
    requires Has(h, fl) && Has(g, l)
  {
    forall u: nat :: InFree(g, l, u) <==> InFree(h, fl, u) || bp <= u < bp + n
  }

  lemma InsertGains(h: Headers, fl: seq<nat>, k: nat, bp: nat)
    requires FreeList(h, fl) && Fits(h, fl, k, bp)
    ensures Has(Insert(h, fl[k], bp), Inserted(fl, k, bp))
    ensures Gained(h, fl, Insert(h, fl[k], bp), Inserted(fl, k, bp), bp, h.size[bp])
  {
    hide Inserted, FreeList, InFree, Fits;
    FitsFacts(h, fl, k, bp);
    InsertHas(h, fl, k, bp);
    forall u: nat
      ensures InFree(Insert(h, fl[k], bp), Inserted(fl, k, bp), u) <==> InFree(h, fl, u) || bp <= u < bp + h.size[bp]
    {
      InsertUnits(h, fl, k, bp, u);
    }
  }

  lemma AbsorbGains(h: Headers, fl: seq<nat>, g: Headers, l: seq<nat>, k: nat, bp: nat, n: nat)
    requires Has(h, fl) && FreeList(g, l) && Gained(h, fl, g, l, bp, n) && Touch(g, l, k)
    ensures g.ptr[l[k]] == l[k + 1] && Has(Absorb(g, l[k]), Without(l, k + 1))
    ensures Gained(h, fl, Absorb(g, l[k]), Without(l, k + 1), bp, n)
  {
    hide Without, InFree, LinkAt, Before, SizeAt, Absorb;
    AbsorbHas(g, l, k);
    var a, w := Absorb(g, l[k]), Without(l, k + 1);
    forall u: nat
      ensures InFree(a, w, u) <==> InFree(h, fl, u) || bp <= u < bp + n
    {
      AbsorbUnits(g, l, k, u);
      assert InFree(g, l, u) <==> InFree(h, fl, u) || bp <= u < bp + n;
    }
  }

  /** The free list l with headers g is fl with headers h and one more block, of n units at bp: all
      invariants hold, and the new block is part of the block at p or of the one after it. */
  ghost predicate Grown(h: Headers, fl: seq<nat>, g: Headers, l: seq<nat>, k: nat, bp: nat, n: nat)
    requires Has(h, fl) && k < |fl|
  {
    && FreeList(g, l) && Coalesced(g, l, {}) && l[0] == fl[0] && k < |l| && l[k] == fl[k]
    && Gained(h, fl, g, l, bp, n)
    && (forall a :: a in h.size && a !in fl && a != bp ==> a in g.size && g.size[a] == h.size[a])
    && exists m: nat :: m < |l| && Room(g, l, m, n)
  }

  ghost predicate Room(h: Headers, fl: seq<nat>, i: nat, n: nat)
    requires Has(h, fl) && i < |fl|
  {
    h.size[fl[i]] >= n
  }

  /** As Grown, but the block at k may still touch the new one. */
  ghost predicate Half(h: Headers, fl: seq<nat>, g: Headers, l: seq<nat>, k: nat, bp: nat)
    requires Has(h, fl) && k < |fl| && bp in h.size
  {
    && FreeList(g, l) && Coalesced(g, l, {k}) && k + 1 < |l| && l[k] == fl[k] && l[k + 1] == bp && l[0] == fl[0]
    && Gained(h, fl, g, l, bp, h.size[bp]) && g.size[bp] >= h.size[bp]
    && g.size.Keys == h.size.Keys && forall a :: a in h.size && a != bp ==> g.size[a] == h.size[a]
  }

  lemma RightAlone(h: Headers, fl: seq<nat>, k: nat, bp: nat)
    requires FreeList(h, fl) && Fits(h, fl, k, bp) && Coalesced(h, fl, {})
    requires Has(Insert(h, fl[k], bp), Inserted(fl, k, bp)) && !Touch(Insert(h, fl[k], bp), Inserted(fl, k, bp), k + 1)
    ensures Half(h, fl, Insert(h, fl[k], bp), Inserted(fl, k, bp), k, bp)
  {
    hide Inserted, FreeList, Coalesced, InFree, Fits, Gained;
    FitsFacts(h, fl, k, bp);
    var i, l := Insert(h, fl[k], bp), Inserted(fl, k, bp);
    InsertFree(h, fl, k, bp);
    InsertCoalesced(h, fl, k, bp);
    CoalescedLess(i, l, k);
    InsertedAt(fl, k, bp, k);
    InsertedAt(fl, k, bp, k + 1);
    InsertedAt(fl, k, bp, 0);
    InsertGains(h, fl, k, bp);
  }

  lemma RightMerged(h: Headers, fl: seq<nat>, k: nat, bp: nat)
    requires FreeList(h, fl) && Fits(h, fl, k, bp) && Coalesced(h, fl, {})
    requires Has(Insert(h, fl[k], bp), Inserted(fl, k, bp)) && Touch(Insert(h, fl[k], bp), Inserted(fl, k, bp), k + 1)
    ensures var i := Insert(h, fl[k], bp);
            && bp in i.ptr && bp in i.size && i.ptr[bp] in i.ptr && i.ptr[bp] in i.size
            && Half(h, fl, Absorb(i, bp), Without(Inserted(fl, k, bp), k + 2), k, bp)
  {
    hide Inserted, Without, FreeList, Coalesced, InFree, Fits, Gained;
    FitsFacts(h, fl, k, bp);
    var i, l := Insert(h, fl[k], bp), Inserted(fl, k, bp);
    InsertFree(h, fl, k, bp);
    InsertCoalesced(h, fl, k, bp);
    InsertedAt(fl, k, bp, k);
    InsertedAt(fl, k, bp, k + 1);
    InsertedAt(fl, k, bp, 0);
    AbsorbFree(i, l, k + 1);
    AbsorbCoalesced(i, l, k + 1, {k, k + 1});
    assert {k, k + 1} - {k + 1} == {k};
    WithoutAt(l, k + 2, 0);
    WithoutAt(l, k + 2, k);
    WithoutAt(l, k + 2, k + 1);
    InsertGains(h, fl, k, bp);
    AbsorbGains(h, fl, i, l, k + 1, bp, h.size[bp]);
  }

  /** Insert with the merge to the right. */
  lemma RightDone(h: Headers, fl: seq<nat>, k: nat, bp: nat) returns (l: seq<nat>)
    requires FreeList(h, fl) && Fits(h, fl, k, bp) && Coalesced(h, fl, {})
    ensures fl[k] in h.ptr
    ensures var r := LinkRight(h, fl[k], bp); Half(h, fl, Headers(r.ptr[fl[k] := bp], r.size), l, k, bp)
  {
    hide Inserted, Without, FreeList, Coalesced, InFree, Fits, Half;
    FitsFacts(h, fl, k, bp);
    InsertHas(h, fl, k, bp);
    InsertedAt(fl, k, bp, k + 1);
    SuccOf(h, fl, k, bp);
    l := Inserted(fl, k, bp);
    if Touch(Insert(h, fl[k], bp), l, k + 1) {
      RightMerged(h, fl, k, bp);
      l := Without(l, k + 2);
      RightSame(h, fl[k], bp);
    } else {
      RightAlone(h, fl, k, bp);
    }
  }

  lemma FitsFacts(h: Headers, fl: seq<nat>, k: nat, bp: nat)
    requires Fits(h, fl, k, bp)
    ensures Has(h, fl) && k < |fl| && bp in h.size && h.size[bp] > 0 && fl[k] in h.ptr && fl[k] != bp
  {
    NotThere(h, fl, k, bp, k);
  }

  lemma NextOf(h: Headers, fl: seq<nat>, k: nat)
    requires FreeList(h, fl) && k < |fl|
    ensures Has(h, fl) && h.ptr[fl[k]] == fl[Succ(k, |fl|)]
  {
    assert LinkAt(h, fl, k);
  }

  /** The successor of p is the next block or, at the end, base, which no block ends at. */
  lemma SuccOf(h: Headers, fl: seq<nat>, k: nat, bp: nat)
    requires FreeList(h, fl) && Fits(h, fl, k, bp)
    ensures h.ptr[fl[k]] == (if k + 1 < |fl| then fl[k + 1] else fl[0])
    ensures (k + 1 == |fl| ==> bp + h.size[bp] > h.ptr[fl[k]])
    ensures h.ptr[fl[k]] in h.ptr && h.ptr[fl[k]] in h.size && h.ptr[fl[k]] != bp
    ensures (k + 1 < |fl| ==> h.ptr[fl[k]] != fl[k])
    ensures k + 1 < |fl| ==> Inserted(fl, k, bp)[k + 2] == fl[k + 1]
  {
    assert LinkAt(h, fl, k);
    assert FitsAt(h, fl, k, bp, 0);
    NotThere(h, fl, k, bp, Succ(k, |fl|));
    Ordered(h, fl, k, Succ(k, |fl|));
    if k + 1 < |fl| {
      InsertedAt(fl, k, bp, k + 2);
    }
  }

  lemma RightSame(h: Headers, p: nat, bp: nat)
    requires p in h.ptr && bp in h.size && bp != p && h.ptr[p] in h.ptr && h.ptr[p] in h.size
    requires bp + h.size[bp] == h.ptr[p] && h.ptr[p] != p && h.ptr[p] != bp
    ensures var r := LinkRight(h, p, bp); Absorb(Insert(h, p, bp), bp) == Headers(r.ptr[p := bp], r.size)
  {
  }

  lemma CoalescedLess(h: Headers, fl: seq<nat>, k: nat)
    requires Has(h, fl) && Coalesced(h, fl, {k, k + 1}) && !Touch(h, fl, k + 1)
    ensures Coalesced(h, fl, {k})
  {
  }

  /** The merge to the left. */
  lemma LeftDone(h: Headers, fl: seq<nat>, g: Headers, l: seq<nat>, k: nat, bp: nat)
    requires Has(h, fl) && k < |fl| && bp in h.size && Half(h, fl, g, l, k, bp) && Touch(g, l, k) && fl[k] != bp
    ensures g.ptr[fl[k]] == bp && Grown(h, fl, Absorb(g, fl[k]), Without(l, k + 1), k, bp, h.size[bp])
  {
    hide Without, FreeList, Coalesced, InFree, Gained;
    NextOf(g, l, k);
    AbsorbFree(g, l, k);
    AbsorbCoalesced(g, l, k, {k});
    assert {k} - {k} == {};
    AbsorbGains(h, fl, g, l, k, bp, h.size[bp]);
    WithoutAt(l, k + 1, 0);
    WithoutAt(l, k + 1, k);
    assert Room(Absorb(g, fl[k]), Without(l, k + 1), k, h.size[bp]);
    assert fl[k] in fl;
  }

  lemma NoLeft(h: Headers, fl: seq<nat>, g: Headers, l: seq<nat>, k: nat, bp: nat)
    requires Has(h, fl) && k < |fl| && bp in h.size && Half(h, fl, g, l, k, bp) && !Touch(g, l, k)
    ensures Grown(h, fl, g, l, k, bp, h.size[bp])
  {
    hide FreeList, InFree, Gained;
    NextOf(g, l, k);
    CoalescedNone(g, l, k);
    assert Room(g, l, k + 1, h.size[bp]);
  }

  /** Both merges. */
  lemma LinkDone(h: Headers, fl: seq<nat>, k: nat, bp: nat) returns (l: seq<nat>)
    requires FreeList(h, fl) && Fits(h, fl, k, bp) && Coalesced(h, fl, {})
    ensures fl[k] in h.ptr && fl[k] in h.size && fl[k] != bp
    ensures Grown(h, fl, LinkLeft(LinkRight(h, fl[k], bp), fl[k], bp), l, k, bp, h.size[bp])
  {
    hide Without, FreeList, Coalesced, InFree, Fits, Half, Grown;
    FitsFacts(h, fl, k, bp);
    var r := LinkRight(h, fl[k], bp);
    var g := Headers(r.ptr[fl[k] := bp], r.size);
    l := RightDone(h, fl, k, bp);
    HalfFacts(h, fl, g, l, k, bp);
    if Touch(g, l, k) {
      LeftDone(h, fl, g, l, k, bp);
      l := Without(l, k + 1);
      LeftSame(r, fl[k], bp);
    } else {
      NoLeft(h, fl, g, l, k, bp);
    }
  }

  lemma HalfFacts(h: Headers, fl: seq<nat>, g: Headers, l: seq<nat>, k: nat, bp: nat)
    requires Has(h, fl) && k < |fl| && bp in h.size && Half(h, fl, g, l, k, bp)
    ensures Has(g, l) && k + 1 < |l| && l[k] == fl[k] && l[k + 1] == bp
  {
  }

  lemma LeftSame(r: Headers, p: nat, bp: nat)
    requires p in r.size && bp in r.ptr && bp in r.size && p != bp && p + r.size[p] == bp
    ensures Absorb(Headers(r.ptr[p := bp], r.size), p) == LinkLeft(r, p, bp)
  {
  }

  lemma CoalescedNone(h: Headers, fl: seq<nat>, k: nat)
    requires Has(h, fl) && Coalesced(h, fl, {k}) && !Touch(h, fl, k)
    ensures Coalesced(h, fl, {})
  {
  }

  // Taking a block out: lines 75-84.

  /** `prevp->s.ptr = p->s.ptr`, where p is the successor of prevp. */
  function Unlink(h: Headers, prevp: nat): Headers
    requires prevp in h.ptr && h.ptr[prevp] in h.ptr
  {
    h.(ptr := h.ptr[prevp := h.ptr[h.ptr[prevp]]])
  }

  /** The tail of n units of the block at p is cut off. */
  function CutTail(h: Headers, p: nat, n: nat): Headers
    requires p in h.size && h.size[p] > n
  {
    h.(size := h.size[p := h.size[p] - n][p + (h.size[p] - n) := n])
  }

  /** The free units of fl without those of the block of n units at t. */
  ghost predicate Lost(h: Headers, fl: seq<nat>, g: Headers, l: seq<nat>, t: nat, n: nat)
    requires Has(h, fl) && Has(g, l)
  {
    forall u: nat :: InFree(g, l, u) <==> InFree(h, fl, u) && !(t <= u < t + n)
  }

  lemma UnlinkHas(h: Headers, fl: seq<nat>, m: nat)
    requires FreeList(h, fl) && 0 < m < |fl|
    ensures h.ptr[fl[m - 1]] == fl[m] && Has(Unlink(h, fl[m - 1]), Without(fl, m))
  {
    hide Before, SizeAt;
    assert LinkAt(h, fl, m - 1);
    var g, l := Unlink(h, fl[m - 1]), Without(fl, m);
    forall i | 0 <= i < |l|
      ensures l[i] in g.ptr && l[i] in g.size
    {
      WithoutAt(fl, m, i);
    }
    WithoutAt(fl, m, 0);
  }

  lemma UnlinkLink(h: Headers, fl: seq<nat>, m: nat, i: nat)
    requires FreeList(h, fl) && 0 < m < |fl| && i < |fl| - 1
    ensures h.ptr[fl[m - 1]] == fl[m] && Has(Unlink(h, fl[m - 1]), Without(fl, m))
    ensures LinkAt(Unlink(h, fl[m - 1]), Without(fl, m), i)
  {
    hide Without, Before, SizeAt;
    UnlinkHas(h, fl, m);
    WithoutAt(fl, m, i);
    WithoutAt(fl, m, Succ(i, |fl| - 1));
    var o := if i < m - 1 then i else i + 1;
    assert LinkAt(h, fl, o);
    Ordered(h, fl, if i < m then i else i + 1, m - 1);
  }

  lemma UnlinkFree(h: Headers, fl: seq<nat>, m: nat)
    requires FreeList(h, fl) && 0 < m < |fl|
    ensures h.ptr[fl[m - 1]] == fl[m] && FreeList(Unlink(h, fl[m - 1]), Without(fl, m))
  {
    hide Without, LinkAt;
    UnlinkHas(h, fl, m);
    var g, l := Unlink(h, fl[m - 1]), Without(fl, m);
    forall i: nat | i < |l|
      ensures LinkAt(g, l, i) && SizeAt(g, l, i)
    {
      UnlinkLink(h, fl, m, i);
      WithoutAt(fl, m, i);
      assert SizeAt(h, fl, if i < m then i else i + 1);
    }
    forall i: nat, j: nat | i < j < |l|
      ensures Before(g, l, i, j)
    {
      WithoutAt(fl, m, i);
      WithoutAt(fl, m, j);
      Ordered(h, fl, if i < m then i else i + 1, if j < m then j else j + 1);
    }
  }

  lemma UnlinkUnits(h: Headers, fl: seq<nat>, m: nat, u: nat)
    requires FreeList(h, fl) && 0 < m < |fl|
    ensures h.ptr[fl[m - 1]] == fl[m] && Has(Unlink(h, fl[m - 1]), Without(fl, m))
    ensures InFree(Unlink(h, fl[m - 1]), Without(fl, m), u) <==> InFree(h, fl, u) && !Covers(h, fl, m, u)
  {
    hide Without, LinkAt, Before, SizeAt;
    UnlinkHas(h, fl, m);
    var g, l := Unlink(h, fl[m - 1]), Without(fl, m);
    if i: nat :| i < |fl| && i != m && Covers(h, fl, i, u) {
      var j := if i < m then i else i - 1;
      WithoutAt(fl, m, j);
      Ordered(h, fl, i, m);
      Ordered(h, fl, m, i);
      assert Covers(g, l, j, u);
    }
    if j: nat :| j < |l| && Covers(g, l, j, u) {
      WithoutAt(fl, m, j);
      var o := if j < m then j else j + 1;
      Ordered(h, fl, o, m);
      Ordered(h, fl, m, o);
      assert Covers(h, fl, o, u);
    }
  }

  lemma UnlinkLoses(h: Headers, fl: seq<nat>, m: nat)
    requires FreeList(h, fl) && 0 < m < |fl|
    ensures h.ptr[fl[m - 1]] == fl[m] && Has(Unlink(h, fl[m - 1]), Without(fl, m))
    ensures Lost(h, fl, Unlink(h, fl[m - 1]), Without(fl, m), fl[m], h.size[fl[m]])
  {
    hide Without, InFree, LinkAt, Before, SizeAt, Unlink;
    UnlinkHas(h, fl, m);
    var g, l := Unlink(h, fl[m - 1]), Without(fl, m);
    forall u: nat
      ensures InFree(g, l, u) <==> InFree(h, fl, u) && !(fl[m] <= u < fl[m] + h.size[fl[m]])
    {
      UnlinkUnits(h, fl, m, u);
    }
  }

  lemma UnlinkCoalesced(h: Headers, fl: seq<nat>, m: nat)
    requires FreeList(h, fl) && 0 < m < |fl| && Coalesced(h, fl, {})
    ensures h.ptr[fl[m - 1]] == fl[m] && Has(Unlink(h, fl[m - 1]), Without(fl, m))
    ensures Coalesced(Unlink(h, fl[m - 1]), Without(fl, m), {})
  {
    hide Without, LinkAt, Before;
    UnlinkHas(h, fl, m);
    var g, l := Unlink(h, fl[m - 1]), Without(fl, m);
    forall i: nat
      ensures !Touch(g, l, i)
    {
      if i + 1 < |l| {
        WithoutAt(fl, m, i);
        WithoutAt(fl, m, i + 1);
        NoTouch(h, fl, if i < m then i else i + 1);
        Ordered(h, fl, if i < m then i else i + 1, m);
        if i == m - 1 {
          Ordered(h, fl, m, m + 1);
          assert SizeAt(h, fl, m);
        }
      }
    }
  }

  // The tail.

  lemma TailIsNew(h: Headers, fl: seq<nat>, m: nat, n: nat, i: nat)
    requires FreeList(h, fl) && m < |fl| && i < |fl| && 0 < n < h.size[fl[m]]
    ensures fl[i] != fl[m] + (h.size[fl[m]] - n)
  {
    hide LinkAt, Before, SizeAt;
    Ordered(h, fl, i, m);
    Ordered(h, fl, m, i);
  }

  lemma CutHas(h: Headers, fl: seq<nat>, m: nat, n: nat)
    requires FreeList(h, fl) && m < |fl| && 0 < n < h.size[fl[m]]
    ensures Has(CutTail(h, fl[m], n), fl)
    ensures forall i: nat :: i < |fl| ==> CutTail(h, fl[m], n).size[fl[i]] == h.size[fl[i]] - if i == m then n else 0
  {
    hide LinkAt, Before, SizeAt;
    var g := CutTail(h, fl[m], n);
    forall i: nat | i < |fl|
      ensures fl[i] in g.ptr && fl[i] in g.size && g.size[fl[i]] == h.size[fl[i]] - if i == m then n else 0
    {
      TailIsNew(h, fl, m, n, i);
      Ordered(h, fl, i, m);
    }
  }

  lemma CutFree(h: Headers, fl: seq<nat>, m: nat, n: nat)
    requires FreeList(h, fl) && m < |fl| && 0 < n < h.size[fl[m]]
    ensures FreeList(CutTail(h, fl[m], n), fl)
  {
    hide CutTail;
    CutHas(h, fl, m, n);
    var g := CutTail(h, fl[m], n);
    CutPtr(h, fl[m], n);
    forall i: nat | i < |fl|
      ensures LinkAt(g, fl, i) && SizeAt(g, fl, i)
    {
      assert LinkAt(h, fl, i) && SizeAt(h, fl, i);
    }
    forall i: nat, j: nat | i < j < |fl|
      ensures Before(g, fl, i, j)
    {
      assert Before(h, fl, i, j);
    }
  }

  lemma CutPtr(h: Headers, p: nat, n: nat)
    requires p in h.size && h.size[p] > n
    ensures CutTail(h, p, n).ptr == h.ptr
  {
  }

  lemma CutUnits(h: Headers, fl: seq<nat>, m: nat, n: nat, u: nat)
    requires FreeList(h, fl) && m < |fl| && 0 < n < h.size[fl[m]]
    ensures Has(CutTail(h, fl[m], n), fl)
    ensures var t := fl[m] + (h.size[fl[m]] - n);
            InFree(CutTail(h, fl[m], n), fl, u) <==> InFree(h, fl, u) && !(t <= u < t + n)
  {
    hide LinkAt, Before, SizeAt, CutTail;
    CutHas(h, fl, m, n);
    var g, t := CutTail(h, fl[m], n), fl[m] + (h.size[fl[m]] - n);
    if i: nat :| i < |fl| && Covers(h, fl, i, u) && !(t <= u < t + n) {
      assert Covers(g, fl, i, u);
    }
    if i: nat :| i < |fl| && Covers(g, fl, i, u) {
      assert Covers(h, fl, i, u);
      Ordered(h, fl, i, m);
      Ordered(h, fl, m, i);
    }
  }

  lemma CutLoses(h: Headers, fl: seq<nat>, m: nat, n: nat)
    requires FreeList(h, fl) && m < |fl| && 0 < n < h.size[fl[m]]
    ensures Has(CutTail(h, fl[m], n), fl) && Lost(h, fl, CutTail(h, fl[m], n), fl, fl[m] + (h.size[fl[m]] - n), n)
  {
    hide InFree, LinkAt, Before, SizeAt, CutTail;
    CutHas(h, fl, m, n);
    var g, t := CutTail(h, fl[m], n), fl[m] + (h.size[fl[m]] - n);
    forall u: nat
      ensures InFree(g, fl, u) <==> InFree(h, fl, u) && !(t <= u < t + n)
    {
      CutUnits(h, fl, m, n, u);
    }
  }

  lemma CutCoalesced(h: Headers, fl: seq<nat>, m: nat, n: nat)
    requires FreeList(h, fl) && m < |fl| && 0 < n < h.size[fl[m]] && Coalesced(h, fl, {})
    ensures Has(CutTail(h, fl[m], n), fl) && Coalesced(CutTail(h, fl[m], n), fl, {})
  {
    hide LinkAt, Before, SizeAt, CutTail;
    CutHas(h, fl, m, n);
    var g := CutTail(h, fl[m], n);
    forall i: nat
      ensures !Touch(g, fl, i)
    {
      if i + 1 < |fl| {
        NoTouch(h, fl, i);
        Ordered(h, fl, i, i + 1);
      }
    }
  }

  // The heap: free blocks and blocks handed out.

  ghost predicate Holds(live: map<nat, nat>, a: nat, u: nat)
    requires a in live
  {
    a <= u < a + live[a]
  }

  ghost predicate InLive(live: map<nat, nat>, u: nat) {
    exists a :: a in live && Holds(live, a, u)
  }

  /** A block handed out: its header is intact and it lies above base. */
  ghost predicate LiveAt(h: Headers, base: nat, live: map<nat, nat>, a: nat)
    requires a in live
  {
    base < a && a in h.size && h.size[a] == live[a] > 0
  }

  ghost predicate LiveApart(live: map<nat, nat>, a: nat, b: nat)
    requires a in live && b in live
  {
    a < b ==> a + live[a] <= b
  }

  ghost predicate LiveOk(h: Headers, base: nat, live: map<nat, nat>) {
    && (forall a :: a in live ==> LiveAt(h, base, live, a))
    && (forall a, b :: a in live && b in live ==> LiveApart(live, a, b))
  }

  /** Every unit obtained from sbrk is free or handed out, and not both; no other unit is either. */
  ghost predicate Partition(h: Headers, fl: seq<nat>, live: map<nat, nat>, owned: set<nat>)
    requires Has(h, fl)
  {
    forall u: nat :: (u in owned <==> InFree(h, fl, u) || InLive(live, u)) && !(InFree(h, fl, u) && InLive(live, u))
  }

  ghost predicate Sound(h: Headers, fl: seq<nat>, live: map<nat, nat>, owned: set<nat>) {
    && FreeList(h, fl) && Coalesced(h, fl, {}) && LiveOk(h, fl[0], live) && Partition(h, fl, live, owned)
  }

  /** A block handed out lies entirely before or entirely after each free block. */
  lemma LiveClear(h: Headers, fl: seq<nat>, live: map<nat, nat>, owned: set<nat>, bp: nat, i: nat)
    requires Sound(h, fl, live, owned) && bp in live && i < |fl|
    ensures bp in h.size && h.size[bp] == live[bp] > 0
    ensures fl[i] < bp ==> fl[i] + h.size[fl[i]] <= bp
    ensures fl[i] >= bp ==> bp + h.size[bp] <= fl[i] && fl[i] > bp
  {
    hide LinkAt, Before, LiveApart, Coalesced;
    assert LiveAt(h, fl[0], live, bp) && SizeAt(h, fl, i);
    Ordered(h, fl, 0, i);
    NotBoth(h, fl, live, owned, i, bp, bp);
    NotBoth(h, fl, live, owned, i, bp, fl[i]);
  }

  lemma NotBoth(h: Headers, fl: seq<nat>, live: map<nat, nat>, owned: set<nat>, i: nat, bp: nat, u: nat)
    requires Has(h, fl) && Partition(h, fl, live, owned) && bp in live && i < |fl|
    ensures !(Covers(h, fl, i, u) && Holds(live, bp, u))
  {
    assert Covers(h, fl, i, u) ==> InFree(h, fl, u);
    assert Holds(live, bp, u) ==> InLive(live, u);
  }

  /** The place free looks for. */
  lemma FindPlace(h: Headers, fl: seq<nat>, live: map<nat, nat>, owned: set<nat>, bp: nat) returns (k: nat)
    requires Sound(h, fl, live, owned) && bp in live
    ensures Fits(h, fl, k, bp)
  {
    hide LinkAt, Before, SizeAt, LiveAt, LiveApart, Coalesced, Partition;
    BaseBelow(h, fl, live, owned, bp);
    k := 0;
    while k + 1 < |fl| && fl[k + 1] < bp
      invariant k < |fl| && fl[k] < bp
    {
      k := k + 1;
    }
    LiveClear(h, fl, live, owned, bp, 0);
    forall i: nat | i < |fl|
      ensures FitsAt(h, fl, k, bp, i)
    {
      LiveClear(h, fl, live, owned, bp, i);
      Ordered(h, fl, i, k);
      if k + 1 < |fl| {
        Ordered(h, fl, k + 1, i);
      }
    }
  }

  lemma BaseBelow(h: Headers, fl: seq<nat>, live: map<nat, nat>, owned: set<nat>, bp: nat)
    requires Sound(h, fl, live, owned) && bp in live
    ensures fl[0] < bp
  {
    assert LiveAt(h, fl[0], live, bp);
  }

  lemma LiveRemoved(live: map<nat, nat>, bp: nat, u: nat)
    requires bp in live && forall a, b :: a in live && b in live ==> LiveApart(live, a, b)
    ensures InLive(live - {bp}, u) <==> InLive(live, u) && !(bp <= u < bp + live[bp])
  {
    var less := live - {bp};
    if a :| a in live && Holds(live, a, u) && a != bp {
      assert a in less && Holds(less, a, u);
      assert LiveApart(live, a, bp) && LiveApart(live, bp, a);
    }
    if a :| a in less && Holds(less, a, u) {
      assert Holds(live, a, u) && LiveApart(live, a, bp) && LiveApart(live, bp, a);
    }
  }

  lemma LiveAdded(live: map<nat, nat>, t: nat, n: nat, u: nat)
    requires t !in live
    ensures InLive(live[t := n], u) <==> InLive(live, u) || t <= u < t + n
  {
    var more := live[t := n];
    if a :| a in live && Holds(live, a, u) {
      assert Holds(more, a, u);
    }
    if t <= u < t + n {
      assert Holds(more, t, u);
    }
    if a :| a in more && Holds(more, a, u) && a != t {
      assert Holds(live, a, u);
    }
  }

  /** The headers of the blocks handed out are not touched. */
  ghost predicate Intact(h: Headers, g: Headers, live: map<nat, nat>) {
    forall a :: a in live ==> a in h.size && a in g.size && g.size[a] == h.size[a]
  }

  lemma StillLive(h: Headers, g: Headers, base: nat, live: map<nat, nat>)
    requires LiveOk(h, base, live) && Intact(h, g, live)
    ensures LiveOk(g, base, live)
  {
    forall a | a in live
      ensures LiveAt(g, base, live, a)
    {
      assert LiveAt(h, base, live, a);
    }
  }

  lemma LessLive(h: Headers, base: nat, live: map<nat, nat>, bp: nat)
    requires LiveOk(h, base, live) && bp in live
    ensures LiveOk(h, base, live - {bp})
  {
    var less := live - {bp};
    forall a | a in less
      ensures LiveAt(h, base, less, a)
    {
      assert LiveAt(h, base, live, a);
    }
    forall a, b | a in less && b in less
      ensures LiveApart(less, a, b)
    {
      assert LiveApart(live, a, b);
    }
  }

  /** free keeps the heap sound. */
  lemma AfterFree(h: Headers, fl: seq<nat>, live: map<nat, nat>, owned: set<nat>, k: nat, bp: nat, g: Headers,
      l: seq<nat>)
    requires Sound(h, fl, live, owned) && bp in live && k < |fl| && Grown(h, fl, g, l, k, bp, live[bp])
    ensures Sound(g, l, live - {bp}, owned)
  {
    hide FreeList, Coalesced, LiveAt, InFree, InLive, LiveApart;
    FreeNotLive(h, fl, live, owned);
    FreeHas(g, l);
    var less := live - {bp};
    LessLive(h, fl[0], live, bp);
    assert Intact(h, g, less);
    StillLive(h, g, fl[0], less);
    forall u: nat
      ensures (u in owned <==> InFree(g, l, u) || InLive(less, u)) && !(InFree(g, l, u) && InLive(less, u))
    {
      LiveRemoved(live, bp, u);
      BlockLive(live, bp, u);
      assert InFree(g, l, u) <==> InFree(h, fl, u) || bp <= u < bp + live[bp];
    }
  }

  lemma FreeHas(h: Headers, fl: seq<nat>)
    requires FreeList(h, fl)
    ensures Has(h, fl)
  {
  }

  lemma BlockLive(live: map<nat, nat>, bp: nat, u: nat)
    requires bp in live
    ensures bp <= u < bp + live[bp] ==> InLive(live, u)
  {
    if bp <= u < bp + live[bp] {
      assert Holds(live, bp, u);
    }
  }

  lemma FreeNotLive(h: Headers, fl: seq<nat>, live: map<nat, nat>, owned: set<nat>)
    requires Sound(h, fl, live, owned)
    ensures Has(h, fl) && forall a :: a in live ==> a !in fl && a in h.size && h.size[a] == live[a] > 0
  {
    forall a | a in live
      ensures a !in fl && a in h.size && h.size[a] == live[a] > 0
    {
      LiveClear(h, fl, live, owned, a, 0);
      forall i: nat | i < |fl|
        ensures fl[i] != a
      {
        LiveClear(h, fl, live, owned, a, i);
      }
    }
  }

  /** malloc keeps the heap sound: the block of n units at t changes hands. */
  lemma AfterTake(h: Headers, fl: seq<nat>, live: map<nat, nat>, owned: set<nat>, g: Headers, l: seq<nat>, t: nat,
      n: nat)
    requires Sound(h, fl, live, owned) && FreeList(g, l) && Coalesced(g, l, {}) && l[0] == fl[0]
    requires Lost(h, fl, g, l, t, n)
    requires n > 0 && t > fl[0] && t in g.size && g.size[t] == n
    requires (forall u: nat :: t <= u < t + n ==> InFree(h, fl, u))
    requires forall a :: a in live ==> a in g.size && g.size[a] == h.size[a]
    ensures t !in live && Sound(g, l, live[t := n], owned)
  {
    hide FreeList, Coalesced, LiveAt, InFree, InLive, LiveApart;
    FreeNotLive(h, fl, live, owned);
    FreeHas(g, l);
    if t in live {
      BlockLive(live, t, t);
      assert false;
    }
    StillLive(h, g, fl[0], live);
    forall a | a in live
      ensures t + n <= a || a + live[a] <= t
    {
      BlockLive(live, a, t);
      BlockLive(live, a, a);
    }
    MoreLive(g, fl[0], live, t, n);
    forall u: nat
      ensures (u in owned <==> InFree(g, l, u) || InLive(live[t := n], u))
      ensures !(InFree(g, l, u) && InLive(live[t := n], u))
    {
      LiveAdded(live, t, n, u);
      assert InFree(g, l, u) <==> InFree(h, fl, u) && !(t <= u < t + n);
    }
  }

  lemma MoreLive(h: Headers, base: nat, live: map<nat, nat>, t: nat, n: nat)
    requires LiveOk(h, base, live) && t !in live && n > 0 && t > base && t in h.size && h.size[t] == n
    requires forall a :: a in live ==> t + n <= a || a + live[a] <= t
    ensures LiveOk(h, base, live[t := n])
  {
    var more := live[t := n];
    forall a | a in more
      ensures LiveAt(h, base, more, a)
    {
      if a != t {
        assert LiveAt(h, base, live, a);
      }
    }
    forall a, b | a in more && b in more
      ensures LiveApart(more, a, b)
    {
      if a != t && b != t {
        assert LiveApart(live, a, b);
      }
    }
  }

  /** sbrk's units, as one block that is still to be freed. */
  lemma AfterSbrk(h: Headers, fl: seq<nat>, live: map<nat, nat>, owned: set<nat>, hp: nat, n: nat)
    requires Sound(h, fl, live, owned) && n > 0 && hp > fl[0] && forall u :: u in owned ==> u < hp
    ensures hp !in live && Sound(h.(size := h.size[hp := n]), fl, live[hp := n], owned + Interval(hp, n))
  {
    hide Coalesced, InLive, LiveApart, LinkAt, Before;
    var g := h.(size := h.size[hp := n]);
    forall i: nat | i < |fl|
      ensures fl[i] < hp && fl[i] + h.size[fl[i]] <= hp
    {
      if i > 0 {
        assert SizeAt(h, fl, i);
        assert Covers(h, fl, i, fl[i]) && Covers(h, fl, i, fl[i] + h.size[fl[i]] - 1);
        assert InFree(h, fl, fl[i]) && InFree(h, fl, fl[i] + h.size[fl[i]] - 1);
      } else {
        assert SizeAt(h, fl, 0);
      }
    }
    SameSizes(h, g, fl);
    forall a | a in live
      ensures a in h.size && live[a] > 0 && a + live[a] <= hp
    {
      assert LiveAt(h, fl[0], live, a);
      BlockLive(live, a, a + live[a] - 1);
    }
    StillLive(h, g, fl[0], live);
    MoreLive(g, fl[0], live, hp, n);
    forall u: nat
      ensures (u in owned + Interval(hp, n) <==> InFree(g, fl, u) || InLive(live[hp := n], u))
      ensures !(InFree(g, fl, u) && InLive(live[hp := n], u))
    {
      LiveAdded(live, hp, n, u);
      assert InFree(g, fl, u) <==> InFree(h, fl, u);
      assert u in Interval(hp, n) <==> hp <= u < hp + n;
    }
  }

  lemma SameSizes(h: Headers, g: Headers, fl: seq<nat>)
    requires FreeList(h, fl) && Coalesced(h, fl, {}) && g.ptr == h.ptr
    requires forall i :: 0 <= i < |fl| ==> fl[i] in g.size && g.size[fl[i]] == h.size[fl[i]]
    ensures FreeList(g, fl) && Coalesced(g, fl, {}) && forall u: nat :: InFree(g, fl, u) <==> InFree(h, fl, u)
  {
    forall i: nat | i < |fl|
      ensures LinkAt(g, fl, i) && SizeAt(g, fl, i)
    {
      assert LinkAt(h, fl, i) && SizeAt(h, fl, i);
    }
    forall i: nat, j: nat | i < j < |fl|
      ensures Before(g, fl, i, j)
    {
      assert Before(h, fl, i, j);
    }
    forall i: nat
      ensures !Touch(g, fl, i)
    {
      NoTouch(h, fl, i);
    }
    forall u: nat
      ensures InFree(g, fl, u) <==> InFree(h, fl, u)
    {
      assert forall i: nat :: i < |fl| ==> Covers(g, fl, i, u) == Covers(h, fl, i, u);
    }
  }
}
