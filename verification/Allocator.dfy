/** `malloc`, `free` and `morecore` of user/umalloc.c, in place on the headers. */
module Allocator {
  import opened CInt
  import opened Counting
  import opened Umalloc

  /** What the next sbrk would do. Other callers may have moved the break, so the new memory need not
      join on to the old. */
  datatype Sbrk = Fails | At(addr: nat)

  /** Units for nbytes bytes and a header: enough, and not one too many. */
  function Units(nbytes: nat): (n: nat)
    ensures 16 * (n - 1) >= nbytes && (nbytes > 0 ==> 16 * (n - 2) < nbytes)
  {
    (nbytes + 15) / 16 + 1
  }

  /** No request is for fewer than 4096 units, nor for more than are needed beyond that. */
  function CoreUnits(nunits: nat): (nu: nat)
    ensures nu >= nunits && nu >= 4096 && (nu == nunits || nu == 4096)
  {
    if nunits < 4096 then 4096 else nunits
  }

  /** The units that sbrk gives when morecore asks for nu: it is passed a 64-bit product as an int, and
      with a negative argument it gives nothing. */
  function Granted(nu: nat): nat {
    var n := ToInt(nu * 16);
    if n > 0 then n / 16 else 0
  }

  /** sbrk gives what morecore means to ask for exactly below 2^27 units, and less from there on. */
  lemma SbrkArgument(nu: nat)
    ensures Granted(nu) <= nu && (Granted(nu) == nu <==> nu < 0x800_0000)
  {
    assert nu * 16 >= 0x8000_0000 <==> nu >= 0x800_0000;
  }

  /** Steps from index i to index f round a list of n. */
  function Dist(i: nat, f: nat, n: nat): nat
    requires i < n && f < n
  {
    if i <= f then f - i else f - i + n
  }

  /** The blocks before index i, counted round from the one after index f, are too small. */
  ghost predicate TooSmall(h: Headers, fl: seq<nat>, f: nat, i: nat, n: nat)
    requires Has(h, fl) && f < |fl| && i < |fl|
  {
    forall m: nat :: m < |fl| && Dist(m, f, |fl|) > Dist(i, f, |fl|) ==> !Room(h, fl, m, n)
  }

  lemma SearchStarts(h: Headers, fl: seq<nat>, f: nat, n: nat)
    requires Has(h, fl) && f < |fl|
    ensures TooSmall(h, fl, f, Succ(f, |fl|), n)
  {
  }

  lemma SearchGoesOn(h: Headers, fl: seq<nat>, f: nat, i: nat, n: nat)
    requires Has(h, fl) && f < |fl| && i < |fl| && TooSmall(h, fl, f, i, n) && !Room(h, fl, i, n) && i != f
    ensures TooSmall(h, fl, f, Succ(i, |fl|), n) && Dist(Succ(i, |fl|), f, |fl|) < Dist(i, f, |fl|)
  {
    forall m: nat | m < |fl| && Dist(m, f, |fl|) > Dist(Succ(i, |fl|), f, |fl|)
      ensures !Room(h, fl, m, n)
    {
      assert m == i || Dist(m, f, |fl|) > Dist(i, f, |fl|);
    }
  }

  ghost predicate NoRoom(h: Headers, fl: seq<nat>, n: nat)
    requires Has(h, fl)
  {
    forall m: nat :: m < |fl| ==> !Room(h, fl, m, n)
  }

  lemma SearchFails(h: Headers, fl: seq<nat>, f: nat, n: nat)
    requires Has(h, fl) && f < |fl| && TooSmall(h, fl, f, f, n) && !Room(h, fl, f, n)
    ensures NoRoom(h, fl, n)
  {
    forall m: nat | m < |fl|
      ensures !Room(h, fl, m, n)
    {
      assert m == f || Dist(m, f, |fl|) > Dist(f, f, |fl|);
    }
  }

  /** The last n units, from address `at` on, of the first block with room that the search meets when it
      begins after freep. */
  ghost predicate FirstFit(h: Headers, fl: seq<nat>, freep: nat, n: nat, at: int) {
    && Has(h, fl)
    && exists f: nat, i: nat {:trigger TooSmall(h, fl, f, i, n)} ::
         && f < |fl| && fl[f] == freep && i < |fl| && Room(h, fl, i, n) && TooSmall(h, fl, f, i, n)
         && at == fl[i] + h.size[fl[i]] - n
  }

  ghost predicate HasRoom(h: Headers, fl: seq<nat>, n: nat) {
    Has(h, fl) && exists m: nat :: m < |fl| && Room(h, fl, m, n)
  }

  lemma LessRoom(h: Headers, fl: seq<nat>, n: nat, n': nat)
    requires HasRoom(h, fl, n) && n' <= n
    ensures HasRoom(h, fl, n')
  {
    var m: nat :| m < |fl| && Room(h, fl, m, n);
    assert Room(h, fl, m, n');
  }

  /** The test by which free recognises the place. */
  predicate AtPlace(p: nat, next: nat, bp: nat) {
    (bp > p && bp < next) || (p >= next && (bp > p || bp < next))
  }

  /** It holds at the place and nowhere else. */
  lemma PlaceFound(h: Headers, fl: seq<nat>, k: nat, bp: nat, j: nat)
    requires FreeList(h, fl) && Fits(h, fl, k, bp) && j < |fl|
    ensures fl[j] in h.ptr && (AtPlace(fl[j], h.ptr[fl[j]], bp) <==> j == k)
  {
    hide LinkAt, Before, SizeAt;
    NextOf(h, fl, j);
    var s := Succ(j, |fl|);
    assert FitsAt(h, fl, k, bp, j) && FitsAt(h, fl, k, bp, s) && FitsAt(h, fl, k, bp, 0);
    Ordered(h, fl, j, s);
    Ordered(h, fl, s, j);
  }

  class Heap {
    const base: nat
    var h: Headers
    var freep: nat
    ghost var fl: seq<nat>
    ghost var live: map<nat, nat>
    /** The units that the headers account for, and those that sbrk has really given. */
    ghost var owned: set<nat>
    ghost var given: set<nat>

    /** Every unit that sbrk has given is free or handed out, none is both, and there are no others. */
    ghost predicate Backed()
      reads this
    {
      if freep == 0 then given == {} else Has(h, fl) && Partition(h, fl, live, given)
    }

    lemma BackedIs()
      requires Valid()
      ensures Backed() <==> given == owned
    {
      if freep != 0 && Backed() {
        forall u: nat
          ensures u in given <==> u in owned
        {
          assert u in owned <==> InFree(h, fl, u) || InLive(live, u);
        }
        assert given == owned;
      }
    }

    ghost predicate Valid()
      reads this
    {
      && 0 < base
      && if freep == 0 then live == map[] && owned == {} && fl == []
         else Sound(h, fl, live, owned) && fl[0] == base && freep in fl
    }

    constructor (base: nat)
      requires base > 0
      ensures Valid() && Backed() && live == map[] && owned == {} && given == {} && freep == 0
      ensures this.base == base && forall n :: !HasRoom(h, fl, n)
    {
      this.base := base;
      h := Headers(map[], map[]);
      freep := 0;
      fl := [];
      live := map[];
      owned, given := {}, {};
    }

    /** free's search. */
    method FindPrevious(bp: nat) returns (p: nat, ghost k: nat)
      requires Valid() && freep != 0 && bp in live
      ensures p in fl && p in h.ptr && AtPlace(p, h.ptr[p], bp)
      ensures Fits(h, fl, k, bp) && p == fl[k]
    {
      hide Sound, FreeList, Fits;
      SoundFacts(h, fl, live, owned);
      FreeNotLive(h, fl, live, owned);
      k := FindPlace(h, fl, live, owned, bp);
      FitsFacts(h, fl, k, bp);
      p := freep;
      ghost var j: nat :| j < |fl| && fl[j] == freep;
      PlaceFound(h, fl, k, bp, j);
      while !AtPlace(p, h.ptr[p], bp)
        invariant j < |fl| && p == fl[j] && p in h.ptr && (AtPlace(p, h.ptr[p], bp) <==> j == k)
        decreases Dist(j, k, |fl|)
      {
        NextOf(h, fl, j);
        p := h.ptr[p];
        j := Succ(j, |fl|);
        PlaceFound(h, fl, k, bp, j);
      }
    }

    /** `free`: the block goes back; nothing else changes hands. */
    method Free(ap: nat)
      requires Valid() && ap > 0 && ap - 1 in live
      modifies this
      ensures Valid() && freep != 0 && live == old(live) - {ap - 1} && owned == old(owned) && given == old(given)
      ensures old(Backed()) ==> Backed()
      ensures HasRoom(h, fl, old(live)[ap - 1])
      ensures freep in old(fl) && freep in old(h).ptr && AtPlace(freep, old(h).ptr[freep], ap - 1)
    {
      var p;
      ghost var k;
      p, k := FindPrevious(ap - 1);
      BackedIs();
      LinkIn(p, ap - 1, k);
      BackedIs();
    }

    /** Lines 33-43. */
    method LinkIn(p: nat, bp: nat, ghost k: nat)
      requires Valid() && freep != 0 && Sound(h, fl, live, owned) && bp in live && Fits(h, fl, k, bp) && p == fl[k]
      modifies this
      ensures Valid() && freep != 0 && live == old(live) - {bp} && owned == old(owned) && given == old(given)
      ensures HasRoom(h, fl, old(live)[bp]) && freep == p
    {
      hide Sound, FreeList, Fits, Grown, Coalesced;
      SoundFacts(h, fl, live, owned);
      FreeNotLive(h, fl, live, owned);
      FitsFacts(h, fl, k, bp);
      SuccOf(h, fl, k, bp);
      Ordered(h, fl, 0, k);
      ghost var h0 := h;
      ghost var l := LinkDone(h, fl, k, bp);
      AfterFree(h, fl, live, owned, k, bp, LinkLeft(LinkRight(h, p, bp), p, bp), l);
      var next := h.ptr[p];
      if bp + h.size[bp] == next {
        h := Headers(h.ptr, h.size[bp := h.size[bp] + h.size[next]]);
        h := Headers(h.ptr[bp := h.ptr[next]], h.size);
      } else {
        h := Headers(h.ptr[bp := next], h.size);
      }
      assert h == LinkRight(h0, p, bp);
      if p + h.size[p] == bp {
        h := Headers(h.ptr, h.size[p := h.size[p] + h.size[bp]]);
        h := Headers(h.ptr[p := h.ptr[bp]], h.size);
      } else {
        h := Headers(h.ptr[p := bp], h.size);
      }
      assert h == LinkLeft(LinkRight(h0, p, bp), p, bp);
      freep := p;
      GrownFacts(h0, fl, h, l, k, bp, live[bp]);
      fl, live := l, live - {bp};
    }

    lemma SoundFacts(h: Headers, fl: seq<nat>, live: map<nat, nat>, owned: set<nat>)
      requires Sound(h, fl, live, owned)
      ensures FreeList(h, fl) && Has(h, fl) && Coalesced(h, fl, {})
    {
    }

    lemma GrownFacts(h: Headers, fl: seq<nat>, g: Headers, l: seq<nat>, k: nat, bp: nat, n: nat)
      requires Has(h, fl) && k < |fl| && Grown(h, fl, g, l, k, bp, n)
      ensures Has(g, l) && k < |l| && l[k] == fl[k] && l[0] == fl[0] && l[k] in l && HasRoom(g, l, n)
    {
    }

    /** `morecore`, once sbrk has succeeded. The headers account for the units that were wanted, and
        sbrk has given them exactly if they are fewer than 2^27. */
    method Morecore(nunits: nat, addr: nat)
      requires Valid() && freep != 0 && 0 < nunits && addr > base && forall u :: u in owned ==> u < addr
      modifies this
      ensures Valid() && freep != 0 && live == old(live) && owned == old(owned) + Interval(addr, CoreUnits(nunits))
      ensures HasRoom(h, fl, nunits)
      ensures given == old(given) + Interval(addr, Granted(CoreUnits(nunits)))
      ensures old(Backed()) ==> (Backed() <==> CoreUnits(nunits) < 0x800_0000)
    {
      hide Sound, Backed, Has, Interval, Granted, ToInt, CoreUnits;
      BackedIs();
      var nu := CoreUnits(nunits);
      AfterSbrk(h, fl, live, owned, addr, nu);
      h := Headers(h.ptr, h.size[addr := nu]);
      live, owned := live[addr := nu], owned + Interval(addr, nu);
      given := given + Interval(addr, Granted(nu));
      assert h.size == old(h).size[addr := nu];
      Free(addr + 1);
      assert live == old(live);
      LessRoom(h, fl, nu, nunits);
      BackedIs();
      if old(Backed()) {
        GivenLess(old(owned), addr, nu);
      }
    }

    lemma GivenLess(before: set<nat>, addr: nat, nu: nat)
      requires forall u :: u in before ==> u < addr
      ensures before + Interval(addr, Granted(nu)) == before + Interval(addr, nu) <==> nu < 0x800_0000
    {
      hide Interval, Granted;
      SbrkArgument(nu);
      if Granted(nu) < nu {
        assert addr + Granted(nu) in before + Interval(addr, nu);
      }
    }

    /** Lines 75-84: the block at p, the successor of prevp, is large enough. */
    method Take(prevp: nat, p: nat, n: nat, ghost i: nat) returns (ap: nat)
      requires Valid() && freep != 0 && Has(h, fl) && i < |fl| && prevp == fl[i] && p == fl[Succ(i, |fl|)]
      requires 0 < n <= h.size[p]
      modifies this
      ensures Valid() && freep != 0 && ap > 0 && ap - 1 !in old(live) && live == old(live)[ap - 1 := n]
      ensures owned == old(owned) && given == old(given)
      ensures ap - 1 == p + old(h.size[p]) - n && freep == prevp
    {
      hide Sound, FreeList, Coalesced, InFree;
      SoundFacts(h, fl, live, owned);
      FreeNotLive(h, fl, live, owned);
      ghost var m := Succ(i, |fl|);
      NotBase(h, fl, m);
      NextOf(h, fl, i);
      BlockFree(h, fl, m);
      Ordered(h, fl, 0, m);
      Ordered(h, fl, 0, i);
      ghost var h0, fl0 := h, fl;
      if h.size[p] == n {
        UnlinkFree(h, fl, m);
        UnlinkCoalesced(h, fl, m);
        UnlinkLoses(h, fl, m);
        h := Headers(h.ptr[prevp := h.ptr[p]], h.size);
        WithoutAt(fl, m, 0);
        WithoutAt(fl, m, m - 1);
        fl := Without(fl, m);
        assert h == Unlink(h0, prevp) && fl[m - 1] == prevp && prevp in fl;
        AfterTake(h0, fl0, live, owned, h, fl, p, n);
        live := live[p := n];
        freep := prevp;
        return p + 1;
      }
      CutFree(h, fl, m, n);
      CutCoalesced(h, fl, m, n);
      CutLoses(h, fl, m, n);
      h := Headers(h.ptr, h.size[p := h.size[p] - n]);
      var t := p + h.size[p];
      h := Headers(h.ptr, h.size[t := n]);
      assert h == CutTail(h0, p, n);
      TailNotLive(h0, fl0, live, owned, m, t);
      assert p in fl;
      AfterTake(h0, fl0, live, owned, h, fl, t, n);
      live := live[t := n];
      freep := prevp;
      return t + 1;
    }

    lemma NotBase(h: Headers, fl: seq<nat>, m: nat)
      requires FreeList(h, fl) && m < |fl| && h.size[fl[m]] > 0
      ensures m > 0
    {
      assert SizeAt(h, fl, m);
    }

    lemma BlockFree(h: Headers, fl: seq<nat>, m: nat)
      requires Has(h, fl) && m < |fl|
      ensures forall u: nat :: fl[m] <= u < fl[m] + h.size[fl[m]] ==> InFree(h, fl, u)
    {
      forall u: nat | fl[m] <= u < fl[m] + h.size[fl[m]]
        ensures InFree(h, fl, u)
      {
        assert Covers(h, fl, m, u);
      }
    }

    lemma TailNotLive(h: Headers, fl: seq<nat>, live: map<nat, nat>, owned: set<nat>, m: nat, t: nat)
      requires Sound(h, fl, live, owned) && m < |fl| && fl[m] <= t < fl[m] + h.size[fl[m]]
      ensures t !in live
    {
      hide FreeList, Coalesced;
      SoundFacts(h, fl, live, owned);
      BlockFree(h, fl, m);
      if t in live {
        LiveClear(h, fl, live, owned, t, m);
        assert false;
      }
    }

    /** malloc's search: once round the list from freep on. */
    method Search(n: nat) returns (found: bool, prevp: nat, p: nat, ghost i: nat)
      requires Valid() && freep != 0
      ensures found <==> HasRoom(h, fl, n)
      ensures found ==> Has(h, fl) && i < |fl| && prevp == fl[i] && p == fl[Succ(i, |fl|)] && h.size[p] >= n
      ensures found ==> FirstFit(h, fl, freep, n, p + h.size[p] - n)
    {
      hide Sound, FreeList, TooSmall;
      SoundFacts(h, fl, live, owned);
      ghost var f: nat :| f < |fl| && fl[f] == freep;
      i := f;
      NextOf(h, fl, f);
      prevp, p := freep, h.ptr[freep];
      SearchStarts(h, fl, f, n);
      while h.size[p] < n
        invariant i < |fl| && prevp == fl[i] && p == fl[Succ(i, |fl|)] && TooSmall(h, fl, f, Succ(i, |fl|), n)
        decreases Dist(Succ(i, |fl|), f, |fl|)
      {
        ghost var j := Succ(i, |fl|);
        Ordered(h, fl, j, f);
        if p == freep {
          SearchFails(h, fl, f, n);
          return false, prevp, p, i;
        }
        SearchGoesOn(h, fl, f, j, n);
        NextOf(h, fl, j);
        i := j;
        prevp := p;
        p := h.ptr[p];
      }
      assert Room(h, fl, Succ(i, |fl|), n);
      found := true;
    }

    /** `malloc`. The block handed out is new, nothing else changes hands, and sbrk is asked only if no
        free block is large enough; then the search finds the new one. What sbrk has given stays
        partitioned exactly if sbrk is not asked, fails, or is asked for fewer than 2^27 units. */
    method Malloc(nbytes: nat, more: Sbrk) returns (ap: nat)
      requires Valid() && Backed() && nbytes < 0x1_0000_0000
      requires more.At? ==> more.addr > base && forall u :: u in owned ==> u < more.addr
      modifies this
      ensures Valid()
      ensures ap != 0 ==> ap - 1 !in old(live) && live == old(live)[ap - 1 := Units(nbytes)]
      ensures old(HasRoom(h, fl, Units(nbytes))) ==> old(FirstFit(h, fl, freep, Units(nbytes), ap - 1))
      ensures ap == 0 ==> live == old(live)
      ensures ap == 0 <==> more.Fails? && !old(HasRoom(h, fl, Units(nbytes)))
      ensures more.At? && !old(HasRoom(h, fl, Units(nbytes))) ==>
              owned == old(owned) + Interval(more.addr, CoreUnits(Units(nbytes)))
      ensures !more.At? || old(HasRoom(h, fl, Units(nbytes))) ==> owned == old(owned)
      ensures Backed() <==> old(HasRoom(h, fl, Units(nbytes))) || more.Fails? || CoreUnits(Units(nbytes)) < 0x800_0000
      ensures more.At? && !old(HasRoom(h, fl, Units(nbytes))) ==>
              given == old(given) + Interval(more.addr, Granted(CoreUnits(Units(nbytes))))
    {
      hide Sound, Has, Room, Backed, Granted, Interval;
      BackedIs();
      var n := Units(nbytes);
      if freep == 0 {
        h := Headers(h.ptr[base := base], h.size[base := 0]);
        freep, fl := base, [base];
        EmptyHeap(h, base, n);
      }
      BackedIs();
      assert HasRoom(h, fl, n) <==> old(HasRoom(h, fl, n));
      var found, prevp, p;
      ghost var i;
      found, prevp, p, i := Search(n);
      if !found {
        if more.Fails? {
          return 0;
        }
        Morecore(n, more.addr);
        found, prevp, p, i := Search(n);
      }
      BackedIs();
      ap := Take(prevp, p, n, i);
      BackedIs();
    }

    lemma EmptyHeap(h: Headers, base: nat, n: nat)
      requires base in h.ptr && h.ptr[base] == base && base in h.size && h.size[base] == 0
      ensures Sound(h, [base], map[], {}) && (n > 0 ==> !HasRoom(h, [base], n)) && !HasRoom(h, [], n)
    {
    }
  }

  lemma HugeUnits()
    ensures Units(0xffff_ffff) == CoreUnits(Units(0xffff_ffff)) == 0x1000_0001 && Granted(0x1000_0001) == 1
  {
  }

  /** The largest request: malloc reports success for 2^28 + 1 units, and sbrk was asked for 16 bytes. */
  method HugeRequest(base: nat, addr: nat) returns (heap: Heap, ap: nat)
    requires 0 < base < addr
    ensures ap != 0 && heap.live == map[ap - 1 := 0x1000_0001] && heap.given == {addr} && !heap.Backed()
  {
    hide Heap.Valid, Heap.Backed, HasRoom, Interval, Granted;
    heap := new Heap(base);
    HugeUnits();
    ap := heap.Malloc(0xffff_ffff, At(addr));
    assert Interval(addr, 1) == {addr};
  }
}
