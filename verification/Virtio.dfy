/** kernel/virtio_disk.c against a device that completes requests in any order: descriptor chains,
    the avail and used rings and their 16-bit indices (sections 2.6 and 5.2 of VIRTIO 1.1). */
module Virtio {
  import opened Counting

  const NUM: nat := 8

  /** What a descriptor points at: the header ops[i], the data of buffer b, or info[i].status. */
  datatype Addr = Null | OpOf(i: nat) | DataOf(b: nat) | StatusOf(i: nat)

  /** `more` and `write` are VRING_DESC_F_NEXT and VRING_DESC_F_WRITE. */
  datatype Desc = Desc(addr: Addr, len: nat, more: bool, write: bool, next: nat)

  datatype Op = Op(out: bool, sector: nat)
  datatype Info = Info(b: nat, status: nat)

  /** The driver's tables; the device reads desc, ops and the status bytes too. */
  datatype Queue = Queue(free: seq<bool>, desc: seq<Desc>, ops: seq<Op>, info: seq<Info>)

  /** A request in progress: the other two descriptors of its chain, its buffer, what it does. */
  datatype Chain = Chain(d: nat, s: nat, b: nat, out: bool, sector: nat)

  ghost predicate Shaped(q: Queue) {
    |q.free| == NUM && |q.desc| == NUM && |q.ops| == NUM && |q.info| == NUM
  }

  predicate Uses(h: nat, c: Chain, i: nat) {
    i == h || i == c.d || i == c.s
  }

  /** The chain with head h is laid out as the device expects it. */
  ghost predicate ChainAt(q: Queue, h: nat, c: Chain)
    requires Shaped(q)
  {
    && h < NUM && c.d < NUM && c.s < NUM && h != c.d && h != c.s && c.d != c.s
    && q.desc[h] == Desc(OpOf(h), 16, true, false, c.d)
    && q.desc[c.d] == Desc(DataOf(c.b), 1024, true, !c.out, c.s)
    && q.desc[c.s] == Desc(StatusOf(h), 1, false, true, 0)
    && q.ops[h] == Op(c.out, c.sector) && q.info[h].b == c.b
  }

  ghost predicate Apart(h: nat, c: Chain, g: nat, e: Chain) {
    h != g ==> !Uses(h, c, g) && !Uses(h, c, e.d) && !Uses(h, c, e.s)
  }

  ghost predicate InUse(chains: map<nat, Chain>, i: nat) {
    exists h :: h in chains && Uses(h, chains[h], i)
  }

  ghost function Users(chains: map<nat, Chain>): set<nat> {
    set i: nat | i < NUM && InUse(chains, i)
  }

  ghost predicate ChainsOk(q: Queue, chains: map<nat, Chain>) {
    && Shaped(q)
    && (forall h :: h in chains ==> ChainAt(q, h, chains[h]))
    && forall h, g :: h in chains && g in chains ==> Apart(h, chains[h], g, chains[g])
  }

  /** Every descriptor is free or in exactly one well-formed chain. */
  ghost predicate QueueOk(q: Queue, chains: map<nat, Chain>) {
    ChainsOk(q, chains) && forall i: nat :: i < NUM ==> (q.free[i] <==> !InUse(chains, i))
  }

  /** Taking one chain away. */
  lemma InUseWithout(q: Queue, chains: map<nat, Chain>, h: nat, i: nat)
    requires ChainsOk(q, chains) && h in chains
    ensures InUse(chains - {h}, i) <==> InUse(chains, i) && !Uses(h, chains[h], i)
  {
    hide ChainAt;
    var rest := chains - {h};
    if g :| g in chains && Uses(g, chains[g], i) && !Uses(h, chains[h], i) {
      assert g in rest && Uses(g, rest[g], i);
    }
    if g :| g in rest && Uses(g, rest[g], i) {
      assert Uses(g, chains[g], i) && Apart(h, chains[h], g, chains[g]);
    }
  }

  lemma InUseWith(chains: map<nat, Chain>, h: nat, c: Chain, i: nat)
    requires h !in chains
    ensures InUse(chains[h := c], i) <==> InUse(chains, i) || Uses(h, c, i)
  {
    var more := chains[h := c];
    if g :| g in chains && Uses(g, chains[g], i) {
      assert Uses(g, more[g], i);
    }
    if Uses(h, c, i) {
      assert Uses(h, more[h], i);
    }
    if g :| g in more && Uses(g, more[g], i) && g != h {
      assert Uses(g, chains[g], i);
    }
  }

  lemma ChainsWithout(q: Queue, chains: map<nat, Chain>, h: nat)
    requires ChainsOk(q, chains) && h in chains
    ensures ChainsOk(q, chains - {h})
  {
    hide ChainAt, Apart;
  }

  /** Three descriptors to a chain. */
  lemma {:induction false} UsersCount(q: Queue, chains: map<nat, Chain>)
    requires ChainsOk(q, chains)
    ensures |Users(chains)| == 3 * |chains|
    decreases |chains|
  {
    hide ChainsOk, InUse;
    if chains == map[] {
      NobodyUses();
      assert Users(chains) == {};
    } else {
      var h :| h in chains;
      var c, rest := chains[h], chains - {h};
      assert rest.Keys == chains.Keys - {h} && |rest| == |chains| - 1;
      ChainsWithout(q, chains, h);
      UsersCount(q, rest);
      ChainFacts(q, chains, h);
      forall i: nat | i < NUM
        ensures InUse(rest, i) <==> InUse(chains, i) && !Uses(h, c, i)
      {
        InUseWithout(q, chains, h, i);
      }
      assert Users(chains) == Users(rest) + {h, c.d, c.s};
      assert |{h, c.d, c.s}| == 3;
    }
  }

  lemma NobodyUses()
    ensures forall i: nat :: !InUse(map[], i)
  {
  }

  lemma ChainFacts(q: Queue, chains: map<nat, Chain>, h: nat)
    requires ChainsOk(q, chains) && h in chains
    ensures var c := chains[h];
            && h < NUM && c.d < NUM && c.s < NUM && h != c.d && h != c.s && c.d != c.s
            && InUse(chains, h) && InUse(chains, c.d) && InUse(chains, c.s)
  {
    assert ChainAt(q, h, chains[h]);
    assert Uses(h, chains[h], h) && Uses(h, chains[h], chains[h].d) && Uses(h, chains[h], chains[h].s);
  }

  /** At most two requests are in progress at a time. */
  lemma AtMostTwo(q: Queue, chains: map<nat, Chain>)
    requires QueueOk(q, chains)
    ensures |chains| <= 2
  {
    UsersCount(q, chains);
    SubsetCount(Users(chains), Below(NUM));
  }

  /** The descriptors in use, and what belongs to them, are the same. */
  ghost predicate SameInUse(q: Queue, r: Queue, chains: map<nat, Chain>) {
    && Shaped(q) && Shaped(r)
    && forall i: nat :: i < NUM && InUse(chains, i) ==>
         r.desc[i] == q.desc[i] && r.ops[i] == q.ops[i] && r.info[i].b == q.info[i].b
  }

  lemma StillChains(q: Queue, r: Queue, chains: map<nat, Chain>)
    requires ChainsOk(q, chains) && SameInUse(q, r, chains)
    ensures ChainsOk(r, chains)
  {
    hide Apart, InUse;
    forall h | h in chains
      ensures ChainAt(r, h, chains[h])
    {
      assert ChainAt(q, h, chains[h]);
      ChainFacts(q, chains, h);
    }
  }

  /** A new chain made of descriptors that were free. */
  lemma AddChain(q: Queue, r: Queue, chains: map<nat, Chain>, h: nat, c: Chain)
    requires QueueOk(q, chains) && SameInUse(q, r, chains) && h < NUM && c.d < NUM && c.s < NUM
    requires ChainAt(r, h, c) && q.free[h] && q.free[c.d] && q.free[c.s]
    requires r.free == q.free[h := false][c.d := false][c.s := false]
    ensures h !in chains && QueueOk(r, chains[h := c])
  {
    hide InUse, ChainAt;
    if h in chains {
      ChainFacts(q, chains, h);
      assert false;
    }
    StillChains(q, r, chains);
    AddedApart(q, chains, h, c);
    forall i: nat | i < NUM
      ensures r.free[i] <==> !InUse(chains[h := c], i)
    {
      InUseWith(chains, h, c, i);
    }
  }

  lemma AddedApart(q: Queue, chains: map<nat, Chain>, h: nat, c: Chain)
    requires ChainsOk(q, chains) && h !in chains && !InUse(chains, h) && !InUse(chains, c.d) && !InUse(chains, c.s)
    ensures var more := chains[h := c]; forall g, e :: g in more && e in more ==> Apart(g, more[g], e, more[e])
  {
    hide ChainAt;
    var more := chains[h := c];
    forall g, e | g in more && e in more
      ensures Apart(g, more[g], e, more[e])
    {
      if g in chains && e in chains {
        assert Apart(g, chains[g], e, chains[e]);
      } else if g in chains {
        assert !Uses(g, chains[g], h) && !Uses(g, chains[g], c.d) && !Uses(g, chains[g], c.s);
      } else if e in chains {
        assert !Uses(e, chains[e], h) && !Uses(e, chains[e], c.d) && !Uses(e, chains[e], c.s);
      }
    }
  }

  /** A chain whose descriptors have been freed. */
  lemma RemoveChain(q: Queue, r: Queue, chains: map<nat, Chain>, h: nat)
    requires QueueOk(q, chains) && h in chains && SameInUse(q, r, chains - {h})
    requires h < NUM && chains[h].d < NUM && chains[h].s < NUM
    requires r.free == q.free[h := true][chains[h].d := true][chains[h].s := true]
    ensures QueueOk(r, chains - {h})
  {
    hide InUse, ChainAt, Apart;
    ChainsWithout(q, chains, h);
    StillChains(q, r, chains - {h});
    forall i: nat | i < NUM
      ensures r.free[i] <==> !InUse(chains - {h}, i)
    {
      InUseWithout(q, chains, h, i);
    }
  }

  // The rings.

  /** A 16-bit counter. */
  const WRAP: nat := 0x1_0000

  function Slot(start: nat, k: nat): (i: nat)
    ensures i < NUM
  {
    (start + k) % 0x1_0000 % 8
  }

  /** `list` is what the ring holds from index `start` on. */
  ghost predicate RingOk(ring: seq<nat>, start: nat, list: seq<nat>) {
    |ring| == NUM && start < WRAP && |list| <= 2 && forall k: nat :: k < |list| ==> ring[Slot(start, k)] == list[k]
  }

  /** An entry is put behind the others; as there are fewer than NUM of them none is overwritten. */
  lemma RingPush(ring: seq<nat>, start: nat, list: seq<nat>, h: nat)
    requires RingOk(ring, start, list) && |list| < 2
    ensures RingOk(ring[(start + |list|) % 0x1_0000 % 8 := h], start, list + [h])
  {
    var r, l := ring[Slot(start, |list|) := h], list + [h];
    forall k: nat | k < |l|
      ensures r[Slot(start, k)] == l[k]
    {
      SlotsDiffer(start, k, |list|);
    }
  }

  lemma SlotsDiffer(start: nat, k: nat, n: nat)
    requires start < WRAP && k <= n < 8
    ensures k < n ==> Slot(start, k) != Slot(start, n)
  {
    SlotIs(start, k);
    SlotIs(start, n);
  }

  lemma SlotIs(start: nat, k: nat)
    requires start < WRAP && k < 8
    ensures Slot(start, k) == (start + k) % 8
  {
  }

  /** The indices differ exactly while there are entries. */
  lemma RingFacts(ring: seq<nat>, start: nat, list: seq<nat>, end: nat)
    requires RingOk(ring, start, list) && end == (start + |list|) % WRAP
    ensures |ring| == NUM && start < WRAP && end < WRAP && (start != end <==> list != [])
    ensures end % 8 == (start + |list|) % 0x1_0000 % 8
  {
  }

  lemma SlotNext(start: nat, k: nat)
    requires start < WRAP && k < 8
    ensures Slot((start + 1) % WRAP, k) == Slot(start, k + 1)
  {
    if start + 1 == WRAP {
      assert (start + 1) % WRAP == 0;
      assert (start + (k + 1)) % 0x1_0000 == k;
    } else {
      assert (start + 1) % WRAP == start + 1;
    }
  }

  lemma RingPop(ring: seq<nat>, start: nat, list: seq<nat>)
    requires RingOk(ring, start, list) && list != []
    ensures ring[start % 8] == list[0] && RingOk(ring, (start + 1) % WRAP, list[1..])
  {
    SlotIs(start, 0);
    assert ring[Slot(start, 0)] == list[0];
    forall k: nat | k < |list| - 1
      ensures ring[Slot((start + 1) % WRAP, k)] == list[1..][k]
    {
      assert ring[Slot(start, k + 1)] == list[k + 1];
      SlotNext(start, k);
    }
  }

  // The life of a request.

  datatype Phase = Pending | Flying | Completed | Reaped

  /** `list` has the chains that are in phase p, each once. */
  ghost predicate ListOk(list: seq<nat>, phase: map<nat, Phase>, p: Phase) {
    Distinct(list) && forall h :: h in list <==> h in phase && phase[h] == p
  }

  type Content = seq<nat>

  datatype Buf = Buf(blockno: nat, data: Content, disk: bool)

  /** b->disk is set exactly while a request for b is with the device. */
  ghost predicate BufsOk(bufs: map<nat, Buf>, chains: map<nat, Chain>, phase: map<nat, Phase>) {
    && (forall h :: h in chains ==>
          h in phase && chains[h].b in bufs && (bufs[chains[h].b].disk <==> phase[h] != Reaped))
    && (forall h, g :: h in chains && g in chains && chains[h].b == chains[g].b ==> h == g)
    && forall b :: b in bufs && bufs[b].disk ==> exists h :: h in chains && chains[h].b == b
  }

  ghost predicate StatusOk(q: Queue, phase: map<nat, Phase>) {
    Shaped(q) && forall h :: h in phase && (phase[h] == Completed || phase[h] == Reaped) ==>
      h < NUM && q.info[h].status == 0
  }

  lemma ListPush(list: seq<nat>, phase: map<nat, Phase>, p: Phase, h: nat)
    requires ListOk(list, phase, p) && !(h in phase && phase[h] == p)
    ensures ListOk(list + [h], phase[h := p], p)
  {
  }

  lemma ListPop(list: seq<nat>, phase: map<nat, Phase>, p: Phase, next: Phase)
    requires ListOk(list, phase, p) && list != [] && next != p
    ensures list[0] in phase && phase[list[0]] == p && ListOk(list[1..], phase[list[0] := next], p)
  {
    var h := list[0];
    assert h in list;
    assert list == [h] + list[1..];
  }

  lemma ListSame(list: seq<nat>, phase: map<nat, Phase>, p: Phase, h: nat, next: Phase)
    requires ListOk(list, phase, p) && next != p && !(h in phase && phase[h] == p)
    ensures ListOk(list, phase[h := next], p)
  {
  }

  lemma ListGone(list: seq<nat>, phase: map<nat, Phase>, p: Phase, h: nat)
    requires ListOk(list, phase, p) && !(h in phase && phase[h] == p)
    ensures ListOk(list, phase - {h}, p)
  {
  }

  class Disk {
    var q: Queue
    var availRing: seq<nat>
    var availIdx: nat
    var usedRing: seq<nat>
    /** used->idx, written by the device. */
    var usedDev: nat
    var usedIdx: nat
    /** How far the device has read the avail ring. */
    var devAvail: nat
    var bufs: map<nat, Buf>
    var blocks: map<nat, Content>
    ghost var chains: map<nat, Chain>
    ghost var phase: map<nat, Phase>
    ghost var pending: seq<nat>
    ghost var completed: seq<nat>

    ghost predicate RingsWith(phase: map<nat, Phase>)
      reads this`pending, this`completed, this`availRing, this`devAvail, this`availIdx, this`usedRing, this`usedIdx,
            this`usedDev
    {
      && ListOk(pending, phase, Pending) && ListOk(completed, phase, Completed)
      && RingOk(availRing, devAvail, pending) && availIdx == (devAvail + |pending|) % WRAP
      && RingOk(usedRing, usedIdx, completed) && usedDev == (usedIdx + |completed|) % WRAP
    }

    ghost predicate Valid()
      reads this
    {
      && QueueOk(q, chains) && phase.Keys == chains.Keys && RingsWith(phase)
      && BufsOk(bufs, chains, phase) && StatusOk(q, phase)
    }

    /** As `virtio_disk_init` leaves it. */
    constructor (bufs: map<nat, Buf>, blocks: map<nat, Content>)
      requires forall b :: b in bufs ==> !bufs[b].disk
      ensures Valid() && chains == map[] && this.bufs == bufs && this.blocks == blocks
    {
      q := Queue(seq(8, _ => true), seq(8, _ => Desc(Null, 0, false, false, 0)), seq(8, _ => Op(false, 0)),
          seq(8, _ => Info(0, 0)));
      availRing, usedRing := seq(8, _ => 0), seq(8, _ => 0);
      availIdx, usedDev, usedIdx, devAvail := 0, 0, 0, 0;
      this.bufs, this.blocks := bufs, blocks;
      chains, phase, pending, completed := map[], map[], [], [];
    }

    /** `alloc_desc`: the first free descriptor. */
    method AllocDesc() returns (i: int)
      requires Shaped(q)
      modifies this`q
      ensures i == -1 ==> q == old(q) && forall k: nat :: k < NUM ==> !q.free[k]
      ensures i != -1 ==> 0 <= i < NUM && old(q).free[i] && (forall k: nat :: k < i ==> !old(q).free[k])
      ensures i != -1 ==> q == old(q).(free := old(q).free[i := false])
    {
      for k := 0 to NUM
        invariant q == old(q) && forall j: nat :: j < k ==> !q.free[j]
      {
        if q.free[k] {
          q := q.(free := q.free[k := false]);
          return k;
        }
      }
      return -1;
    }

    /** `free_desc`; its two panics are excluded. */
    method FreeDesc(i: nat)
      requires Shaped(q) && i < NUM && !q.free[i]
      modifies this`q
      ensures Shaped(q)
      ensures q == old(q).(free := old(q).free[i := true], desc := old(q).desc[i := Desc(Null, 0, false, false, 0)])
    {
      q := q.(free := q.free[i := true], desc := q.desc[i := Desc(Null, 0, false, false, 0)]);
    }

    /** Descriptors taken so far: free before, and not any more. */
    ghost predicate Taken(q0: Queue, idx: seq<nat>)
      reads this
    {
      && Shaped(q0) && Shaped(q) && Distinct(idx) && q.ops == q0.ops && q.info == q0.info
      && (forall k: nat :: k < |idx| ==> idx[k] < NUM && q0.free[idx[k]])
      && (forall i: nat :: i < NUM ==> (q.free[i] <==> q0.free[i] && i !in idx))
      && forall i: nat :: i < NUM && !q0.free[i] ==> q.desc[i] == q0.desc[i]
    }

    /** `alloc3_desc`: three descriptors, or none. */
    method Alloc3() returns (ok: bool, idx: seq<nat>)
      requires Shaped(q)
      modifies this`q
      ensures ok ==> |idx| == 3 && Taken(old(q), idx)
      ensures !ok ==> Taken(old(q), []) && |idx| < 3 && forall i: nat :: i < NUM && old(q).free[i] ==> i in idx
    {
      ghost var q0 := q;
      idx := [];
      for i := 0 to 3
        invariant |idx| == i && Taken(q0, idx)
      {
        var d := AllocDesc();
        if d < 0 {
          GiveBack(idx, q0);
          return false, idx;
        }
        idx := idx + [d];
      }
      ok := true;
    }

    method GiveBack(idx: seq<nat>, ghost q0: Queue)
      requires Taken(q0, idx)
      modifies this`q
      ensures Taken(q0, [])
    {
      for j := 0 to |idx|
        invariant Taken(q0, idx[j..])
      {
        assert idx[j..] == [idx[j]] + idx[j + 1..];
        assert idx[j] in idx[j..];
        FreeDesc(idx[j]);
      }
      assert idx[|idx|..] == [];
    }

    /** `virtio_disk_rw` up to the point where it waits: the chain is laid out and published. It has
        to wait for descriptors exactly while two requests are in progress. */
    method Submit(b: nat, out: bool) returns (ok: bool, head: nat)
      requires Valid() && b in bufs && forall h :: h in chains ==> chains[h].b != b
      modifies this
      ensures Valid() && (ok <==> |old(chains)| < 2)
      ensures ok ==> head !in old(chains) && chains.Keys == old(chains).Keys + {head}
      ensures ok ==> forall h :: h in old(chains) ==> chains[h] == old(chains)[h]
      ensures ok ==> chains[head].b == b && chains[head].out == out && chains[head].sector == bufs[b].blockno * 2
      ensures ok ==> phase == old(phase)[head := Pending] && bufs == old(bufs)[b := old(bufs)[b].(disk := true)]
      ensures !ok ==> chains == old(chains) && phase == old(phase) && bufs == old(bufs)
      ensures blocks == old(blocks) && completed == old(completed)
    {
      hide QueueOk, RingsWith, BufsOk, StatusOk, ChainAt;
      ghost var q0 := q;
      QueueShaped(q, chains);
      var idx;
      ok, idx := Alloc3();
      if !ok {
        QueueSame(q0, q, chains);
        FreeMeans(q0, chains, idx);
        StatusSame(q0, q, phase);
        return false, 0;
      }
      head := idx[0];
      FormatAndPublish(idx, b, out, q0);
    }

    method FormatAndPublish(idx: seq<nat>, b: nat, out: bool, ghost q0: Queue)
      requires QueueOk(q0, chains) && phase.Keys == chains.Keys && RingsWith(phase)
      requires BufsOk(bufs, chains, phase) && StatusOk(q0, phase)
      requires |idx| == 3 && Taken(q0, idx) && b in bufs && forall h :: h in chains ==> chains[h].b != b
      modifies this`q, this`chains, this`phase, this`bufs, this`availRing, this`pending, this`availIdx
      ensures Valid() && |old(chains)| < 2 && idx[0] !in old(chains)
      ensures chains == old(chains)[idx[0] := Chain(idx[1], idx[2], b, out, old(bufs)[b].blockno * 2)]
      ensures phase == old(phase)[idx[0] := Pending] && bufs == old(bufs)[b := old(bufs)[b].(disk := true)]
    {
      hide QueueOk, RingsWith, BufsOk, StatusOk, ChainAt, Valid;
      Format(idx, b, out, q0);
      Publish(idx[0], b, Chain(idx[1], idx[2], b, out, bufs[b].blockno * 2), q0);
    }

    /** b->disk = 1, the entry of the avail ring, and its index. */
    method Publish(head: nat, b: nat, ghost c: Chain, ghost q0: Queue)
      requires QueueOk(q0, chains) && phase.Keys == chains.Keys && RingsWith(phase)
      requires BufsOk(bufs, chains, phase) && StatusOk(q0, phase)
      requires b == c.b && b in bufs && (forall h :: h in chains ==> chains[h].b != b) && Shaped(q)
      requires ChainAt(q, head, c)
      requires head < NUM && c.d < NUM && c.s < NUM
      requires q.free == q0.free[head := false][c.d := false][c.s := false] && q0.free[head] && q0.free[c.d]
      requires q0.free[c.s]
      requires forall i: nat :: i < NUM && !q0.free[i] ==>
               q.desc[i] == q0.desc[i] && q.ops[i] == q0.ops[i] && q.info[i] == q0.info[i]
      modifies this`chains, this`phase, this`bufs, this`availRing, this`pending, this`availIdx
      ensures Valid() && |old(chains)| < 2 && head !in old(chains) && chains == old(chains)[head := c]
      ensures phase == old(phase)[head := Pending] && bufs == old(bufs)[b := old(bufs)[b].(disk := true)]
    {
      hide QueueOk, RingsWith, BufsOk, StatusOk, ChainAt;
      SameUsed(q0, q, chains);
      AddChain(q0, q, chains, head, c);
      AtMostTwo(q, chains[head := c]);
      MoreChains(chains, head, c);
      NewBuf(bufs, chains, phase, head, c);
      StatusAdded(q0, q, chains, phase, head);
      assert phase[head := Pending].Keys == chains[head := c].Keys;
      PublishRings(head);
      chains, phase := chains[head := c], phase[head := Pending];
      bufs := bufs[b := bufs[b].(disk := true)];
    }

    method PublishRings(head: nat)
      requires RingsWith(phase) && head !in phase && phase.Keys == chains.Keys && |chains| < 2
      modifies this`availRing, this`pending, this`availIdx
      ensures RingsWith(phase[head := Pending])
    {
      PublishLists(head);
      availRing := availRing[availIdx % 8 := head];
      pending := pending + [head];
      availIdx := (availIdx + 1) % 0x1_0000;
    }

    /** The three descriptors, the header and the info entry. */
    method Format(idx: seq<nat>, b: nat, out: bool, ghost q0: Queue)
      requires |idx| == 3 && Taken(q0, idx) && b in bufs
      modifies this`q
      ensures Shaped(q) && idx[0] < NUM && idx[1] < NUM && idx[2] < NUM
      ensures ChainAt(q, idx[0], Chain(idx[1], idx[2], b, out, bufs[b].blockno * 2))
      ensures q.free == q0.free[idx[0] := false][idx[1] := false][idx[2] := false] && q0.free[idx[0]]
      ensures q0.free[idx[1]] && q0.free[idx[2]]
      ensures forall i: nat :: i < NUM && !q0.free[i] ==>
              q.desc[i] == q0.desc[i] && q.ops[i] == q0.ops[i] && q.info[i] == q0.info[i]
    {
      var i0, i1, i2 := idx[0], idx[1], idx[2];
      assert i0 in idx && i1 in idx && i2 in idx;
      assert idx == [i0, i1, i2];
      q := q.(ops := q.ops[i0 := Op(out, bufs[b].blockno * 2)]);
      q := q.(desc := q.desc[i0 := Desc(OpOf(i0), 16, true, false, i1)]);
      q := q.(desc := q.desc[i1 := Desc(DataOf(b), 1024, true, !out, i2)]);
      q := q.(desc := q.desc[i2 := Desc(StatusOf(i0), 1, false, true, 0)]);
      q := q.(info := q.info[i0 := Info(b, 0xff)]);
    }

    lemma PublishLists(head: nat)
      requires RingsWith(phase) && head !in phase && phase.Keys == chains.Keys && |chains| < 2
      ensures var ring := availRing[availIdx % 8 := head];
              && ListOk(pending + [head], phase[head := Pending], Pending)
              && ListOk(completed, phase[head := Pending], Completed)
              && RingOk(ring, devAvail, pending + [head])
              && (availIdx + 1) % WRAP == (devAvail + |pending + [head]|) % WRAP
    {
      hide ListOk, RingOk;
      ListPush(pending, phase, Pending, head);
      ListSame(completed, phase, Completed, head, Pending);
      PendingShort(pending, phase, Pending);
      RingPush(availRing, devAvail, pending, head);
    }

    /** The device takes the next entry of the avail ring. */
    method DeviceFetch() returns (head: nat)
      requires Valid() && devAvail != availIdx
      modifies this`devAvail, this`pending, this`phase
      ensures Valid() && head in old(phase) && old(phase)[head] == Pending && phase == old(phase)[head := Flying]
      ensures old(pending) == [head] + pending
    {
      hide QueueOk, BufsOk, RingsWith, StatusOk;
      ghost var phase0 := phase;
      head := FetchRing();
      BufPhase(bufs, chains, phase0, head, Flying);
      StatusPhase(q, phase0, head, Flying);
    }

    method FetchRing() returns (head: nat)
      requires RingsWith(phase) && devAvail != availIdx
      modifies this`devAvail, this`pending, this`phase
      ensures head in old(phase) && old(phase)[head] == Pending && phase == old(phase)[head := Flying]
      ensures RingsWith(phase) && old(pending) == [head] + pending
    {
      hide ListOk, RingOk;
      RingFacts(availRing, devAvail, pending, availIdx);
      RingPop(availRing, devAvail, pending);
      ListPop(pending, phase, Pending, Flying);
      head := availRing[devAvail % 8];
      ListSame(completed, phase, Completed, head, Flying);
      assert pending == [head] + pending[1..];
      phase, pending := phase[head := Flying], pending[1..];
      devAvail := (devAvail + 1) % 0x1_0000;
    }

    method ReapRing() returns (id: nat)
      requires RingsWith(phase) && usedIdx != usedDev
      modifies this`usedIdx, this`completed, this`phase
      ensures id in old(phase) && old(phase)[id] == Completed && phase == old(phase)[id := Reaped]
      ensures RingsWith(phase) && old(completed) == [id] + completed
    {
      hide ListOk, RingOk;
      RingFacts(usedRing, usedIdx, completed, usedDev);
      RingPop(usedRing, usedIdx, completed);
      ListPop(completed, phase, Completed, Reaped);
      id := usedRing[usedIdx % 8];
      ListSame(pending, phase, Pending, id, Reaped);
      assert completed == [id] + completed[1..];
      phase, completed := phase[id := Reaped], completed[1..];
      usedIdx := (usedIdx + 1) % 0x1_0000;
    }

    /** The device serves a chain it has taken, whichever it likes, as the descriptors tell it to, and
        puts it on the used ring. */
    method DeviceComplete(head: nat)
      requires Valid() && head in phase && phase[head] == Flying && chains[head].sector in blocks
      modifies this
      ensures Valid() && chains == old(chains) && phase == old(phase)[head := Completed]
      ensures completed == old(completed) + [head]
      ensures var c := chains[head]; c.out ==>
              blocks == old(blocks)[c.sector := old(bufs)[c.b].data] && bufs == old(bufs)
      ensures var c := chains[head]; !c.out ==>
              bufs == old(bufs)[c.b := old(bufs)[c.b].(data := old(blocks)[c.sector])] && blocks == old(blocks)
    {
      hide QueueOk, RingsWith, BufsOk, StatusOk;
      ChainIs(q, chains, head);
      BufIs(bufs, chains, phase, head);
      var op := q.ops[q.desc[head].addr.i];
      var data := q.desc[head].next;
      var status := q.desc[data].next;
      var b := q.desc[data].addr.b;
      if op.out {
        blocks := blocks[op.sector := bufs[b].data];
      } else {
        BufData(bufs, chains, phase, b, blocks[op.sector]);
        bufs := bufs[b := bufs[b].(data := blocks[op.sector])];
      }
      BufPhase(bufs, chains, phase, head, Completed);
      StatusWritten(q, chains, phase, head);
      q := q.(info := q.info[q.desc[status].addr.i := Info(q.info[q.desc[status].addr.i].b, 0)]);
      UsedRing(head);
    }

    method UsedRing(head: nat)
      requires RingsWith(phase) && head in phase && phase[head] == Flying && |phase| <= 2
      modifies this`usedRing, this`usedDev, this`completed, this`phase
      ensures RingsWith(phase) && phase == old(phase)[head := Completed] && completed == old(completed) + [head]
    {
      hide ListOk, RingOk;
      ListPush(completed, phase, Completed, head);
      ListSame(pending, phase, Pending, head, Completed);
      OtherShort(completed, phase, Completed, head);
      RingFacts(usedRing, usedIdx, completed, usedDev);
      RingPush(usedRing, usedIdx, completed, head);
      usedRing := usedRing[usedDev % 8 := head];
      completed, phase := completed + [head], phase[head := Completed];
      usedDev := (usedDev + 1) % 0x1_0000;
    }

    /** One round of the loop of `virtio_disk_intr`; the status panic is excluded. */
    method IntrOne() returns (id: nat)
      requires Valid() && usedIdx != usedDev
      modifies this`bufs, this`usedIdx, this`completed, this`phase
      ensures Valid() && id in old(phase) && old(phase)[id] == Completed && phase == old(phase)[id := Reaped]
      ensures old(completed) == [id] + completed
      ensures old(bufs)[chains[id].b].disk && bufs == old(bufs)[chains[id].b := old(bufs)[chains[id].b].(disk := false)]
    {
      hide QueueOk, RingsWith, BufsOk;
      ghost var phase0 := phase;
      id := ReapRing();
      ChainIs(q, chains, id);
      BufIs(bufs, chains, phase0, id);
      assert q.info[id].status == 0;
      BufReaped(bufs, chains, phase0, id);
      StatusReaped(q, phase0, id);
      var b := q.info[id].b;
      bufs := bufs[b := bufs[b].(disk := false)];
    }

    /** `virtio_disk_intr`: everything on the used ring is dealt with. */
    method Intr()
      requires Valid()
      modifies this`bufs, this`usedIdx, this`completed, this`phase
      ensures Valid() && completed == [] && phase.Keys == old(phase).Keys
      ensures forall h :: h in phase ==> phase[h] == if old(phase)[h] == Completed then Reaped else old(phase)[h]
    {
      hide QueueOk, RingsWith, BufsOk, StatusOk;
      ghost var phase0 := phase;
      while usedIdx != usedDev
        invariant Valid() && phase.Keys == phase0.Keys
        invariant forall h :: h in phase ==> phase[h] == phase0[h] || (phase0[h] == Completed && phase[h] == Reaped)
        decreases |completed|
      {
        var id := IntrOne();
      }
      NoneLeft();
    }

    lemma NoneLeft()
      requires RingsWith(phase) && usedIdx == usedDev
      ensures completed == [] && forall h :: h in phase ==> phase[h] != Completed
    {
      hide RingOk;
      RingFacts(usedRing, usedIdx, completed, usedDev);
      forall h | h in phase
        ensures phase[h] != Completed
      {
        assert h !in completed;
      }
    }

    /** `free_chain` of a chain of three. */
    method FreeChain(head: nat, ghost c: Chain)
      requires Shaped(q) && ChainLinks(q, head, c) && !q.free[head] && !q.free[c.d] && !q.free[c.s]
      modifies this`q
      ensures Shaped(q) && q.free == old(q).free[head := true][c.d := true][c.s := true] && q.ops == old(q).ops
      ensures q.info == old(q).info
      ensures forall i: nat :: i < NUM && !Uses(head, c, i) ==> q.desc[i] == old(q).desc[i]
    {
      var i := head;
      ghost var k := 0;
      ghost var q0 := q;
      while true
        invariant 0 <= k <= 2 && i == (if k == 0 then head else if k == 1 then c.d else c.s) && Shaped(q)
        invariant k == 0 ==> q.free == q0.free
        invariant k == 1 ==> q.free == q0.free[head := true]
        invariant k > 1 ==> q.free == q0.free[head := true][c.d := true]
        invariant q.ops == q0.ops && q.info == q0.info
        invariant forall j: nat :: j < NUM && !(j == head && k > 0) && !(j == c.d && k > 1) ==> q.desc[j] == q0.desc[j]
        decreases 3 - k
      {
        var more, next := q.desc[i].more, q.desc[i].next;
        FreeDesc(i);
        if more {
          i := next;
          k := k + 1;
        } else {
          break;
        }
      }
    }

    lemma RingsGone(h: nat)
      requires RingsWith(phase) && h in phase && phase[h] == Reaped
      ensures RingsWith(phase - {h})
    {
      hide RingOk, ListOk;
      ListGone(pending, phase, Pending, h);
      ListGone(completed, phase, Completed, h);
    }

    /** The end of `virtio_disk_rw`, once b->disk has been cleared. */
    method Finish(head: nat)
      requires Valid() && head in phase && phase[head] == Reaped
      modifies this`q, this`chains, this`phase
      ensures Valid() && chains == old(chains) - {head} && phase == old(phase) - {head}
      ensures head < |old(q).info| && q.info == old(q).info[head := Info(0, old(q).info[head].status)]
    {
      hide QueueOk, RingsWith, BufsOk, StatusOk, ChainAt;
      ghost var q0, c := q, chains[head];
      ChainIs(q, chains, head);
      q := q.(info := q.info[head := Info(0, q.info[head].status)]);
      FreeChain(head, c);
      OthersInUse(q0, q, chains, head);
      RemoveChain(q0, q, chains, head);
      RingsGone(head);
      BufGone(bufs, chains, phase, head);
      StatusGone(q0, q, phase, head);
      chains, phase := chains - {head}, phase - {head};
    }
  }

  lemma PendingShort(list: seq<nat>, phase: map<nat, Phase>, p: Phase)
    requires ListOk(list, phase, p) && |phase| < 2
    ensures |list| < 2
  {
    DistinctCount(list);
    forall h | h in Elems(list)
      ensures h in phase.Keys
    {
      assert h in list;
    }
    SubsetCount(Elems(list), phase.Keys);
  }

  lemma QueueShaped(q: Queue, chains: map<nat, Chain>)
    requires QueueOk(q, chains)
    ensures Shaped(q)
  {
  }

  lemma StatusSame(q: Queue, r: Queue, phase: map<nat, Phase>)
    requires StatusOk(q, phase) && Shaped(r) && r.info == q.info
    ensures StatusOk(r, phase)
  {
  }

  lemma SameUsed(q: Queue, r: Queue, chains: map<nat, Chain>)
    requires QueueOk(q, chains) && Shaped(r)
    requires forall i: nat :: i < NUM && !q.free[i] ==>
             r.desc[i] == q.desc[i] && r.ops[i] == q.ops[i] && r.info[i] == q.info[i]
    ensures SameInUse(q, r, chains)
  {
    hide InUse, ChainAt, Apart;
  }

  lemma QueueSame(q: Queue, r: Queue, chains: map<nat, Chain>)
    requires QueueOk(q, chains) && Shaped(r) && (forall i: nat :: i < NUM ==> (r.free[i] <==> q.free[i]))
    requires r.ops == q.ops && r.info == q.info
    requires forall i: nat :: i < NUM && !q.free[i] ==> r.desc[i] == q.desc[i]
    ensures QueueOk(r, chains)
  {
    hide InUse, ChainAt, Apart;
    StillChains(q, r, chains);
  }

  /** Fewer than three free descriptors means two chains. */
  lemma FreeMeans(q: Queue, chains: map<nat, Chain>, idx: seq<nat>)
    requires QueueOk(q, chains) && |idx| < 3 && forall i: nat :: i < NUM && q.free[i] ==> i in idx
    ensures |chains| >= 2
  {
    hide InUse, ChainAt, Apart;
    UsersCount(q, chains);
    forall i: nat | i < NUM
      ensures i in Users(chains) || i in idx
    {
      assert q.free[i] <==> !InUse(chains, i);
    }
    CoverCount(Users(chains), idx, NUM);
  }

  lemma MoreChains(chains: map<nat, Chain>, h: nat, c: Chain)
    requires h !in chains && |chains[h := c]| <= 2
    ensures |chains| < 2 && chains[h := c].Keys == chains.Keys + {h}
  {
    assert chains[h := c].Keys == chains.Keys + {h};
  }

  lemma NewBuf(bufs: map<nat, Buf>, chains: map<nat, Chain>, phase: map<nat, Phase>, h: nat, c: Chain)
    requires BufsOk(bufs, chains, phase) && h !in chains && c.b in bufs
    requires forall g :: g in chains ==> chains[g].b != c.b
    ensures BufsOk(bufs[c.b := bufs[c.b].(disk := true)], chains[h := c], phase[h := Pending])
  {
    var more := chains[h := c];
    forall b | b in bufs && (b == c.b || bufs[b].disk)
      ensures exists g :: g in more && more[g].b == b
    {
      if b == c.b {
        assert more[h].b == b;
      } else {
        var g :| g in chains && chains[g].b == b;
        assert more[g].b == b;
      }
    }
  }

  lemma StatusAdded(q: Queue, r: Queue, chains: map<nat, Chain>, phase: map<nat, Phase>, h: nat)
    requires StatusOk(q, phase) && QueueOk(q, chains) && phase.Keys == chains.Keys && Shaped(r) && h !in phase
    requires forall i: nat :: i < NUM && !q.free[i] ==> r.info[i] == q.info[i]
    ensures StatusOk(r, phase[h := Pending])
  {
    hide ChainAt, Apart, InUse;
    forall g | g in phase
      ensures g < NUM && !q.free[g]
    {
      ChainFacts(q, chains, g);
    }
  }

  ghost predicate ChainLinks(q: Queue, h: nat, c: Chain)
    requires Shaped(q)
  {
    && h < NUM && c.d < NUM && c.s < NUM && h != c.d && h != c.s && c.d != c.s
    && q.desc[h].more && q.desc[h].next == c.d && q.desc[c.d].more && q.desc[c.d].next == c.s && !q.desc[c.s].more
  }

  lemma ChainIs(q: Queue, chains: map<nat, Chain>, h: nat)
    requires QueueOk(q, chains) && h in chains
    ensures Shaped(q) && ChainAt(q, h, chains[h]) && ChainLinks(q, h, chains[h]) && |chains| <= 2
    ensures !q.free[h] && !q.free[chains[h].d] && !q.free[chains[h].s]
  {
    assert ChainAt(q, h, chains[h]);
    ChainFacts(q, chains, h);
    AtMostTwo(q, chains);
  }

  lemma BufIs(bufs: map<nat, Buf>, chains: map<nat, Chain>, phase: map<nat, Phase>, h: nat)
    requires BufsOk(bufs, chains, phase) && h in chains
    ensures chains[h].b in bufs && (bufs[chains[h].b].disk <==> phase[h] != Reaped)
  {
  }

  lemma BufData(bufs: map<nat, Buf>, chains: map<nat, Chain>, phase: map<nat, Phase>, b: nat, x: Content)
    requires BufsOk(bufs, chains, phase) && b in bufs
    ensures BufsOk(bufs[b := bufs[b].(data := x)], chains, phase)
  {
  }

  lemma BufPhase(bufs: map<nat, Buf>, chains: map<nat, Chain>, phase: map<nat, Phase>, h: nat, p: Phase)
    requires BufsOk(bufs, chains, phase) && h in chains && h in phase && phase[h] != Reaped && p != Reaped
    ensures BufsOk(bufs, chains, phase[h := p])
  {
  }

  lemma BufReaped(bufs: map<nat, Buf>, chains: map<nat, Chain>, phase: map<nat, Phase>, h: nat)
    requires BufsOk(bufs, chains, phase) && h in chains && h in phase
    ensures chains[h].b in bufs
    ensures BufsOk(bufs[chains[h].b := bufs[chains[h].b].(disk := false)], chains, phase[h := Reaped])
  {
  }

  lemma BufGone(bufs: map<nat, Buf>, chains: map<nat, Chain>, phase: map<nat, Phase>, h: nat)
    requires BufsOk(bufs, chains, phase) && h in chains && h in phase && phase[h] == Reaped
    ensures BufsOk(bufs, chains - {h}, phase - {h})
  {
    forall b | b in bufs && bufs[b].disk
      ensures exists g :: g in chains - {h} && (chains - {h})[g].b == b
    {
      var g :| g in chains && chains[g].b == b;
      assert g != h && g in chains - {h};
    }
  }

  lemma StatusPhase(q: Queue, phase: map<nat, Phase>, h: nat, p: Phase)
    requires StatusOk(q, phase) && p != Completed && p != Reaped
    ensures StatusOk(q, phase[h := p])
  {
  }

  lemma StatusReaped(q: Queue, phase: map<nat, Phase>, h: nat)
    requires StatusOk(q, phase) && h in phase && phase[h] == Completed
    ensures StatusOk(q, phase[h := Reaped])
  {
  }

  lemma StatusGone(q: Queue, r: Queue, phase: map<nat, Phase>, h: nat)
    requires StatusOk(q, phase) && Shaped(r) && forall i: nat :: i < NUM ==> r.info[i].status == q.info[i].status
    ensures StatusOk(r, phase - {h})
  {
  }

  /** The device's 0 goes to the status byte of the chain. */
  lemma StatusWritten(q: Queue, chains: map<nat, Chain>, phase: map<nat, Phase>, h: nat)
    requires QueueOk(q, chains) && StatusOk(q, phase) && h < NUM
    ensures var r := q.(info := q.info[h := Info(q.info[h].b, 0)]);
            QueueOk(r, chains) && StatusOk(r, phase[h := Completed])
  {
    hide InUse, ChainAt, Apart;
    StillChains(q, q.(info := q.info[h := Info(q.info[h].b, 0)]), chains);
  }

  lemma OtherShort(list: seq<nat>, phase: map<nat, Phase>, p: Phase, h: nat)
    requires ListOk(list, phase, p) && h in phase && phase[h] != p && |phase| <= 2
    ensures |list| < 2
  {
    DistinctCount(list);
    forall g | g in Elems(list)
      ensures g in phase.Keys - {h}
    {
      assert g in list;
    }
    SubsetCount(Elems(list), phase.Keys - {h});
  }

  lemma OthersInUse(q: Queue, r: Queue, chains: map<nat, Chain>, h: nat)
    requires QueueOk(q, chains) && h in chains && Shaped(r) && r.ops == q.ops
    requires forall i: nat :: i < NUM && !Uses(h, chains[h], i) ==> r.desc[i] == q.desc[i] && r.info[i].b == q.info[i].b
    ensures SameInUse(q, r, chains - {h})
  {
    hide ChainAt, Apart, InUse;
    forall i: nat | i < NUM && InUse(chains - {h}, i)
      ensures !Uses(h, chains[h], i)
    {
      InUseWithout(q, chains, h, i);
    }
  }
}
