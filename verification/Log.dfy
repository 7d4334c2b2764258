/** The logging layer of kernel/log.c on top of the buffer cache: group commit of the
    operations in progress, absorption, pinning, and recovery. */
module Log {
  import opened Blocks
  import opened Counting
  import opened RedoLog
  import opened BufferCache

  // ----- the cache as the log sees it

  /** at[k] is the buffer of logged block blocks[k]; those buffers are pinned, once, and no
      others are. */
  ghost predicate Tracks(buf: seq<Buf>, pins: seq<nat>, blocks: seq<Word>, at: seq<nat>)
    requires |buf| == NBUF + 1 && |pins| == NBUF
  {
    && |at| == |blocks|
    && (forall k :: 0 <= k < |at| ==>
          at[k] < NBUF && Holds(buf[at[k]], blocks[k]) && buf[at[k]].valid && pins[at[k]] == 1)
    && (forall i :: 0 <= i < NBUF && pins[i] > 0 ==> i in at)
  }

  /** What the other processes have of a buffer: references, and perhaps its lock, the block they
      read it for and the data they read. */
  datatype Use = Use(refs: nat, locked: bool, blockno: nat, data: Block)

  /** Every reference to a buffer is a pin, another process's, or ours. Nobody else holds a
      pinned buffer or a block of the log, and what they hold is as they left it. */
  ghost predicate UseOk(b: Buf, pin: nat, u: Use, region: Region, mine: bool) {
    && b.refcnt == pin + u.refs + (if mine then 1 else 0)
    && b.locked == (mine || u.locked)
    && (u.locked ==> !mine && pin == 0 && u.refs > 0 && b.blockno == u.blockno && b.data == u.data)
    && (pin + u.refs > 0 ==> !region.Has(b.blockno))
  }

  ghost predicate Accounted(buf: seq<Buf>, pins: seq<nat>, others: seq<Use>, region: Region, mine: set<nat>) {
    && |buf| == NBUF + 1 && |pins| == NBUF && |others| == NBUF
    && (forall i :: 0 <= i < NBUF ==> UseOk(buf[i], pins[i], others[i], region, i in mine))
  }

  /** No other process has any buffer. */
  ghost predicate Nobody(others: seq<Use>) {
    |others| == NBUF && forall i :: 0 <= i < NBUF ==> others[i].refs == 0 && !others[i].locked
  }

  /** A buffer that bget could recycle. */
  ghost predicate Spare(buf: seq<Buf>) {
    |buf| == NBUF + 1 && exists i :: 0 <= i < NBUF && buf[i].refcnt == 0
  }

  /** The unpinned buffers that other processes have. */
  ghost function Held(pins: seq<nat>, others: seq<Use>): (s: set<nat>)
    requires |pins| == NBUF && |others| == NBUF
    ensures forall i :: i in s <==> 0 <= i < NBUF && pins[i] == 0 && others[i].refs > 0
  {
    set i | 0 <= i < NBUF && pins[i] == 0 && others[i].refs > 0
  }

  /** Only logged blocks differ from their disk copies. */
  ghost predicate DirtyOnly(flat: Disk, disk: Disk, blocks: seq<Word>) {
    |flat| == |disk| && forall b :: 0 <= b < |flat| && disk[b] != flat[b] ==> b in blocks
  }

  // ----- counting buffers

  /** The buffers of the logged blocks are the pinned ones. */
  lemma PinnedAre(buf: seq<Buf>, pins: seq<nat>, blocks: seq<Word>, at: seq<nat>)
    requires |buf| == NBUF + 1 && |pins| == NBUF && Tracks(buf, pins, blocks, at) && Distinct(blocks)
    ensures forall i :: i in Elems(at) <==> 0 <= i < NBUF && pins[i] > 0
    ensures |Elems(at)| == |blocks|
  {
    assert Distinct(at);
    DistinctCount(at);
  }

  /** There is a buffer to recycle exactly if the logged blocks and the buffers other processes
      have are fewer than the buffers. */
  lemma SpareExact(buf: seq<Buf>, pins: seq<nat>, blocks: seq<Word>, at: seq<nat>, others: seq<Use>, region: Region)
    requires |buf| == NBUF + 1 && |pins| == NBUF && Tracks(buf, pins, blocks, at) && Distinct(blocks)
    requires Accounted(buf, pins, others, region, {})
    ensures Spare(buf) <==> |blocks| + |Held(pins, others)| < NBUF
  {
    hide Tracks, Distinct, Elems, Held;
    PinnedAre(buf, pins, blocks, at);
    var taken := Elems(at) + Held(pins, others);
    forall i | 0 <= i < NBUF
      ensures i in taken <==> buf[i].refcnt > 0
    {
      assert UseOk(buf[i], pins[i], others[i], region, false);
    }
    assert Elems(at) !! Held(pins, others);
    AllOrFewer(taken, NBUF);
  }

  // ----- reservations

  /** Log space the given operations have reserved and not used. */
  ghost function Unused(ops: map<nat, set<nat>>, who: set<nat>): nat
    requires who <= ops.Keys
  {
    if who == {} then 0
    else
      var o :| o in who;
      Unspent(ops[o]) + Unused(ops, who - {o})
  }

  function Unspent(logged: set<nat>): nat {
    if |logged| <= MAXOPBLOCKS then MAXOPBLOCKS - |logged| else 0
  }

  /** The sum does not depend on the order in which it is taken. */
  lemma {:induction false} UnusedSplit(ops: map<nat, set<nat>>, who: set<nat>, o: nat)
    requires who <= ops.Keys && o in who
    ensures Unused(ops, who) == Unspent(ops[o]) + Unused(ops, who - {o})
  {
    var p :| p in who && Unused(ops, who) == Unspent(ops[p]) + Unused(ops, who - {p});
    if p != o {
      UnusedSplit(ops, who - {p}, o);
      UnusedSplit(ops, who - {o}, p);
      assert who - {p} - {o} == who - {o} - {p};
    }
  }

  lemma {:induction false} UnusedAtMost(ops: map<nat, set<nat>>, who: set<nat>)
    requires who <= ops.Keys
    ensures Unused(ops, who) <= MAXOPBLOCKS * |who|
  {
    if who == {} {
      assert |who| == 0;
    } else {
      var o :| o in who && Unused(ops, who) == Unspent(ops[o]) + Unused(ops, who - {o});
      UnusedAtMost(ops, who - {o});
      assert |who| == |who - {o}| + 1;
      assert MAXOPBLOCKS * |who| == MAXOPBLOCKS * |who - {o}| + MAXOPBLOCKS;
      assert Unspent(ops[o]) <= MAXOPBLOCKS;
    }
  }

  lemma {:induction false} UnusedAgrees(ops: map<nat, set<nat>>, ops': map<nat, set<nat>>, who: set<nat>)
    requires who <= ops.Keys && who <= ops'.Keys && forall o :: o in who ==> ops[o] == ops'[o]
    ensures Unused(ops, who) == Unused(ops', who)
  {
    if who != {} {
      var o :| o in who && Unused(ops, who) == Unspent(ops[o]) + Unused(ops, who - {o});
      UnusedSplit(ops', who, o);
      UnusedAgrees(ops, ops', who - {o});
    }
  }

  /** One operation's share changes, the others keep theirs. */
  lemma UnusedUpdate(ops: map<nat, set<nat>>, o: nat, s: set<nat>)
    ensures Unused(ops[o := s], ops.Keys + {o}) == Unspent(s) + Unused(ops, ops.Keys - {o})
  {
    var who := ops.Keys + {o};
    UnusedSplit(ops[o := s], who, o);
    assert who - {o} == ops.Keys - {o};
    UnusedAgrees(ops[o := s], ops, who - {o});
  }

  /** The space in use and the unused reservations fit in the log; an operation's blocks are
      all logged and within its share. */
  ghost predicate Reserved(ops: map<nat, set<nat>>, blocks: seq<Word>) {
    && |blocks| + Unused(ops, ops.Keys) <= LOGSIZE
    && (forall o :: o in ops ==> |ops[o]| <= MAXOPBLOCKS)
    && (forall o, b :: o in ops && b in ops[o] ==> b in blocks)
  }

  /** The reservations after operation `op` has logged block b. */
  lemma SpendReserve(ops: map<nat, set<nat>>, op: nat, b: Word, blocks: seq<Word>, blocks': seq<Word>)
    requires op in ops && |ops[op] + {b}| <= MAXOPBLOCKS && Reserved(ops, blocks)
    requires blocks' == if b in blocks then blocks else blocks + [b]
    ensures Reserved(ops[op := ops[op] + {b}], blocks') && ops[op := ops[op] + {b}].Keys == ops.Keys
  {
    var ops' := ops[op := ops[op] + {b}];
    UnusedSplit(ops, ops.Keys, op);
    UnusedUpdate(ops, op, ops[op] + {b});
    assert ops'.Keys == ops.Keys + {op} == ops.Keys;
    SubsetCount(ops[op], ops[op] + {b});
    forall o, c | o in ops' && c in ops'[o]
      ensures c in blocks'
    {
      if c == b && b !in blocks {
        assert blocks'[|blocks|] == b;
      } else if c != b {
        assert c in ops[o];
      }
    }
  }

  /** An operation within its share that logs a block for the first time finds room in log.lh. */
  lemma RoomInHeader(ops: map<nat, set<nat>>, blocks: seq<Word>, op: nat, b: Word)
    requires Reserved(ops, blocks) && op in ops && |ops[op] + {b}| <= MAXOPBLOCKS && b !in blocks
    ensures |blocks| < LOGSIZE
  {
    assert b !in ops[op];
    UnusedSplit(ops, ops.Keys, op);
  }

  lemma NothingReserved()
    ensures Reserved(map[], [])
  {
  }

  /** A new operation takes a full reservation. */
  lemma BeginReserve(ops: map<nat, set<nat>>, op: nat, blocks: seq<Word>)
    requires op !in ops && Reserved(ops, blocks) && |blocks| + MAXOPBLOCKS * |ops| + MAXOPBLOCKS <= LOGSIZE
    ensures Reserved(ops[op := {}], blocks) && |ops[op := {}]| == |ops| + 1
  {
    hide Unused;
    UnusedAtMost(ops, ops.Keys);
    UnusedUpdate(ops, op, {});
    assert ops.Keys - {op} == ops.Keys && ops[op := {}].Keys == ops.Keys + {op};
  }

  /** A finished operation gives its reservation back. */
  lemma EndReserve(ops: map<nat, set<nat>>, op: nat, blocks: seq<Word>)
    requires op in ops && Reserved(ops, blocks)
    ensures Reserved(ops - {op}, blocks) && |ops - {op}| == |ops| - 1
  {
    UnusedSplit(ops, ops.Keys, op);
    assert (ops - {op}).Keys == ops.Keys - {op};
    UnusedAgrees(ops, ops - {op}, ops.Keys - {op});
  }

  /** Committing what the cache says delivers what the cache says. */
  lemma AfterIsFlat(s: Snapshot, region: Region, blocks: seq<Word>)
    requires DirtyOnly(s.flat, s.disk, blocks) && Loggable(s.disk, region, blocks)
    ensures After(s.disk, blocks, Picked(s.flat, blocks)) == s.flat
  {
    forall b | 0 <= b < |s.flat|
      ensures After(s.disk, blocks, Picked(s.flat, blocks))[b] == s.flat[b]
    {
      AfterReads(s.disk, region, blocks, Picked(s.flat, blocks), b);
      if b in blocks {
        var k :| 0 <= k < |blocks| && blocks[k] == b;
      }
    }
  }

  // ----- how the cache steps move the references

  ghost predicate SameKey(a: Buf, b: Buf) {
    a.dev == b.dev && a.blockno == b.blockno && a.valid == b.valid
  }

  /** Nobody else: what the other processes have when they have nothing. */
  ghost function NoOne(): (others: seq<Use>)
    ensures Nobody(others)
  {
    seq(NBUF, _ => Use(0, false, 0, ZeroBlock))
  }

  /** Buffers with nothing pinned and nobody about. */
  lemma NothingPinned(buf: seq<Buf>, pins: seq<nat>, others: seq<Use>, region: Region)
    requires Accounted(buf, pins, others, region, {}) && Nobody(others) && Tracks(buf, pins, [], [])
    ensures forall i :: 0 <= i < NBUF ==> buf[i].refcnt == 0 && !buf[i].locked
    ensures Spare(buf)
  {
    forall i | 0 <= i < NBUF
      ensures buf[i].refcnt == 0 && !buf[i].locked
    {
      assert UseOk(buf[i], pins[i], others[i], region, false);
    }
    assert buf[0].refcnt == 0;
  }

  /** Pinned buffers keep their blocks. */
  ghost predicate PinsStay(buf: seq<Buf>, buf': seq<Buf>, pins: seq<nat>) {
    && |buf| == |buf'| == NBUF + 1 && |pins| == NBUF
    && (forall i :: 0 <= i < NBUF && pins[i] > 0 && buf[i].valid ==> SameKey(buf'[i], buf[i]))
  }

  lemma PinsStayTwice(buf0: seq<Buf>, buf1: seq<Buf>, buf2: seq<Buf>, pins: seq<nat>)
    requires PinsStay(buf0, buf1, pins) && PinsStay(buf1, buf2, pins)
    ensures PinsStay(buf0, buf2, pins)
  {
    forall i | 0 <= i < NBUF && pins[i] > 0 && buf0[i].valid
      ensures SameKey(buf2[i], buf0[i])
    {
      assert SameKey(buf1[i], buf0[i]);
    }
  }

  /** Another process has taken a buffer that nobody had locked. */
  lemma Lent(buf: seq<Buf>, buf': seq<Buf>, pins: seq<nat>, others: seq<Use>, region: Region, i: nat)
    requires Accounted(buf, pins, others, region, {}) && |buf'| == NBUF + 1 && i < NBUF && pins[i] == 0
    requires forall k :: 0 <= k < NBUF && k != i ==> buf'[k] == buf[k]
    requires (buf[i].refcnt == 0 || !buf[i].locked) && buf'[i].locked && buf'[i].refcnt == buf[i].refcnt + 1
    requires !region.Has(buf'[i].blockno)
    ensures Accounted(buf', pins, others[i := Use(others[i].refs + 1, true, buf'[i].blockno, buf'[i].data)], region, {})
  {
    forall k | 0 <= k < NBUF && k != i
      ensures UseOk(buf'[k], pins[k], others[k], region, false)
    {
      assert UseOk(buf[k], pins[k], others[k], region, false);
    }
    assert UseOk(buf[i], pins[i], others[i], region, false);
  }

  lemma PinsCounted(buf: seq<Buf>, pins: seq<nat>, others: seq<Use>, region: Region)
    requires Accounted(buf, pins, others, region, {})
    ensures |buf| == NBUF + 1 && |pins| == NBUF && |others| == NBUF
    ensures forall k :: 0 <= k < NBUF ==> pins[k] <= buf[k].refcnt
  {
    forall k | 0 <= k < NBUF
      ensures pins[k] <= buf[k].refcnt
    {
      assert UseOk(buf[k], pins[k], others[k], region, false);
    }
  }

  /** The data of one of our buffers has changed. */
  lemma HeldStill(buf: seq<Buf>, pins: seq<nat>, others: seq<Use>, region: Region, mine: set<nat>, i: nat, data: Block)
    requires Accounted(buf, pins, others, region, mine) && i in mine && i < NBUF
    ensures Accounted(buf[i := buf[i].(data := data)], pins, others, region, mine)
  {
    forall k | 0 <= k < NBUF
      ensures UseOk(buf[i := buf[i].(data := data)][k], pins[k], others[k], region, k in mine)
    {
      assert UseOk(buf[k], pins[k], others[k], region, k in mine);
    }
  }

  /** One of our buffers has been released. */
  lemma ReleasedOne(buf: seq<Buf>, buf': seq<Buf>, pins: seq<nat>, others: seq<Use>, region: Region, mine: set<nat>,
                    i: nat)
    requires Accounted(buf, pins, others, region, mine) && i in mine && i < NBUF && buf[i].refcnt > 0
    requires SameButLinks(buf', buf[i := buf[i].(locked := false, refcnt := buf[i].refcnt - 1)])
    ensures Accounted(buf', pins, others, region, mine - {i})
    ensures forall k :: 0 <= k < NBUF ==> SameKey(buf'[k], buf[k])
  {
    forall k | 0 <= k < NBUF
      ensures UseOk(buf'[k], pins[k], others[k], region, k in mine - {i})
    {
      assert UseOk(buf[k], pins[k], others[k], region, k in mine);
    }
  }

  /** The pins stay right as long as pinned buffers keep their blocks. */
  lemma KeepTracks(buf: seq<Buf>, buf': seq<Buf>, pins: seq<nat>, blocks: seq<Word>, at: seq<nat>)
    requires |buf| == |buf'| == NBUF + 1 && |pins| == NBUF && Tracks(buf, pins, blocks, at)
    requires PinsStay(buf, buf', pins)
    ensures Tracks(buf', pins, blocks, at)
  {
  }

  /** Writing a block through to the disk makes nothing dirty. */
  lemma StillStable(s: Snapshot, region: Region, logged: seq<Word>, w: Write)
    requires DirtyOnly(s.flat, s.disk, logged) && Loggable(s.flat, region, logged) && w.at < |s.flat|
    ensures var t := s.Plus([w]);
            && DirtyOnly(t.flat, t.disk, logged) && Loggable(t.flat, region, logged)
            && t.flat[w.at] == t.disk[w.at] == w.data
  {
    PlusOne(s, w);
  }

  /** A held buffer is pinned and its block joins the list. */
  lemma AppendTracks(buf: seq<Buf>, buf': seq<Buf>, pins: seq<nat>, blocks: seq<Word>, at: seq<nat>, i: nat, b: Word)
    requires |buf| == |buf'| == NBUF + 1 && |pins| == NBUF && i < NBUF && Tracks(buf, pins, blocks, at)
    requires Holds(buf[i], b) && buf[i].valid && b !in blocks
    requires forall k :: 0 <= k < NBUF ==> SameKey(buf'[k], buf[k])
    ensures Tracks(buf', pins[i := pins[i] + 1], blocks + [b], at + [i])
  {
    var at', pins' := at + [i], pins[i := pins[i] + 1];
    assert i !in at;
    forall k | 0 <= k < NBUF && pins'[k] > 0
      ensures k in at'
    {
      assert k == i ==> at'[|at|] == k;
    }
  }

  /** Logging a block, appended or absorbed, makes no other block dirty. */
  lemma LoggedStable(s: Snapshot, region: Region, blocks: seq<Word>, blocks': seq<Word>, b: Word, x: Block)
    requires DirtyOnly(s.flat, s.disk, blocks) && Loggable(s.flat, region, blocks)
    requires b < |s.flat| && !region.Has(b)
    requires b in blocks ==> blocks' == blocks
    requires b !in blocks ==> blocks' == blocks + [b] && |blocks| < LOGSIZE && |blocks| < region.size - 1
    ensures DirtyOnly(s.flat[b := x], s.disk, blocks') && Loggable(s.flat[b := x], region, blocks')
  {
    forall h | 0 <= h < |s.flat| && s.disk[h] != s.flat[b := x][h]
      ensures h in blocks'
    {
      if h == b && b !in blocks {
        assert blocks'[|blocks|] == b;
      } else if h != b {
        assert h in blocks;
      }
    }
  }

  /** The first logged block, installed and unpinned, leaves the list. */
  lemma DropTracks(buf: seq<Buf>, buf': seq<Buf>, pins: seq<nat>, blocks: seq<Word>, at: seq<nat>)
    requires |buf| == |buf'| == NBUF + 1 && |pins| == NBUF && Tracks(buf, pins, blocks, at)
    requires Distinct(blocks) && blocks != []
    requires PinsStay(buf, buf', pins)
    ensures Tracks(buf', pins[at[0] := pins[at[0]] - 1], blocks[1..], at[1..])
  {
    forall i | 0 <= i < NBUF && i in at && i != at[0]
      ensures i in at[1..]
    {
      var k :| 0 <= k < |at| && at[k] == i;
      assert at[1..][k - 1] == i;
    }
    assert forall k :: 0 < k < |at| ==> at[k] != at[0];
  }

  lemma ShorterStable(flat: Disk, disk: Disk, region: Region, logged: seq<Word>)
    requires DirtyOnly(flat, disk, logged) && Loggable(flat, region, logged) && logged != []
    requires logged[0] < |flat| && disk[logged[0]] == flat[logged[0]]
    ensures DirtyOnly(flat, disk, logged[1..]) && Loggable(flat, region, logged[1..])
  {
    forall b | 0 <= b < |flat| && disk[b] != flat[b]
      ensures b in logged[1..]
    {
      var k :| 0 <= k < |logged| && logged[k] == b;
      assert logged[1..][k - 1] == b;
    }
  }

  /** Who comes at the g-th point of a schedule of readers. */
  function Gap(readers: seq<seq<Word>>, g: nat): seq<Word> {
    if g < |readers| then readers[g] else []
  }

  predicate NobodyComes(readers: seq<seq<Word>>) {
    forall g :: 0 <= g < |readers| ==> readers[g] == []
  }

  lemma NoGap(readers: seq<seq<Word>>, g: nat)
    ensures NobodyComes(readers) ==> Gap(readers, g) == []
    ensures readers == [] ==> NobodyComes(readers)
  {
  }

  /** The plan is the copies, the header, the home blocks and the header again. */
  ghost predicate InOrder(s: Snapshot, region: Region, blocks: seq<Word>, data: seq<Block>, plan: seq<Write>)
    requires region.FitsIn(s.flat) && |blocks| == |data| && Loggable(s.flat, region, blocks)
  {
    exists last :: plan == LogWrites(region, data) + [Write(region.start, HeaderImage(s.flat[region.start], blocks))]
                           + HomeWrites(blocks, data) + [last]
  }

  class Log {
    const cache: BCache
    const region: Region
    var outstanding: nat
    var committing: bool
    /** log.lh */
    var n: nat
    var block: seq<Word>
    /** The operations in progress, each with the blocks it has logged. */
    ghost var ops: map<nat, set<nat>>
    /** The buffer of each logged block. */
    ghost var at: seq<nat>

    constructor (cache: BCache, region: Region)
      ensures this.cache == cache && this.region == region && n == 0 && outstanding == 0 && !committing
      ensures |block| == LOGSIZE && ops == map[] && at == []
    {
      this.cache, this.region := cache, region;
      n, outstanding, committing := 0, 0, false;
      block := seq(LOGSIZE, _ => 0);
      ops := map[];
      at := [];
    }

    ghost function Snap(): Snapshot
      reads cache, cache.disk
    {
      Snapshot(cache.flat, cache.disk.blocks, cache.disk.writes)
    }

    /** The cache carries exactly the changes to `logged`, each pinned once. */
    ghost predicate Stable(logged: seq<Word>, at: seq<nat>)
      reads cache, cache.disk
    {
      && cache.Valid()
      && |cache.buf| == NBUF + 1 && |cache.pins| == NBUF
      && region.FitsIn(cache.flat)
      && |at| == |logged|
      && Loggable(cache.flat, region, logged)
      && Tracks(cache.buf, cache.pins, logged, at)
      && DirtyOnly(cache.flat, cache.disk.blocks, logged)
    }

    /** Every reference is a pin, another process's, or to one of the buffers in `mine`. */
    ghost predicate Beside(others: seq<Use>, mine: set<nat>)
      reads cache
    {
      Accounted(cache.buf, cache.pins, others, region, mine)
    }

    /** The home block of entry `tail` is in a pinned buffer, or no buffer is in use at all. */
    ghost predicate HomeAt(tail: nat, pinned: nat)
      reads this, cache
    {
      && tail < |block| && tail + 1 < region.size && pinned < NBUF
      && region.FitsIn(cache.flat) && block[tail] < |cache.flat| && !region.Has(block[tail])
      && |cache.buf| == NBUF + 1 && |cache.pins| == NBUF
      && (Pinned(tail, pinned) || forall i :: 0 <= i < NBUF ==> cache.buf[i].refcnt == 0)
    }

    ghost predicate Pinned(tail: nat, pinned: nat)
      reads this, cache
      requires tail < |block| && pinned < NBUF && |cache.buf| == NBUF + 1 && |cache.pins| == NBUF
    {
      Holds(cache.buf[pinned], block[tail]) && cache.pins[pinned] > 0
    }

    /** bread of a block of the log. No other process has it, so there is no wait; false is the
        panic "bget: no buffers". */
    method ReadArea(b: nat, ghost others: seq<Use>) returns (ok: bool, l: nat)
      requires cache.Valid() && Beside(others, {}) && region.FitsIn(cache.flat) && region.Has(b)
      modifies cache`buf
      ensures ok <==> old(Spare(cache.buf))
      ensures !ok ==> cache.buf == old(cache.buf)
      ensures ok ==> cache.Valid() && cache.Locked(l) && Beside(others, {l}) && cache.pins[l] == 0
      ensures ok ==> others[l].refs == 0
      ensures ok ==> cache.buf[l].blockno == b && cache.buf[l].data == cache.flat[b]
      ensures ok ==> PinsStay(old(cache.buf), cache.buf, cache.pins)
      ensures ok ==> |old(cache.buf)| == NBUF + 1
      ensures ok ==> forall i :: 0 <= i < NBUF && i != l ==> cache.buf[i] == old(cache.buf)[i]
    {
      hide BCache.Valid;
      ghost var buf0 := cache.buf;
      assert forall i :: 0 <= i < NBUF ==> UseOk(buf0[i], cache.pins[i], others[i], region, false);
      var r := cache.Bread(ROOTDEV, b);
      if r.NoBuffers? {
        return false, 0;
      }
      ok, l := true, r.value;
      forall i | 0 <= i < NBUF
        ensures UseOk(cache.buf[i], cache.pins[i], others[i], region, i in {l})
      {
        assert UseOk(buf0[i], cache.pins[i], others[i], region, false);
      }
    }

    /** bread of a home block while l is held. */
    method ReadHome(tail: nat, l: nat, ghost pinned: nat, ghost others: seq<Use>) returns (h: nat)
      requires cache.Valid() && cache.Locked(l) && Beside(others, {l}) && tail < |block| && pinned < NBUF
      requires block[tail] < |cache.flat| && !region.Has(block[tail]) && region.Has(cache.buf[l].blockno)
      requires Pinned(tail, pinned) || forall i :: 0 <= i < NBUF && i != l ==> cache.buf[i].refcnt == 0
      modifies cache`buf
      ensures cache.Valid() && cache.Locked(h) && l != h && Beside(others, {l, h}) && cache.buf[l] == old(cache.buf)[l]
      ensures old(Pinned(tail, pinned)) ==> h == pinned
      ensures cache.buf[h].blockno == block[tail] && cache.buf[h].data == cache.flat[block[tail]]
      ensures PinsStay(old(cache.buf), cache.buf, cache.pins)
    {
      hide BCache.Valid;
      ghost var buf0 := cache.buf;
      cache.OneBuffer(block[tail]);
      assert forall i :: 0 <= i < NBUF ==> UseOk(buf0[i], cache.pins[i], others[i], region, i in {l});
      ghost var other := if l == 0 then 1 else 0;
      assert Holds(buf0[pinned], block[tail]) || buf0[other].refcnt == 0;
      var r := cache.Bread(ROOTDEV, block[tail]);
      h := r.value;
      forall i | 0 <= i < NBUF
        ensures UseOk(cache.buf[i], cache.pins[i], others[i], region, i in {l, h})
      {
        assert UseOk(buf0[i], cache.pins[i], others[i], region, i in {l});
      }
    }

    /** The two breads of write_log and install_trans: log block first. False is the panic "bget:
        no buffers", in the first of them. */
    method ReadPair(tail: nat, ghost pinned: nat, ghost others: seq<Use>) returns (ok: bool, l: nat, h: nat)
      requires cache.Valid() && Beside(others, {}) && HomeAt(tail, pinned)
      modifies cache`buf
      ensures ok <==> old(Spare(cache.buf))
      ensures !ok ==> cache.buf == old(cache.buf)
      ensures ok ==> cache.Valid() && cache.Locked(l) && cache.Locked(h) && l != h && Beside(others, {l, h})
      ensures ok ==> cache.pins[l] == 0 && others[l].refs == 0 && (old(Pinned(tail, pinned)) ==> h == pinned)
      ensures ok ==> cache.buf[l].blockno == region.start + 1 + tail
      ensures ok ==> cache.buf[l].data == cache.flat[region.start + 1 + tail]
      ensures ok ==> cache.buf[h].blockno == block[tail] && cache.buf[h].data == cache.flat[block[tail]]
      ensures ok ==> PinsStay(old(cache.buf), cache.buf, cache.pins)
    {
      hide BCache.Valid, Spare, Accounted;
      ghost var buf0, pins0 := cache.buf, cache.pins;
      h := 0;
      ok, l := ReadArea(region.start + 1 + tail, others);
      if ok {
        ghost var buf1 := cache.buf;
        h := ReadHome(tail, l, pinned, others);
        PinsStayTwice(buf0, buf1, cache.buf, pins0);
      }
    }

    /** The rest of a round: copy, write the copy out, perhaps unpin it, release both. */
    method Flush(dst: nat, src: nat, unpin: bool, ghost others: seq<Use>)
      requires cache.Valid() && cache.Locked(dst) && cache.Locked(src) && dst != src
      requires Beside(others, {dst, src})
      requires cache.buf[src].data == cache.flat[cache.buf[src].blockno]
      requires cache.pins[src] == 0 ==> cache.disk.blocks[cache.buf[src].blockno] == cache.flat[cache.buf[src].blockno]
      requires unpin ==> cache.pins[dst] > 0
      modifies cache`buf, cache`order, cache`released, cache`flat, cache`pins, cache.disk
      ensures cache.Valid() && Beside(others, {})
      ensures forall i :: 0 <= i < NBUF ==> SameKey(cache.buf[i], old(cache.buf)[i])
      ensures cache.pins == if unpin then old(cache.pins)[dst := old(cache.pins)[dst] - 1] else old(cache.pins)
      ensures Snap() == old(Snap()).Plus([Write(old(cache.buf)[dst].blockno, old(cache.buf)[src].data)])
    {
      assert UseOk(cache.buf[dst], cache.pins[dst], others[dst], region, true);
      WriteOut(dst, cache.buf[src].data, unpin);
      assert cache.buf[dst].blockno != cache.buf[src].blockno;
      ReleaseBoth(src, dst, others);
    }

    method WriteOut(dst: nat, data: Block, unpin: bool)
      requires cache.Valid() && cache.Locked(dst)
      requires unpin ==> cache.pins[dst] > 0 && cache.buf[dst].refcnt > 1
      modifies cache`buf, cache`flat, cache`pins, cache.disk
      ensures cache.Valid() && cache.Locked(dst)
      ensures var b := old(cache.buf)[dst];
              && cache.buf == old(cache.buf)[dst := b.(data := data, refcnt := b.refcnt - if unpin then 1 else 0)]
              && cache.flat == old(cache.flat)[b.blockno := data]
              && cache.disk.blocks == old(cache.disk.blocks)[b.blockno := data]
              && b.blockno < |cache.flat| == |cache.disk.blocks|
              && Snap() == old(Snap()).Plus([Write(b.blockno, data)])
      ensures cache.pins == if unpin then old(cache.pins)[dst := old(cache.pins)[dst] - 1] else old(cache.pins)
    {
      cache.SetData(dst, data);
      cache.Bwrite(dst);
      PlusOne(old(Snap()), Write(cache.buf[dst].blockno, data));
      if unpin {
        cache.Bunpin(dst);
      }
    }

    /** A held buffer may be released: its contents are published, and on the disk unless it is
        pinned or somebody else refers to it. */
    ghost predicate Releasable(i: nat)
      reads cache, cache.disk
    {
      && cache.Locked(i) && |cache.pins| == NBUF && cache.buf[i].blockno < |cache.flat| == |cache.disk.blocks|
      && cache.buf[i].data == cache.flat[cache.buf[i].blockno]
      && (cache.pins[i] == 0 ==> cache.disk.blocks[cache.buf[i].blockno] == cache.flat[cache.buf[i].blockno])
    }

    method ReleaseBoth(a: nat, b: nat, ghost others: seq<Use>)
      requires cache.Valid() && Releasable(a) && Releasable(b) && a != b && Beside(others, {a, b})
      modifies cache`buf, cache`order, cache`released
      ensures cache.Valid() && Beside(others, {})
      ensures forall i :: 0 <= i < NBUF ==> SameKey(cache.buf[i], old(cache.buf)[i])
    {
      hide BCache.Valid;
      assert UseOk(cache.buf[a], cache.pins[a], others[a], region, true);
      assert UseOk(cache.buf[b], cache.pins[b], others[b], region, true);
      ghost var buf0 := cache.buf;
      cache.Brelse(a);
      ReleasedOne(buf0, cache.buf, cache.pins, others, region, {a, b}, a);
      assert {a, b} - {a} == {b};
      ghost var buf1 := cache.buf;
      cache.Brelse(b);
      ReleasedOne(buf1, cache.buf, cache.pins, others, region, {b}, b);
      assert {b} - {b} == {};
    }

    /** A whole round: home block to log block, or log block to home block. */
    method Transfer(tail: nat, toLog: bool, unpin: bool, ghost pinned: nat, ghost others: seq<Use>) returns (ok: bool)
      requires cache.Valid() && Beside(others, {}) && HomeAt(tail, pinned)
      requires cache.disk.blocks[region.start + 1 + tail] == cache.flat[region.start + 1 + tail]
      requires unpin ==> !toLog && Pinned(tail, pinned)
      requires toLog ==> Pinned(tail, pinned)
      modifies cache`buf, cache`order, cache`released, cache`flat, cache`pins, cache.disk
      ensures ok <==> old(Spare(cache.buf))
      ensures !ok ==> Snap() == old(Snap()) && cache.buf == old(cache.buf) && cache.pins == old(cache.pins)
      ensures ok ==> cache.Valid() && Beside(others, {}) && Spare(cache.buf)
      ensures ok ==> var src := if toLog then block[tail] else region.start + 1 + tail;
                     var dst := if toLog then region.start + 1 + tail else block[tail];
                     Snap() == old(Snap()).Plus([Write(dst, old(cache.flat)[src])])
      ensures ok ==>
              cache.pins == if unpin then old(cache.pins)[pinned := old(cache.pins)[pinned] - 1] else old(cache.pins)
      ensures ok ==> PinsStay(old(cache.buf), cache.buf, old(cache.pins))
    {
      hide BCache.Valid;
      var l, h;
      ok, l, h := ReadPair(tail, pinned, others);
      if ok {
        ghost var buf1, pins1 := cache.buf, cache.pins;
        if toLog {
          Flush(l, h, false, others);
        } else {
          assert {l, h} == {h, l};
          Flush(h, l, unpin, others);
        }
        assert UseOk(cache.buf[l], cache.pins[l], others[l], region, false);
        PinsStayTwice(old(cache.buf), buf1, cache.buf, pins1);
      }
    }

    // ----- other processes come in between

    /** bread by a process that is in no operation would succeed at once, for a block that is not in
        the transaction. */
    predicate CanArrive(b: Word)
      reads this, cache, cache.disk
    {
      && |cache.buf| == NBUF + 1 && |block| == LOGSIZE && n <= LOGSIZE
      && b < |cache.disk.blocks| && !region.Has(b) && b !in block[..n]
      && (forall i :: 0 <= i < NBUF && Holds(cache.buf[i], b) ==> !cache.buf[i].locked)
      && (exists i :: 0 <= i < NBUF && (cache.buf[i].refcnt == 0 || Holds(cache.buf[i], b)))
    }

    /** It does: from then on the process is one of the others. */
    method Arrive(b: Word, ghost others: seq<Use>, ghost logged: seq<Word>, ghost at: seq<nat>)
        returns (i: nat, ghost others': seq<Use>)
      requires Stable(logged, at) && Beside(others, {}) && CanArrive(b) && b !in logged
      modifies cache`buf
      ensures Stable(logged, at) && Beside(others', {}) && i < NBUF && cache.buf[i].data == cache.flat[b]
      ensures others' == others[i := Use(others[i].refs + 1, true, b, cache.flat[b])] && cache.pins[i] == 0
    {
      hide Loggable, DirtyOnly, BCache.Valid, Tracks, HeaderN, Accounted;
      ghost var buf0 := cache.buf;
      SameSizes();
      Unpinned(b, logged, at);
      PinsCounted(buf0, cache.pins, others, region);
      var r := cache.Bread(ROOTDEV, b);
      i := r.value;
      assert cache.pins[i] == 0;
      others' := others[i := Use(others[i].refs + 1, true, b, cache.flat[b])];
      Lent(buf0, cache.buf, cache.pins, others, region, i);
      KeepTracks(buf0, cache.buf, cache.pins, logged, at);
    }

    lemma SameSizes()
      requires cache.Valid()
      ensures |cache.flat| == |cache.disk.blocks|
    {
    }

    /** A block that is not logged is not in a pinned buffer. */
    lemma Unpinned(b: Word, logged: seq<Word>, at: seq<nat>)
      requires Stable(logged, at) && b !in logged
      ensures |cache.buf| == NBUF + 1 && |cache.pins| == NBUF
      ensures forall k :: 0 <= k < NBUF && Holds(cache.buf[k], b) ==> cache.pins[k] == 0
    {
      hide BCache.Valid, Loggable, DirtyOnly;
      assert forall j :: 0 <= j < |at| ==> Holds(cache.buf[at[j]], logged[j]);
    }

    /** What the other processes do between two rounds of the log's loops: the given blocks are read,
        those that can be. Nothing here depends on it that they do no more than that: they may also
        let buffers go. */
    method Meanwhile(readers: seq<Word>, ghost others: seq<Use>, ghost logged: seq<Word>, ghost at: seq<nat>)
        returns (ghost others': seq<Use>)
      requires |block| == LOGSIZE && n <= LOGSIZE && Stable(logged, at) && Beside(others, {})
      requires forall b :: b in logged ==> b in block[..n]
      modifies cache`buf
      ensures Stable(logged, at) && Beside(others', {})
      ensures readers == [] ==> others' == others && cache.buf == old(cache.buf)
    {
      hide Stable, Beside, CanArrive;
      others' := others;
      for k := 0 to |readers|
        invariant Stable(logged, at) && Beside(others', {})
        invariant k == 0 ==> others' == others && cache.buf == old(cache.buf)
      {
        ArriveLogged(readers[k]);
        if CanArrive(readers[k]) {
          var i;
          i, others' := Arrive(readers[k], others', logged, at);
        }
      }
    }

    lemma ArriveLogged(b: Word)
      requires |block| == LOGSIZE && n <= LOGSIZE
      ensures CanArrive(b) ==> b !in block[..n]
    {
    }

    /** One round of `write_log`. */
    method LogOne(tail: nat, ghost at: seq<nat>, ghost others: seq<Use>) returns (ok: bool)
      requires |block| == LOGSIZE && tail < n <= LOGSIZE
      requires Stable(block[..n], at) && Beside(others, {})
      modifies cache`buf, cache`order, cache`released, cache`flat, cache`pins, cache.disk
      ensures ok <==> old(Spare(cache.buf))
      ensures !ok ==> Snap() == old(Snap()) && cache.buf == old(cache.buf) && cache.pins == old(cache.pins)
      ensures ok ==> Stable(block[..n], at) && Beside(others, {}) && Spare(cache.buf)
      ensures ok ==> cache.pins == old(cache.pins)
      ensures ok ==> Snap() == old(Snap()).Plus([Write(region.start + 1 + tail, old(cache.flat)[block[tail]])])
    {
      hide BCache.Valid, Accounted, Spare;
      ghost var logged := block[..n];
      assert logged[tail] == block[tail];
      ok := Transfer(tail, true, false, at[tail], others);
      if ok {
        KeepTracks(old(cache.buf), cache.buf, cache.pins, logged, at);
        StillStable(old(Snap()), region, logged, Write(region.start + 1 + tail, old(cache.flat)[block[tail]]));
      }
    }

    /** One round of `install_trans`; `left` are the blocks still to be installed, or nothing
        when recovering. */
    method InstallOne(tail: nat, recovering: bool, ghost left: seq<Word>, ghost at: seq<nat>, ghost others: seq<Use>)
        returns (ok: bool)
      requires |block| == LOGSIZE && tail < n <= LOGSIZE && tail + 1 < region.size
      requires block[tail] < |cache.flat| && !region.Has(block[tail])
      requires Stable(left, at) && Beside(others, {})
      requires if recovering then left == [] && Nobody(others) else left != [] && left[0] == block[tail]
      modifies cache`buf, cache`order, cache`released, cache`flat, cache`pins, cache.disk
      ensures ok <==> old(Spare(cache.buf))
      ensures !ok ==> Snap() == old(Snap()) && cache.buf == old(cache.buf)
      ensures ok ==> if recovering then Stable(left, at) else Stable(left[1..], at[1..])
      ensures ok ==> Beside(others, {}) && Spare(cache.buf)
      ensures ok ==> Snap() == old(Snap()).Plus([Write(block[tail], old(cache.flat)[region.start + 1 + tail])])
    {
      hide BCache.Valid, Spare;
      if recovering {
        NothingPinned(cache.buf, cache.pins, others, region);
      }
      hide Accounted;
      ok := Transfer(tail, false, !recovering, if recovering then 0 else at[0], others);
      if !ok {
        return;
      }
      if recovering {
        KeepTracks(old(cache.buf), cache.buf, cache.pins, left, at);
        StillStable(old(Snap()), region, left, Write(block[tail], old(cache.flat)[region.start + 1 + tail]));
      } else {
        DropTracks(old(cache.buf), cache.buf, old(cache.pins), left, at);
        StillStable(old(Snap()), region, left, Write(block[tail], old(cache.flat)[region.start + 1 + tail]));
        ShorterStable(cache.flat, cache.disk.blocks, region, left);
      }
    }

    /** write_log has copied the first `tail` blocks of the transaction. */
    ghost predicate Logging(tail: nat, s0: Snapshot, others: seq<Use>)
      reads this, cache, cache.disk
    {
      && |block| == LOGSIZE && tail <= n <= LOGSIZE
      && |s0.flat| == |s0.disk| && region.FitsIn(s0.flat) && Loggable(s0.flat, region, block[..n])
      && Stable(block[..n], at) && Beside(others, {}) && (tail > 0 ==> Spare(cache.buf))
      && Snap() == s0.Plus(LogWrites(region, Picked(s0.flat, block[..n]))[..tail])
    }

    /** A round of `write_log`, after what other processes do before it. */
    method LogNext(tail: nat, readers: seq<Word>, ghost s0: Snapshot, ghost others: seq<Use>)
        returns (ok: bool, ghost others': seq<Use>)
      requires Logging(tail, s0, others) && tail < n
      modifies cache`buf, cache`order, cache`released, cache`flat, cache`pins, cache.disk
      ensures ok ==> Logging(tail + 1, s0, others') && Spare(cache.buf)
      ensures !ok ==> Snap() == old(Snap()) && !Spare(cache.buf)
      ensures readers == [] ==> (ok <==> old(Spare(cache.buf))) && others' == others
    {
      hide BCache.Valid, Tracks, Accounted, Spare, Apply;
      ghost var blocks := block[..n];
      ghost var data := Picked(s0.flat, blocks);
      assert blocks[tail] == block[tail];
      ApplyLog(s0.flat, region, data, tail, block[tail]);
      PlusNext(s0, LogWrites(region, data), tail);
      assert LogWrites(region, data)[tail] == Write(region.start + 1 + tail, cache.flat[block[tail]]);
      others' := Meanwhile(readers, others, blocks, at);
      ok := LogOne(tail, at, others');
    }

    /** `write_log`, whose copies are `ws`; readers[g] come before round g. False is the panic "bget: no
        buffers". If nobody comes, it comes at the first log block or not at all. */
    method WriteLog(readers: seq<seq<Word>>, ghost ws: seq<Write>, ghost others: seq<Use>)
        returns (ok: bool, ghost others': seq<Use>)
      requires Logging(0, Snap(), others) && ws == LogWrites(region, Picked(Snap().flat, block[..n]))
      modifies cache`buf, cache`order, cache`released, cache`flat, cache`pins, cache.disk
      ensures ok ==> Logging(n, old(Snap()), others') && (n > 0 ==> Spare(cache.buf))
      ensures !ok ==> !Spare(cache.buf) && exists j :: Behind(old(Snap()), ws, j)
      ensures NobodyComes(readers) ==> (ok <==> n == 0 || old(Spare(cache.buf))) && others' == others
      ensures NobodyComes(readers) && !ok ==> Snap() == old(Snap())
    {
      hide Logging, Spare, Snap, Behind;
      var tail := 0;
      others' := others;
      while tail < n
        invariant tail <= n && Logging(tail, old(Snap()), others')
        invariant tail > 0 ==> Spare(cache.buf)
        invariant tail == 0 ==> Spare(cache.buf) == old(Spare(cache.buf)) && Snap() == old(Snap()) && others' == others
        invariant NobodyComes(readers) ==> others' == others && (tail > 0 ==> old(Spare(cache.buf)))
      {
        LoggingBehind(tail, old(Snap()), others', ws);
        ghost var s1 := Snap();
        ok, others' := LogNext(tail, Gap(readers, tail), old(Snap()), others');
        if !ok {
          BehindStill(old(Snap()), s1, ws, tail);
          return;
        }
        tail := tail + 1;
      }
      ok := true;
    }

    /** The disk has had the first j of the given writes since s0. */
    ghost predicate Behind(s0: Snapshot, ws: seq<Write>, j: nat)
      reads cache, cache.disk
    {
      j <= |ws| && Snap() == s0.Plus(ws[..j])
    }

    lemma LoggingBehind(tail: nat, s0: Snapshot, others: seq<Use>, ws: seq<Write>)
      requires Logging(tail, s0, others)
      requires Loggable(s0.flat, region, block[..n]) ==> ws == LogWrites(region, Picked(s0.flat, block[..n]))
      ensures tail <= |ws| && Snap() == s0.Plus(ws[..tail])
    {
    }

    lemma BehindStill(s0: Snapshot, s1: Snapshot, ws: seq<Write>, j: nat)
      requires j <= |ws| && s1 == s0.Plus(ws[..j]) && Snap() == s1
      ensures Behind(s0, ws, j)
    {
    }

    /** install_trans has installed the first `tail` blocks of the transaction. */
    ghost predicate Installing(tail: nat, recovering: bool, data: seq<Block>, s0: Snapshot, others: seq<Use>)
      reads this, cache, cache.disk
    {
      && |block| == LOGSIZE && tail <= n <= LOGSIZE && |data| == n && (if recovering then Nobody(others) else |at| == n)
      && |s0.flat| == |s0.disk| && region.FitsIn(s0.flat) && Loggable(s0.flat, region, block[..n])
      && (forall k :: 0 <= k < n ==> data[k] == s0.flat[region.start + 1 + k])
      && (if recovering then Stable([], []) else Stable(block[..n][tail..], at[tail..]))
      && Beside(others, {}) && Spare(cache.buf)
      && Snap() == s0.Plus(HomeWrites(block[..n], data)[..tail])
    }

    /** A round of `install_trans`, after what other processes do before it. */
    method InstallNext(tail: nat, recovering: bool, readers: seq<Word>, ghost data: seq<Block>, ghost s0: Snapshot,
                       ghost others: seq<Use>)
        returns (ok: bool, ghost others': seq<Use>)
      requires Installing(tail, recovering, data, s0, others) && tail < n && (recovering ==> readers == [])
      modifies cache`buf, cache`order, cache`released, cache`flat, cache`pins, cache.disk
      ensures ok ==> Installing(tail + 1, recovering, data, s0, others')
      ensures !ok ==> Snap() == old(Snap()) && !Spare(cache.buf)
      ensures readers == [] ==> ok && others' == others
    {
      hide BCache.Valid, Tracks, Accounted, Spare, DirtyOnly, Nobody, HeaderN, Apply;
      ghost var blocks := block[..n];
      assert blocks[tail] == block[tail];
      ApplyHome(s0.flat, blocks, data, tail, region.start + 1 + tail);
      PlusNext(s0, HomeWrites(blocks, data), tail);
      assert HomeWrites(blocks, data)[tail] == Write(block[tail], cache.flat[region.start + 1 + tail]);
      if recovering {
        others' := others;
        ok := InstallOne(tail, recovering, [], [], others');
      } else {
        others' := Meanwhile(readers, others, blocks[tail..], at[tail..]);
        ok := InstallOne(tail, recovering, blocks[tail..], at[tail..], others');
        assert blocks[tail..][1..] == blocks[tail + 1..] && at[tail..][1..] == at[tail + 1..];
      }
    }

    /** `install_trans`; readers[from + g] come before round g. False is the panic "bget: no buffers",
        which needs that somebody comes. */
    method InstallTrans(recovering: bool, readers: seq<seq<Word>>, from: nat, ghost data: seq<Block>,
                        ghost others: seq<Use>)
        returns (ok: bool, ghost others': seq<Use>)
      requires Installing(0, recovering, data, Snap(), others) && (recovering ==> NobodyComes(readers))
      modifies cache`buf, cache`order, cache`released, cache`flat, cache`pins, cache.disk
      ensures |data| == n <= |block|
      ensures ok ==> Installing(n, recovering, data, old(Snap()), others')
      ensures !ok ==> !Spare(cache.buf) && exists j :: Behind(old(Snap()), HomeWrites(block[..n], data), j)
      ensures NobodyComes(readers) ==> ok && others' == others
    {
      hide Installing, Spare, Snap, Behind;
      var tail := 0;
      others' := others;
      InstallingBehind(0, recovering, data, Snap(), others);
      ghost var ws := HomeWrites(block[..n], data);
      while tail < n
        invariant tail <= n && Installing(tail, recovering, data, old(Snap()), others')
        invariant NobodyComes(readers) ==> others' == others
      {
        InstallingBehind(tail, recovering, data, old(Snap()), others');
        ghost var s1 := Snap();
        ok, others' := InstallNext(tail, recovering, Gap(readers, from + tail), data, old(Snap()), others');
        if !ok {
          BehindStill(old(Snap()), s1, ws, tail);
          return;
        }
        tail := tail + 1;
      }
      ok := true;
    }

    lemma InstallingBehind(tail: nat, recovering: bool, data: seq<Block>, s0: Snapshot, others: seq<Use>)
      requires Installing(tail, recovering, data, s0, others)
      ensures |data| == n <= |block| && tail <= |HomeWrites(block[..n], data)|
      ensures Snap() == s0.Plus(HomeWrites(block[..n], data)[..tail])
    {
    }

    /** The loop of `write_head` over the header words. */
    method BuildHeader(prior: Block) returns (b: Block)
      requires |block| == LOGSIZE && n <= LOGSIZE
      ensures b == HeaderImage(prior, block[..n])
    {
      b := PutWord(prior, 0, n);
      for i := 0 to n
        invariant b == PutWords(PutWord(prior, 0, n), 1, block[..i])
      {
        b := PutWord(b, i + 1, block[i]);
        assert block[..i + 1][..i] == block[..i];
      }
    }

    /** `write_head` as the cache sees it. */
    method PutHeader(ghost others: seq<Use>) returns (ok: bool)
      requires |block| == LOGSIZE && n <= LOGSIZE && region.FitsIn(cache.flat)
      requires cache.Valid() && Beside(others, {})
      modifies cache`buf, cache`order, cache`released, cache`flat, cache`pins, cache.disk
      ensures ok <==> old(Spare(cache.buf))
      ensures !ok ==> Snap() == old(Snap()) && cache.buf == old(cache.buf)
      ensures ok ==> cache.Valid() && Beside(others, {}) && cache.pins == old(cache.pins) && Spare(cache.buf)
      ensures ok ==> PinsStay(old(cache.buf), cache.buf, cache.pins)
      ensures ok ==>
              Snap() == old(Snap()).Plus([Write(region.start, HeaderImage(old(Snap()).flat[region.start], block[..n]))])
    {
      hide BCache.Valid;
      ghost var buf0, pins0 := cache.buf, cache.pins;
      var l;
      ok, l := ReadArea(region.start, others);
      if !ok {
        return;
      }
      ghost var buf1 := cache.buf;
      assert UseOk(buf1[l], pins0[l], others[l], region, true);
      var image := BuildHeader(cache.buf[l].data);
      WriteOut(l, image, false);
      HeldStill(buf1, pins0, others, region, {l}, l, image);
      ghost var buf2 := cache.buf;
      cache.Brelse(l);
      ReleasedOne(buf2, cache.buf, pins0, others, region, {l}, l);
      assert {l} - {l} == {};
      assert cache.buf[l].refcnt == 0;
      PinsStayTwice(buf0, buf1, cache.buf, pins0);
    }

    /** `write_head`, after what other processes do before it. */
    method WriteHead(readers: seq<Word>, ghost logged: seq<Word>, ghost at: seq<nat>, ghost others: seq<Use>)
        returns (ok: bool, ghost others': seq<Use>)
      requires |block| == LOGSIZE && n <= LOGSIZE && Stable(logged, at) && Beside(others, {})
      requires forall b :: b in logged ==> b in block[..n]
      modifies cache`buf, cache`order, cache`released, cache`flat, cache`pins, cache.disk
      ensures ok ==> Stable(logged, at) && Beside(others', {}) && Spare(cache.buf)
      ensures ok ==>
              Snap() == old(Snap()).Plus([Write(region.start, HeaderImage(old(Snap()).flat[region.start], block[..n]))])
      ensures !ok ==> Snap() == old(Snap()) && !Spare(cache.buf)
      ensures readers == [] ==> (ok <==> old(Spare(cache.buf))) && others' == others
    {
      hide BCache.Valid, Accounted, Spare;
      others' := Meanwhile(readers, others, logged, at);
      ghost var buf1, s1 := cache.buf, Snap();
      ok := PutHeader(others');
      if ok {
        KeepTracks(buf1, cache.buf, cache.pins, logged, at);
        StillStable(s1, region, logged, Write(region.start, HeaderImage(s1.flat[region.start], block[..n])));
      }
    }

    /** The disk writes `commit` is about to issue. */
    ghost function Plan(): seq<Write>
      reads this, cache, cache.disk
      requires |block| == LOGSIZE && n <= LOGSIZE && Stable(block[..n], at)
    {
      if n == 0 then [] else CommitWrites(cache.disk.blocks, region, block[..n], Picked(cache.flat, block[..n]))
    }

    lemma StartLog(others: seq<Use>)
      requires |block| == LOGSIZE && n <= LOGSIZE
      requires Stable(block[..n], at) && Beside(others, {})
      ensures Logging(0, Snap(), others)
    {
      assert LogWrites(region, Picked(cache.flat, block[..n]))[..0] == [];
      PlusNone(Snap());
    }

    lemma StartInstall(recovering: bool, data: seq<Block>, others: seq<Use>)
      requires |block| == LOGSIZE && n <= LOGSIZE && |data| == n
      requires if recovering then Stable([], []) && Nobody(others) else Stable(block[..n], at) && |at| == n
      requires Loggable(cache.flat, region, block[..n]) && Beside(others, {}) && Spare(cache.buf)
      requires forall k :: 0 <= k < n ==> data[k] == cache.flat[region.start + 1 + k]
      ensures Installing(0, recovering, data, Snap(), others)
    {
      assert HomeWrites(block[..n], data)[..0] == [] && block[..n][0..] == block[..n];
      assert !recovering ==> at[0..] == at;
      PlusNone(Snap());
    }

    /** The last two steps of `commit`, and all of `recover_from_log` after read_head. If they stop, the
        disk has had some of the writes. */
    method InstallAndClear(recovering: bool, readers: seq<seq<Word>>, from: nat, ghost blocks: seq<Word>,
                           ghost data: seq<Block>, ghost others: seq<Use>)
        returns (ok: bool, ghost others': seq<Use>)
      requires |block| == LOGSIZE && n <= LOGSIZE && |data| == n && blocks == block[..n]
      requires recovering ==> Stable([], []) && Loggable(cache.flat, region, blocks) && Nobody(others)
      requires recovering ==> NobodyComes(readers)
      requires !recovering ==> Stable(blocks, at)
      requires Beside(others, {}) && Spare(cache.buf) && Logged(data)
      modifies this`n, this`at, cache`buf, cache`order, cache`released, cache`flat, cache`pins, cache.disk
      ensures ok ==> n == 0 && at == [] && Stable([], []) && Beside(others', {})
      ensures ok ==> Snap() == Cleared(old(Snap()), region, blocks, data)
      ensures !ok ==> !Spare(cache.buf) && exists j :: Behind(old(Snap()), HomeWrites(blocks, data), j)
      ensures NobodyComes(readers) ==> ok && others' == others
    {
      hide BCache.Valid, Tracks, DirtyOnly, Beside, Spare, Nobody, Behind;
      ghost var flat0, s0 := cache.flat, Snap();
      ghost var ws := HomeWrites(blocks, data);
      StartInstall(recovering, data, others);
      ok, others' := InstallTrans(recovering, readers, from, data, others);
      if !ok {
        return;
      }
      assert ws[..n] == ws && blocks[n..] == [];
      assert !recovering ==> at[n..] == [];
      HeaderKept(flat0, region, blocks, data);
      ghost var s1 := Snap();
      var last := from + n;
      n, at := 0, [];
      assert block[..0] == [];
      NoGap(readers, last);
      ok, others' := WriteHead(Gap(readers, last), [], [], others');
      if !ok {
        assert ws[..|ws|] == ws;
        BehindStill(s0, s1, ws, |ws|);
      }
    }

    /** All of write_log. */
    method LogAll(readers: seq<seq<Word>>, ghost s0: Snapshot, ghost blocks: seq<Word>, ghost data: seq<Block>,
                  ghost others: seq<Use>)
        returns (ok: bool, ghost others': seq<Use>)
      requires |block| == LOGSIZE && 0 < n <= LOGSIZE && blocks == block[..n] && s0 == Snap()
      requires Stable(blocks, at) && Beside(others, {}) && data == Picked(s0.flat, blocks)
      modifies cache`buf, cache`order, cache`released, cache`flat, cache`pins, cache.disk
      ensures ok ==> Stable(blocks, at) && Beside(others', {}) && Spare(cache.buf)
      ensures ok ==> Snap() == s0.Plus(LogWrites(region, data))
      ensures !ok ==> !Spare(cache.buf) && exists j :: Behind(s0, LogWrites(region, data), j)
      ensures NobodyComes(readers) ==> (ok <==> old(Spare(cache.buf))) && others' == others
      ensures NobodyComes(readers) && !ok ==> Snap() == s0
    {
      hide Stable, Beside, Spare, Behind;
      assert LogWrites(region, data)[..n] == LogWrites(region, data);
      StartLog(others);
      ok, others' := WriteLog(readers, LogWrites(region, data), others);
    }

    /** The first two steps of `commit`. */
    method LogAndMark(readers: seq<seq<Word>>, ghost s0: Snapshot, ghost blocks: seq<Word>, ghost data: seq<Block>,
                      ghost others: seq<Use>)
        returns (ok: bool, ghost others': seq<Use>)
      requires |block| == LOGSIZE && 0 < n <= LOGSIZE && blocks == block[..n] && s0 == Snap()
      requires Stable(blocks, at) && Beside(others, {}) && data == Picked(s0.flat, blocks)
      modifies cache`buf, cache`order, cache`released, cache`flat, cache`pins, cache.disk
      ensures ok ==> Stable(blocks, at) && Beside(others', {}) && Spare(cache.buf)
      ensures ok ==> Snap() == Marked(s0, region, blocks) && Logged(data)
      ensures !ok ==> !Spare(cache.buf) && exists j :: Behind(s0, LogWrites(region, data), j)
      ensures NobodyComes(readers) ==> (ok <==> old(Spare(cache.buf))) && others' == others
      ensures NobodyComes(readers) && !ok ==> Snap() == s0
    {
      hide *;
      StableFacts(blocks);
      MarkedIs(s0, region, blocks);
      MarkedReads(s0, region, blocks);
      NoGap(readers, n);
      ok, others' := LogAll(readers, s0, blocks, data, others);
      if ok {
        ghost var s1 := Snap();
        ok, others' := WriteHead(Gap(readers, n), blocks, at, others');
        if ok {
          LoggedNow(s0, blocks, data);
        } else {
          AllWrites(LogWrites(region, data));
          BehindStill(s0, s1, LogWrites(region, data), |LogWrites(region, data)|);
        }
      }
    }

    lemma AllWrites(ws: seq<Write>)
      ensures ws[..|ws|] == ws
    {
    }

    lemma StableFacts(blocks: seq<Word>)
      requires Stable(blocks, at)
      ensures region.FitsIn(cache.flat) && region.FitsIn(Snap().flat) && Loggable(cache.flat, region, blocks)
      ensures Loggable(Snap().flat, region, blocks)
      ensures |at| == |blocks|
    {
    }

    lemma LoggedNow(s0: Snapshot, blocks: seq<Word>, data: seq<Block>)
      requires region.FitsIn(s0.flat) && Loggable(s0.flat, region, blocks) && data == Picked(s0.flat, blocks)
      requires Snap() == Marked(s0, region, blocks)
      ensures Logged(data)
    {
      MarkedReads(s0, region, blocks);
    }

    /** The log holds this data. */
    ghost predicate Logged(data: seq<Block>)
      reads cache
    {
      && region.FitsIn(cache.flat) && |data| < region.size
      && (forall k :: 0 <= k < |data| ==> data[k] == cache.flat[region.start + 1 + k])
    }

    /** `commit` with something to commit; `plan` are its writes. */
    method CommitNonEmpty(readers: seq<seq<Word>>, ghost s0: Snapshot, ghost blocks: seq<Word>, ghost data: seq<Block>,
                          ghost plan: seq<Write>, ghost others: seq<Use>)
        returns (ok: bool, ghost others': seq<Use>)
      requires |block| == LOGSIZE && 0 < n <= LOGSIZE && blocks == block[..n] && s0 == Snap()
      requires Stable(blocks, at) && Beside(others, {}) && data == Picked(s0.flat, blocks)
      requires region.FitsIn(s0.flat) && Loggable(s0.flat, region, blocks) && InOrder(s0, region, blocks, data, plan)
      modifies this`n, this`at, cache`buf, cache`order, cache`released, cache`flat, cache`pins, cache.disk
      ensures ok ==> n == 0 && at == [] && Stable([], []) && Beside(others', {})
      ensures ok ==> Snap() == Cleared(Marked(s0, region, blocks), region, blocks, data)
      ensures !ok ==> !Spare(cache.buf) && exists j :: Behind(s0, plan, j)
      ensures NobodyComes(readers) ==> (ok <==> old(Spare(cache.buf))) && others' == others
      ensures NobodyComes(readers) && !ok ==> Snap() == s0 && n == old(n)
    {
      hide *;
      NoGap(readers, n);
      ok, others' := LogAndMark(readers, s0, blocks, data, others);
      if !ok {
        ghost var j: nat :| Behind(s0, LogWrites(region, data), j);
        EarlyBehind(s0, blocks, data, plan, j);
        return;
      }
      ghost var s1 := Snap();
      ok, others' := InstallAndClear(false, readers, n + 1, blocks, data, others');
      if !ok {
        ghost var j: nat :| Behind(s1, HomeWrites(blocks, data), j);
        LateBehind(s0, blocks, data, plan, j);
      }
    }

    lemma EarlyBehind(s0: Snapshot, blocks: seq<Word>, data: seq<Block>, plan: seq<Write>, j: nat)
      requires region.FitsIn(s0.flat) && Loggable(s0.flat, region, blocks) && |data| == |blocks|
      requires InOrder(s0, region, blocks, data, plan) && Behind(s0, LogWrites(region, data), j)
      ensures Behind(s0, plan, j)
    {
      assert plan[..j] == LogWrites(region, data)[..j];
    }

    lemma LateBehind(s0: Snapshot, blocks: seq<Word>, data: seq<Block>, plan: seq<Write>, j: nat)
      requires region.FitsIn(s0.flat) && Loggable(s0.flat, region, blocks) && data == Picked(s0.flat, blocks)
      requires InOrder(s0, region, blocks, data, plan)
      requires Behind(Marked(s0, region, blocks), HomeWrites(blocks, data), j)
      ensures Behind(s0, plan, |blocks| + 1 + j)
    {
      var log, head := LogWrites(region, data), [Write(region.start, HeaderImage(s0.flat[region.start], blocks))];
      PlusPlus(s0, log, head);
      PlusPlus(s0, log + head, HomeWrites(blocks, data)[..j]);
      assert plan[..|blocks| + 1 + j] == log + head + HomeWrites(blocks, data)[..j];
    }

    /** Between system calls, and in the middle of any number of them. */
    ghost predicate Valid()
      reads this, cache, cache.disk
    {
      && |block| == LOGSIZE && n <= LOGSIZE
      && Stable(block[..n], at)
      && HeaderN(cache.disk.blocks, region) == 0
      && outstanding == |ops|
      && (committing ==> outstanding == 0)
      && (outstanding == 0 && !committing ==> n == 0)
    }

    /** The operations in progress have kept to MAXOPBLOCKS. */
    ghost predicate InShares()
      reads this
    {
      |block| == LOGSIZE && n <= LOGSIZE && Reserved(ops, block[..n])
    }

    /** The buffers that a commit cannot recycle: one for each logged block, and those that other
        processes have. */
    ghost function Busy(others: seq<Use>): nat
      reads this, cache
      requires |cache.pins| == NBUF && |others| == NBUF
    {
      n + |Held(cache.pins, others)|
    }

    lemma SpareBusy(others: seq<Use>)
      requires Valid() && Beside(others, {})
      ensures Spare(cache.buf) <==> Busy(others) < NBUF
    {
      SpareExact(cache.buf, cache.pins, block[..n], at, others, region);
    }

    /** What commit is about to write is atomic between the disk and what the cache says, that is,
        what all operations since the last commit have made of it. */
    lemma PlanAtomic()
      requires Valid()
      ensures Atomic(cache.disk.blocks, region, Plan(), cache.flat)
    {
      hide Atomic;
      var blocks := block[..n];
      if n == 0 {
        assert cache.flat == cache.disk.blocks;
        NothingIsAtomic(cache.disk.blocks, region);
      } else {
        AfterIsFlat(Snap(), region, blocks);
        CommitIsAtomic(cache.disk.blocks, region, blocks, Picked(cache.flat, blocks));
      }
    }

    /** `commit`, while other processes hold buffers and come for more: readers[g] come at its g-th
        bread of a log block or of the header. A false result is the panic "bget: no buffers", at a
        moment when every buffer is pinned or in use; the disk has then had some of the writes, as
        after a crash. If nobody comes it succeeds exactly if a buffer is left to begin with. */
    method Commit(readers: seq<seq<Word>>, ghost others: seq<Use>) returns (ok: bool, ghost others': seq<Use>)
      requires Valid() && committing && Beside(others, {})
      modifies this`n, this`at, cache`buf, cache`order, cache`released, cache`flat, cache`pins, cache.disk
      ensures NobodyComes(readers) ==> (ok <==> old(n) == 0 || old(Busy(others)) < NBUF) && others' == others
      ensures NobodyComes(readers) && !ok ==> Snap() == old(Snap()) && n == old(n)
      ensures !ok ==> !Spare(cache.buf) && exists j :: Behind(old(Snap()), old(Plan()), j)
      ensures ok ==> n == 0 && at == [] && Stable([], []) && Beside(others', {})
      ensures ok ==> Snap() == old(Snap()).Plus(old(Plan()))
      ensures ok ==> SameHome(cache.flat, old(cache.flat), region)
      ensures ok ==> Valid()
    {
      hide *;
      SpareBusy(others);
      ValidFacts();
      if n == 0 {
        PlusNone(Snap());
        NothingToPlan();
        return true, others;
      }
      ghost var s0, blocks := Snap(), block[..n];
      PlanFacts(s0, blocks);
      ok, others' := CommitNonEmpty(readers, s0, blocks, Picked(s0.flat, blocks), Plan(), others);
      if ok {
        SnapFacts();
        NowValid();
      }
    }

    lemma ValidFacts()
      requires Valid()
      ensures |block| == LOGSIZE && n <= LOGSIZE && Stable(block[..n], at) && (committing ==> outstanding == 0)
      ensures region.FitsIn(cache.flat) && region.FitsIn(Snap().flat) && Snap().flat == cache.flat
      ensures outstanding == |ops|
      ensures Loggable(cache.flat, region, block[..n]) && forall k :: 0 <= k < n ==> block[..n][k] < |cache.flat|
    {
    }

    lemma NothingToPlan()
      requires Valid() && n == 0
      ensures Plan() == [] && at == [] && Stable([], []) && SameHome(cache.flat, cache.flat, region)
    {
      assert block[..n] == [];
    }

    /** The steps of commit are the plan; they leave the home blocks as the cache has them, and an
        empty log. */
    lemma PlanFacts(s0: Snapshot, blocks: seq<Word>)
      requires Valid() && n > 0 && s0 == Snap() && blocks == block[..n]
      ensures region.FitsIn(s0.flat) && Loggable(s0.flat, region, blocks) && |Picked(s0.flat, blocks)| == |blocks|
      ensures var s := Cleared(Marked(s0, region, blocks), region, blocks, Picked(s0.flat, blocks));
              && s == s0.Plus(Plan()) && SameHome(s.flat, s0.flat, region)
              && region.FitsIn(s.disk) && HeaderN(s.disk, region) == 0
      ensures InOrder(s0, region, blocks, Picked(s0.flat, blocks), Plan())
    {
      hide Tracks, BCache.Valid, Marked, Cleared, Apply;
      assert s0.flat[region.start] == s0.disk[region.start];
      CommitHalves(s0, region, blocks);
      CommitCompletes(s0.disk, region, blocks, Picked(s0.flat, blocks));
    }

    lemma NowValid()
      requires |block| == LOGSIZE && n == 0 && at == [] && Stable([], []) && outstanding == |ops|
      requires committing ==> outstanding == 0
      requires region.FitsIn(Snap().disk) && HeaderN(Snap().disk, region) == 0
      ensures Valid()
    {
      assert block[..n] == [];
    }

    // ----- operations

    /** One look of `begin_op` under the lock. False means the caller sleeps on &log: then an
        operation is in progress or a commit is, and either will wake it. */
    method BeginOp(ghost op: nat) returns (admitted: bool)
      requires Valid() && op !in ops
      modifies this`outstanding, this`ops
      ensures Valid() && (old(InShares()) ==> InShares())
      ensures admitted <==> !committing && n + (old(outstanding) + 1) * MAXOPBLOCKS <= LOGSIZE
      ensures admitted ==> outstanding == old(outstanding) + 1 && ops == old(ops)[op := {}]
      ensures !admitted ==> outstanding == old(outstanding) && ops == old(ops) && (committing || outstanding > 0)
    {
      hide Stable, Reserved;
      if committing || n + (outstanding + 1) * MAXOPBLOCKS > LOGSIZE {
        return false;
      }
      if InShares() {
        BeginReserve(ops, op, block[..n]);
      }
      outstanding, ops := outstanding + 1, ops[op := {}];
      admitted := true;
    }

    /** The scan of `log_write` for a block that is already logged. */
    method FindLogged(b: Word) returns (i: nat)
      requires |block| == LOGSIZE && n <= LOGSIZE
      ensures i <= n && (i < n ==> block[i] == b) && (i == n ==> b !in block[..n])
    {
      i := 0;
      while i < n && block[i] != b
        invariant i <= n && b !in block[..i]
      {
        i := i + 1;
      }
    }

    /** `log_write` of a held, modified buffer by operation `op`. A false result is one of the
        panics "too big a transaction" and "log_write outside of trans"; the first test comes
        before the search, so it can also hit a write that would have been absorbed. */
    method LogWrite(i: nat, ghost op: nat) returns (ok: bool)
      requires Valid() && cache.Locked(i) && !region.Has(cache.buf[i].blockno) && cache.buf[i].blockno < 0x1_0000_0000
      requires outstanding > 0 ==> op in ops
      modifies this`n, this`block, this`at, this`ops, cache`buf, cache`pins, cache`flat
      ensures Valid() && cache.Locked(i)
      ensures ok <==> old(n) < LOGSIZE && old(n) < region.size - 1 && outstanding > 0
      ensures !ok ==> n == old(n) && block == old(block) && ops == old(ops) && Snap() == old(Snap())
      ensures !ok ==> cache.buf == old(cache.buf)
      ensures ok ==> Recorded(old(cache.buf), old(cache.pins), old(block[..n]), i)
      ensures ok ==> cache.flat == old(cache.flat)[old(cache.buf[i].blockno) := old(cache.buf[i].data)]
      ensures ok ==> ops == old(ops)[op := old(ops[op]) + {old(cache.buf[i].blockno)}]
      ensures ok && old(InShares()) && |ops[op]| <= MAXOPBLOCKS ==> InShares()
    {
      hide Valid, Stable, InShares, BCache.Valid, Recorded;
      LockedFacts(i);
      if n >= LOGSIZE || n >= region.size - 1 {
        return false;
      }
      if outstanding < 1 {
        return false;
      }
      Record(i, op, cache.buf[i].blockno);
      ok := true;
    }

    lemma LockedFacts(i: nat)
      requires Valid() && cache.Locked(i)
      ensures cache.buf[i].blockno < |cache.flat| && |block| == LOGSIZE && n <= LOGSIZE
    {
    }

    /** The block of held buffer i is in the list, once; a new entry has pinned the buffer. */
    ghost predicate Recorded(buf0: seq<Buf>, pins0: seq<nat>, blocks0: seq<Word>, i: nat)
      reads this, cache
      requires i < |buf0| && |block| == LOGSIZE && n <= LOGSIZE
    {
      var b := buf0[i].blockno;
      && |pins0| == NBUF && i < NBUF
      && (b in blocks0 ==> block[..n] == blocks0 && cache.buf == buf0 && cache.pins == pins0)
      && (b !in blocks0 ==>
            && n > 0 && block[..n] == blocks0 + [block[n - 1]] && block[n - 1] == b
            && cache.buf == buf0[i := buf0[i].(refcnt := buf0[i].refcnt + 1)] && cache.pins == pins0[i := pins0[i] + 1])
    }

    /** The part of `log_write` after the tests. */
    method Record(i: nat, ghost op: nat, b: Word)
      requires Valid() && cache.Locked(i) && !region.Has(b) && cache.buf[i].blockno == b < |cache.flat|
      requires op in ops && n < LOGSIZE && n < region.size - 1
      modifies this`n, this`block, this`at, this`ops, cache`buf, cache`pins, cache`flat
      ensures Valid() && cache.Locked(i) && Recorded(old(cache.buf), old(cache.pins), old(block[..n]), i)
      ensures cache.flat == old(cache.flat)[b := old(cache.buf[i].data)] && ops == old(ops)[op := old(ops[op]) + {b}]
      ensures old(InShares()) && |ops[op]| <= MAXOPBLOCKS ==> InShares()
    {
      hide BCache.Valid, Reserved, Stable;
      ghost var blocks := block[..n];
      Enter(i, b);
      if Reserved(ops, blocks) && |ops[op] + {b}| <= MAXOPBLOCKS {
        SpendReserve(ops, op, b, blocks, block[..n]);
      }
      assert ops[op := ops[op] + {b}].Keys == ops.Keys;
      ops := ops[op := ops[op] + {b}];
    }

    /** The search, and the entry it finds or makes. */
    method Enter(i: nat, b: Word)
      requires Valid() && cache.Locked(i) && !region.Has(b) && cache.buf[i].blockno == b < |cache.flat|
      requires outstanding > 0 && n < LOGSIZE && n < region.size - 1
      modifies this`n, this`block, this`at, cache`buf, cache`pins, cache`flat
      ensures Valid() && cache.Locked(i) && Recorded(old(cache.buf), old(cache.pins), old(block[..n]), i)
      ensures cache.flat == old(cache.flat)[b := old(cache.buf[i].data)]
    {
      hide BCache.Valid, Tracks, DirtyOnly, Loggable, HeaderN;
      ghost var blocks, s0 := block[..n], Snap();
      var k := FindLogged(b);
      block := block[k := b];
      assert block[..n] == blocks;
      if k == n {
        Append(i);
      }
      cache.Publish(i);
      LoggedStable(s0, region, blocks, block[..n], b, cache.buf[i].data);
    }

    /** The `bpin` and the new entry. */
    method Append(i: nat)
      requires |block| == LOGSIZE && n < LOGSIZE && Stable(block[..n], at) && cache.Locked(i)
      requires cache.buf[i].blockno == block[n] && block[n] !in block[..n]
      modifies this`n, this`at, cache`buf, cache`pins
      ensures |old(cache.pins)| == NBUF && cache.pins == old(cache.pins)[i := old(cache.pins)[i] + 1]
      ensures n == old(n) + 1 && block[..n] == old(block[..n]) + [block[old(n)]]
      ensures cache.Valid() && |cache.pins| == NBUF && Tracks(cache.buf, cache.pins, block[..n], at)
      ensures cache.buf == old(cache.buf)[i := old(cache.buf)[i].(refcnt := old(cache.buf)[i].refcnt + 1)]
    {
      ghost var blocks := block[..n];
      cache.Bpin(i);
      AppendTracks(old(cache.buf), cache.buf, old(cache.pins), blocks, at, i, block[n]);
      assert block[..n + 1] == blocks + [block[n]];
      n := n + 1;
      at := at + [i];
    }

    /** The first critical section of `end_op`. Its panic "log.committing" cannot happen; the
        caller commits exactly when no operation is left. */
    method LeaveOp(ghost op: nat) returns (doCommit: bool)
      requires Valid() && op in ops
      modifies this`outstanding, this`committing, this`ops
      ensures Valid() && !old(committing) && (old(InShares()) ==> InShares())
      ensures outstanding == old(outstanding) - 1 && ops == old(ops) - {op}
      ensures doCommit == committing == (outstanding == 0)
    {
      hide Stable, Reserved;
      if InShares() {
        EndReserve(ops, op, block[..n]);
      }
      assert (ops - {op}).Keys == ops.Keys - {op};
      ops := ops - {op};
      outstanding := outstanding - 1;
      doCommit := outstanding == 0;
      committing := doCommit;
    }

    /** `end_op`. A false result is the panic in commit. When this was the last operation, all that
        the operations since the last commit have written is on its home blocks when end_op
        returns, and the block writes that put it there are atomic under any crashes; so are those of
        a commit that panics. */
    method EndOp(ghost op: nat, readers: seq<seq<Word>>, ghost others: seq<Use>)
        returns (ok: bool, ghost others': seq<Use>)
      requires Valid() && op in ops && (outstanding == 1 ==> Beside(others, {}))
      requires |others| == NBUF
      modifies this`n, this`at, this`outstanding, this`committing, this`ops
      modifies cache`buf, cache`order, cache`released, cache`flat, cache`pins, cache.disk
      ensures old(outstanding) > 1 ==> ok
      ensures NobodyComes(readers) ==> (ok <==> old(outstanding) > 1 || old(n) == 0 || old(Busy(others)) < NBUF)
      ensures NobodyComes(readers) ==> others' == others
      ensures NobodyComes(readers) && !ok ==> Snap() == old(Snap()) && n == old(n)
      ensures ok ==> Valid() && !committing && ops == old(ops) - {op} && SameHome(cache.flat, old(cache.flat), region)
      ensures ok && old(InShares()) ==> InShares()
      ensures !ok ==> !Spare(cache.buf) && exists j :: Behind(old(Snap()), old(Plan()), j)
      ensures old(outstanding) > 1 ==> Snap() == old(Snap()) && n == old(n) && block == old(block)
      ensures old(outstanding) > 1 ==> cache.buf == old(cache.buf) && cache.pins == old(cache.pins)
      ensures ok && old(outstanding) == 1 ==> n == 0 && cache.disk.blocks == cache.flat && Beside(others', {})
      ensures ok && old(outstanding) == 1 ==> Snap() == old(Snap()).Plus(old(Plan()))
      ensures Atomic(old(cache.disk.blocks), region, old(Plan()), old(cache.flat))
    {
      hide BCache.Valid, Reserved, Tracks, Atomic, Accounted, Behind, Spare, CommitWrites, Apply;
      PlanAtomic();
      var doCommit := LeaveOp(op);
      ok, others' := true, others;
      if doCommit {
        ok, others' := Commit(readers, others);
        if ok {
          committing := false;
          AloneInShares();
        }
      }
    }

    lemma AloneInShares()
      requires Valid() && n == 0 && outstanding == 0
      ensures InShares()
    {
      assert ops.Keys == {} && block[..n] == [];
    }

    /** `read_head`. */
    method ReadHead(ghost others: seq<Use>)
      requires |block| == LOGSIZE && Stable([], []) && Beside(others, {}) && Nobody(others)
      requires HeaderN(cache.flat, region) <= LOGSIZE
      modifies this`n, this`block, cache`buf, cache`order, cache`released
      ensures |block| == LOGSIZE && n == HeaderN(cache.flat, region) && block[..n] == HeaderBlocks(cache.flat, region)
      ensures Stable([], []) && Beside(others, {})
    {
      var image := CopyHeader(others);
      n := WordAt(image, 0);
      var list: seq<Word> := block;
      for i := 0 to n
        invariant |list| == LOGSIZE && forall k :: 0 <= k < i ==> list[k] == WordAt(image, k + 1)
      {
        list := list[i := WordAt(image, i + 1)];
      }
      block := list;
    }

    /** The bread and brelse of `read_head`. */
    method CopyHeader(ghost others: seq<Use>) returns (image: Block)
      requires Stable([], []) && Beside(others, {}) && Nobody(others)
      modifies cache`buf, cache`order, cache`released
      ensures Stable([], []) && Beside(others, {}) && image == cache.flat[region.start]
    {
      hide BCache.Valid;
      NothingPinned(cache.buf, cache.pins, others, region);
      StableClean();
      ghost var buf0 := cache.buf;
      var r := cache.Bread(ROOTDEV, region.start);
      KeepTracks(buf0, cache.buf, cache.pins, [], []);
      image := cache.buf[r.value].data;
      ghost var buf1 := cache.buf;
      cache.Brelse(r.value);
      KeepTracks(buf1, cache.buf, cache.pins, [], []);
    }

    /** `recover_from_log` at boot, over a fresh cache. */
    method RecoverFromLog(ghost others: seq<Use>)
      requires |block| == LOGSIZE && n == 0 && at == [] && ops == map[] && outstanding == 0 && !committing
      requires Stable([], []) && Beside(others, {}) && Nobody(others) && GoodHeader(cache.disk.blocks, region)
      modifies this`n, this`block, this`at, cache`buf, cache`order, cache`released, cache`flat, cache`pins, cache.disk
      ensures Valid() && InShares() && Beside(others, {})
      ensures Snap() == old(Snap()).Plus(RecoveryWrites(old(cache.disk.blocks), region))
    {
      hide BCache.Valid, Tracks, Stable, Beside, Nobody, Spare;
      ghost var s0 := Snap();
      StableClean();
      ReadHead(others);
      SpareAtBoot(others);
      ghost var data := LoggedData(s0.disk, region);
      RecoverySteps(s0, region);
      var ok;
      ghost var others';
      ok, others' := InstallAndClear(true, [], 0, block[..n], data, others);
      assert block[..n] == [];
      NothingReserved();
    }

    lemma SpareAtBoot(others: seq<Use>)
      requires Stable([], []) && Beside(others, {}) && Nobody(others)
      ensures Spare(cache.buf)
    {
      NothingPinned(cache.buf, cache.pins, others, region);
    }

    lemma StableClean()
      requires Stable([], [])
      ensures Snap().flat == Snap().disk && region.FitsIn(cache.flat)
    {
    }

    /** bread by a process that is in no operation, as fileread does it: from then on the process
        is one of the others. */
    method ReaderTakes(b: Word, ghost others: seq<Use>) returns (i: nat, ghost others': seq<Use>)
      requires Valid() && Beside(others, {}) && CanArrive(b)
      modifies cache`buf
      ensures Valid() && Beside(others', {}) && i < NBUF && cache.buf[i].data == cache.flat[b]
      ensures others' == others[i := Use(others[i].refs + 1, true, b, cache.flat[b])] && cache.pins[i] == 0
    {
      hide Stable, Beside, HeaderN;
      i, others' := Arrive(b, others, block[..n], at);
    }

    /** With fewer than NBUF buffers in use a block that is neither logged nor locked can be read. */
    lemma Arrives(b: Word, others: seq<Use>)
      requires Valid() && Beside(others, {}) && b < |cache.flat| && !region.Has(b) && b !in block[..n]
      requires Busy(others) < NBUF && forall k :: 0 <= k < NBUF && others[k].locked ==> others[k].blockno != b
      ensures CanArrive(b)
    {
      hide Accounted, Tracks;
      ReadyBeside(b, others);
    }

    // ----- a whole operation

    /** bget will give the caller a buffer for block b at once: it is cached and nobody has it
        locked, or it is not cached and there is a buffer to recycle. */
    ghost predicate Ready(b: nat)
      reads cache
      requires |cache.buf| == NBUF + 1
    {
      && (forall i :: 0 <= i < NBUF && Holds(cache.buf[i], b) ==> !cache.buf[i].locked)
      && (Spare(cache.buf) || exists i :: 0 <= i < NBUF && Holds(cache.buf[i], b))
    }

    /** bread, and the change to b->data. */
    method Take(b: Word, data: Block, ghost others: seq<Use>) returns (i: nat)
      requires Valid() && Beside(others, {}) && b < |cache.flat| && !region.Has(b) && Ready(b)
      modifies cache`buf
      ensures Valid() && cache.Locked(i) && Beside(others, {i}) && i < |cache.buf| && cache.buf[i].blockno == b
      ensures cache.buf[i].data == data
    {
      hide Loggable, DirtyOnly, BCache.Valid;
      ghost var blocks, buf0 := block[..n], cache.buf;
      assert forall k :: 0 <= k < NBUF ==> UseOk(buf0[k], cache.pins[k], others[k], region, false);
      var r := cache.Bread(ROOTDEV, b);
      i := r.value;
      cache.SetData(i, data);
      KeepTracks(buf0, cache.buf, cache.pins, blocks, at);
    }

    /** brelse of a logged block. */
    method Give(i: nat, ghost others: seq<Use>)
      requires Valid() && cache.Locked(i) && Beside(others, {i})
      requires cache.buf[i].data == cache.flat[cache.buf[i].blockno] && cache.buf[i].blockno in block[..n]
      modifies cache`buf, cache`order, cache`released
      ensures Valid() && Beside(others, {})
    {
      hide Loggable, DirtyOnly;
      ghost var blocks, buf0 := block[..n], cache.buf;
      ghost var k :| 0 <= k < n && blocks[k] == cache.buf[i].blockno;
      assert i == at[k];
      assert UseOk(cache.buf[i], cache.pins[i], others[i], region, true);
      cache.Brelse(i);
      KeepTracks(buf0, cache.buf, cache.pins, blocks, at);
      ReleasedOne(buf0, cache.buf, cache.pins, others, region, {i}, i);
      assert {i} - {i} == {};
    }

    /** What a system call does to each block it changes: bread, change, log_write, brelse. */
    method UpdateBlock(b: Word, data: Block, ghost op: nat, ghost others: seq<Use>) returns (ok: bool)
      requires Valid() && Beside(others, {}) && Ready(b)
      requires b < |cache.flat| && !region.Has(b)
      requires op in ops
      modifies this`n, this`block, this`at, this`ops, cache`buf, cache`order, cache`released, cache`pins, cache`flat
      ensures ok <==> old(n) < LOGSIZE && old(n) < region.size - 1
      ensures !ok ==> n == old(n) && block == old(block) && ops == old(ops)
      ensures ok ==> Valid() && Beside(others, {}) && outstanding == old(outstanding)
      ensures ok && old(InShares()) && |old(ops[op]) + {b}| <= MAXOPBLOCKS ==> InShares()
      ensures ok ==> cache.flat == old(cache.flat)[b := data] && ops == old(ops)[op := old(ops[op]) + {b}]
      ensures ok ==> block[..n] == if b in old(block[..n]) then old(block[..n]) else old(block[..n]) + [b]
    {
      hide Valid, Stable, InShares, BCache.Valid, Recorded, Accounted, Ready;
      InProgress(op);
      var i := Take(b, data, others);
      ghost var buf1, pins1, blocks1 := cache.buf, cache.pins, block[..n];
      ok := LogWrite(i, op);
      if ok {
        RecordedFacts(buf1, pins1, blocks1, i, others);
        Give(i, others);
      }
    }

    lemma InProgress(op: nat)
      requires Valid() && op in ops
      ensures outstanding > 0 && |block| == LOGSIZE && n <= LOGSIZE
    {
      assert op in ops.Keys;
    }

    /** What is left to know after log_write: the entry is in the list, and the references still
        add up. */
    lemma RecordedFacts(buf0: seq<Buf>, pins0: seq<nat>, blocks0: seq<Word>, i: nat, others: seq<Use>)
      requires Valid() && i < |buf0| && Recorded(buf0, pins0, blocks0, i) && !region.Has(buf0[i].blockno)
      requires Accounted(buf0, pins0, others, region, {i})
      ensures Beside(others, {i}) && i < |cache.buf| && cache.buf[i].blockno == buf0[i].blockno
      ensures cache.buf[i].data == buf0[i].data && cache.buf[i].blockno in block[..n]
      ensures block[..n] == if buf0[i].blockno in blocks0 then blocks0 else blocks0 + [buf0[i].blockno]
    {
      assert UseOk(buf0[i], pins0[i], others[i], region, true);
      forall k | 0 <= k < NBUF
        ensures UseOk(cache.buf[k], cache.pins[k], others[k], region, k in {i})
      {
        assert UseOk(buf0[k], pins0[k], others[k], region, k in {i});
      }
    }

    /** The writes of one operation that the log can take. */
    ghost predicate Fits(ws: seq<Write>)
      reads cache
    {
      && region.size > MAXOPBLOCKS + 1
      && (forall k :: 0 <= k < |ws| ==> ws[k].at < |cache.flat| && ws[k].at < 0x1_0000_0000 && !region.Has(ws[k].at))
      && |Touched(ws)| <= MAXOPBLOCKS
    }

    /** The only operation in progress has done its first k writes. */
    ghost predicate Running(op: nat, ws: seq<Write>, k: nat, s0: Snapshot)
      reads this, cache, cache.disk
    {
      && Valid() && InShares() && Beside(NoOne(), {}) && k <= |ws| && Fits(ws)
      && ops == map[op := Touched(ws[..k])] && Elems(block[..n]) == Touched(ws[..k]) && outstanding == 1
      && Snap() == s0.(flat := Apply(s0.flat, ws[..k]))
    }

    method Step(ghost op: nat, ws: seq<Write>, k: nat, ghost s0: Snapshot)
      requires Running(op, ws, k, s0) && k < |ws|
      modifies this`n, this`block, this`at, this`ops, cache`buf, cache`order, cache`released, cache`pins, cache`flat
      ensures Running(op, ws, k + 1, s0)
    {
      hide Valid, InShares, Stable, Beside, Touched, Elems, BCache.Valid, Tracks, Ready;
      TouchedNext(ws, k);
      BlocksCount();
      ReadyAlone(ws[k].at);
      var ok := UpdateBlock(ws[k].at, ws[k].data, op, NoOne());
      assert ws[..k + 1][..k] == ws[..k];
      AppendElems(old(block[..n]), ws[k].at);
    }

    lemma BlocksCount()
      requires Valid()
      ensures n <= |block| && |Elems(block[..n])| == n <= LOGSIZE
    {
      DistinctCount(block[..n]);
    }

    lemma ReadyAlone(b: nat)
      requires Valid() && Beside(NoOne(), {}) && n < NBUF
      ensures |cache.buf| == NBUF + 1 && Ready(b)
    {
      ReadyBeside(b, NoOne());
    }

    /** With fewer than NBUF buffers in use, and block b locked by nobody, bread succeeds. */
    lemma ReadyBeside(b: nat, others: seq<Use>)
      requires Valid() && Beside(others, {}) && Busy(others) < NBUF
      requires forall i :: 0 <= i < NBUF && others[i].locked ==> others[i].blockno != b
      ensures |cache.buf| == NBUF + 1 && Ready(b)
    {
      SpareBusy(others);
      forall i | 0 <= i < NBUF && Holds(cache.buf[i], b)
        ensures !cache.buf[i].locked
      {
        assert UseOk(cache.buf[i], cache.pins[i], others[i], region, false);
      }
    }

    method Start(ghost op: nat, ws: seq<Write>)
      requires Idle() && Fits(ws)
      modifies this`outstanding, this`ops
      ensures Running(op, ws, 0, Snap())
    {
      hide Stable, Reserved, Beside, Tracks;
      var admitted := BeginOp(op);
      assert Touched(ws[..0]) == {} && Elems(block[..n]) == {};
      assert ops == map[op := {}];
      assert Apply(cache.flat, ws[..0]) == cache.flat;
    }

    /** No operation in progress, no commit, no buffer held. */
    ghost predicate Idle()
      reads this, cache, cache.disk
    {
      Valid() && InShares() && Beside(NoOne(), {}) && ops == map[] && outstanding == 0 && !committing
    }

    /** A whole operation, alone: begin_op, its writes, end_op. It cannot panic, its writes are
        on the disk when it returns, and the block writes that put them there are atomic under
        any crashes. */
    method RunOperation(ghost op: nat, ws: seq<Write>) returns (ghost plan: seq<Write>)
      requires Idle() && Fits(ws)
      modifies this, cache`buf, cache`order, cache`released, cache`flat, cache`pins, cache.disk
      ensures Idle() && cache.disk.blocks == cache.flat
      ensures SameHome(cache.flat, Apply(old(cache.flat), ws), region)
      ensures cache.disk.writes == old(cache.disk.writes) + plan
      ensures cache.disk.blocks == Apply(old(cache.disk.blocks), plan)
      ensures Atomic(old(cache.disk.blocks), region, plan, Apply(old(cache.disk.blocks), ws))
    {
      hide Valid, Running, Atomic, Idle, Fits;
      ghost var s0 := Snap();
      IdleClean();
      Start(op, ws);
      var k := 0;
      while k < |ws|
        invariant k <= |ws| && Running(op, ws, k, s0)
      {
        Step(op, ws, k, s0);
        k := k + 1;
      }
      plan := Finish(op, ws, s0);
    }

    lemma IdleClean()
      requires Idle()
      ensures Snap().flat == Snap().disk
    {
      assert block[..n] == [];
    }

    method Finish(ghost op: nat, ws: seq<Write>, ghost s0: Snapshot) returns (ghost plan: seq<Write>)
      requires Running(op, ws, |ws|, s0) && s0.flat == s0.disk
      modifies this, cache`buf, cache`order, cache`released, cache`flat, cache`pins, cache.disk
      ensures Idle() && cache.disk.blocks == cache.flat
      ensures SameHome(cache.flat, Apply(s0.flat, ws), region)
      ensures cache.disk.writes == s0.writes + plan && cache.disk.blocks == Apply(s0.disk, plan)
      ensures Atomic(s0.disk, region, plan, Apply(s0.disk, ws))
    {
      hide *;
      RunningFacts(op, ws, s0);
      plan := Plan();
      PlusWrites(Snap(), plan);
      SnapFacts();
      var ok;
      ghost var others;
      NoGap([], 0);
      ok, others := EndOp(op, [], NoOne());
      SnapFacts();
      IdleFrom();
    }

    lemma RunningFacts(op: nat, ws: seq<Write>, s0: Snapshot)
      requires Running(op, ws, |ws|, s0)
      ensures Valid() && InShares() && Beside(NoOne(), {}) && op in ops && ops - {op} == map[] && outstanding == 1
      ensures |NoOne()| == NBUF == |cache.pins| && Busy(NoOne()) < NBUF
      ensures |block| == LOGSIZE && n <= LOGSIZE && Stable(block[..n], at)
      ensures Snap() == s0.(flat := Apply(s0.flat, ws))
    {
      assert ws[..|ws|] == ws;
      BlocksCount();
      assert Held(cache.pins, NoOne()) == {};
    }

    lemma SnapFacts()
      ensures Snap() == Snapshot(cache.flat, cache.disk.blocks, cache.disk.writes)
    {
    }

    lemma IdleFrom()
      requires Valid() && InShares() && Beside(NoOne(), {}) && ops == map[] && !committing
      ensures Idle()
    {
    }
  }
  /** `binit` and `initlog` at boot: recovery has run and the log is idle. */
  method InitLog(disk: DiskDevice, region: Region) returns (log: Log)
    requires GoodHeader(disk.blocks, region)
    modifies disk
    ensures fresh(log) && fresh(log.cache) && log.cache.disk == disk && log.region == region
    ensures log.Idle() && disk.blocks == log.cache.flat == Recovered(old(disk.blocks), region)
  {
    hide BCache.Valid, Recovered, Log.Valid, Log.InShares;
    var cache := new BCache(disk);
    log := new Log(cache, region);
    ghost var blocks0 := disk.blocks;
    PlusWrites(log.Snap(), RecoveryWrites(blocks0, region));
    FreshLog(log);
    log.RecoverFromLog(NoOne());
    log.IdleFrom();
    log.IdleClean();
    RecoveredIs(blocks0, region);
  }

  lemma RecoveredIs(d: Disk, region: Region)
    requires GoodHeader(d, region)
    ensures Recovered(d, region) == Apply(d, RecoveryWrites(d, region))
  {
  }

  lemma FreshLog(log: Log)
    requires log.cache.Valid() && log.cache.flat == log.cache.disk.blocks && log.region.FitsIn(log.cache.flat)
    requires forall i :: 0 <= i < NBUF ==> log.cache.buf[i].refcnt == 0 && log.cache.pins[i] == 0
    ensures log.Stable([], []) && log.Beside(NoOne(), {})
  {
    forall i | 0 <= i < NBUF
      ensures UseOk(log.cache.buf[i], log.cache.pins[i], NoOne()[i], log.region, false)
    {
    }
  }
}
