/** The buffer cache of kernel/bio.c: NBUF buffers on a doubly linked list in order of use,
    reference counts that keep a buffer from being recycled, and a sleep lock per buffer.
    Pointers into `bcache.buf` are indices; index NBUF is the list head. */
module BufferCache {
  import opened Blocks
  import opened Counting
  import opened RedoLog

  const NBUF := 30
  const ROOTDEV := 1

  /** The disk, one atomic block write at a time. `writes` is every write so far. */
  class DiskDevice {
    var blocks: Disk
    ghost var writes: seq<Write>

    constructor (image: Disk)
      ensures blocks == image && writes == []
    {
      blocks := image;
      writes := [];
    }

    method WriteBlock(at: nat, data: Block)
      requires at < |blocks|
      modifies this
      ensures blocks == old(blocks)[at := data]
      ensures writes == old(writes) + [Write(at, data)]
    {
      blocks := blocks[at := data];
      writes := writes + [Write(at, data)];
    }
  }

  datatype Buf = Buf(
    valid: bool, dev: Word, blockno: nat, refcnt: nat, locked: bool, prev: nat, next: nat, data: Block)

  datatype Option<T> = None | Some(value: T)

  /** How far bread gets: the panic "bget: no buffers", asleep until another process releases
      the buffer, or done. */
  datatype Fetch = NoBuffers | Asleep(value: nat) | Fetched(value: nat)

  // ----- the list

  /** Position k of the ring that runs from the head through the buffers back to the head. */
  function At(order: seq<nat>, k: nat): nat {
    if 0 < k <= |order| then order[k - 1] else NBUF
  }

  ghost predicate IsOrder(order: seq<nat>) {
    && |order| == NBUF
    && (forall k :: 0 <= k < NBUF ==> order[k] < NBUF)
    && (forall j, k :: 0 <= j < k < NBUF ==> order[j] != order[k])
    && (forall i :: 0 <= i < NBUF ==> i in order)
  }

  ghost predicate Linked(buf: seq<Buf>, order: seq<nat>)
    requires |buf| == NBUF + 1
  {
    && (forall k :: 0 <= k < |order| ==> order[k] < NBUF)
    && (forall k :: 0 <= k <= |order| ==> buf[At(order, k)].next == At(order, k + 1))
    && (forall k :: 0 < k <= |order| + 1 ==> buf[At(order, k)].prev == At(order, k - 1))
  }

  /** `order` lists the buffers from head.next to head.prev. */
  ghost predicate ListOk(buf: seq<Buf>, order: seq<nat>) {
    |buf| == NBUF + 1 && IsOrder(order) && Linked(buf, order)
  }

  function MoveToFront(order: seq<nat>, k: nat): seq<nat>
    requires k < |order|
  {
    [order[k]] + order[..k] + order[k + 1..]
  }

  // ----- what is in the buffers

  predicate Holds(b: Buf, blockno: nat) {
    b.dev == ROOTDEV && b.blockno == blockno
  }

  /** No two buffers hold the same block of the device. All buffers start with key (0, 0),
      so this says nothing about device 0. */
  ghost predicate Unique(buf: seq<Buf>)
    requires |buf| == NBUF + 1
  {
    forall i, j :: 0 <= i < NBUF && 0 <= j < NBUF && i != j && buf[i].dev == buf[j].dev == ROOTDEV ==>
      buf[i].blockno != buf[j].blockno
  }

  ghost predicate BufOk(b: Buf, flat: Disk) {
    && (b.dev == ROOTDEV || (b.dev == 0 && !b.valid))
    && (b.dev == ROOTDEV ==> b.blockno < |flat|)
    && (b.dev == ROOTDEV && b.valid && !b.locked ==> b.data == flat[b.blockno])
  }

  /** pins[i] of the references to buffer i are bpin's; the others are the processes that
      hold it or wait for it. */
  ghost predicate PinsOk(buf: seq<Buf>, pins: seq<nat>)
    requires |buf| == NBUF + 1
  {
    && |pins| == NBUF
    && (forall i :: 0 <= i < NBUF ==> pins[i] <= buf[i].refcnt)
    && (forall i :: 0 <= i < NBUF && buf[i].locked ==> pins[i] < buf[i].refcnt)
  }

  /** A block whose disk copy is out of date sits in a buffer that cannot be recycled. */
  ghost predicate Kept(buf: seq<Buf>, b: nat)
    requires |buf| == NBUF + 1
  {
    exists i :: 0 <= i < NBUF && Holds(buf[i], b) && buf[i].valid && buf[i].refcnt > 0
  }

  ghost predicate Coherent(buf: seq<Buf>, flat: Disk, disk: Disk)
    requires |buf| == NBUF + 1
  {
    && |flat| == |disk|
    && (forall i :: 0 <= i < NBUF ==> BufOk(buf[i], flat))
    && (forall b :: 0 <= b < |flat| && disk[b] != flat[b] ==> Kept(buf, b))
  }

  /** The place of buffer i's last entry in a history, -1 if it has none. */
  ghost function Last(history: seq<nat>, i: nat): (p: int)
    ensures -1 <= p < |history| && (p >= 0 ==> history[p] == i)
    ensures forall q :: p < q < |history| ==> history[q] != i
  {
    var n := |history|;
    if n == 0 || history[n - 1] == i then n - 1 else Last(history[..n - 1], i)
  }

  lemma LastMore(history: seq<nat>, i: nat, x: nat)
    ensures Last(history + [i], x) == if x == i then |history| else Last(history, x)
  {
    assert (history + [i])[..|history|] == history;
  }

  /** The list is in the order of the buffers' last entries, the latest first. */
  ghost predicate ByRecency(order: seq<nat>, history: seq<nat>) {
    forall j, k :: 0 <= j < k < |order| ==> Last(history, order[j]) > Last(history, order[k])
  }

  lemma MoveToFrontIsOrder(order: seq<nat>, k: nat)
    requires IsOrder(order) && k < NBUF
    ensures IsOrder(MoveToFront(order, k))
  {
    var m := MoveToFront(order, k);
    forall j | 0 <= j < NBUF
      ensures m[if j < k then j + 1 else if j == k then 0 else j] == order[j]
      ensures m[j] == order[if j == 0 then k else if j <= k then j - 1 else j]
    {
    }
    forall i | 0 <= i < NBUF
      ensures i in m
    {
      assert i in order;
      var j :| 0 <= j < |order| && order[j] == i;
      assert m[if j < k then j + 1 else if j == k then 0 else j] == i;
    }
  }

  /** The four list writes of brelse, then the two that put the node after the head. */
  function Unlink(buf: seq<Buf>, i: nat): seq<Buf>
    requires i < |buf| && buf[i].next < |buf| && buf[i].prev < |buf|
  {
    var (n, p) := (buf[i].next, buf[i].prev);
    var b1 := buf[n := buf[n].(prev := p)];
    b1[p := b1[p].(next := n)]
  }

  function PushFront(buf: seq<Buf>, i: nat): seq<Buf>
    requires i < |buf| && |buf| == NBUF + 1 && buf[NBUF].next < |buf|
  {
    var n := buf[NBUF].next;
    var b1 := buf[i := buf[i].(next := n, prev := NBUF)];
    var b2 := b1[n := b1[n].(prev := i)];
    b2[NBUF := b2[NBUF].(next := i)]
  }

  ghost predicate SameButLinks(a: seq<Buf>, b: seq<Buf>) {
    |a| == |b| && forall i :: 0 <= i < |a| ==> a[i] == b[i].(prev := a[i].prev, next := a[i].next)
  }

  function Without(order: seq<nat>, k: nat): seq<nat>
    requires k < |order|
  {
    order[..k] + order[k + 1..]
  }

  lemma UnlinkSpec(buf: seq<Buf>, order: seq<nat>, k: nat)
    requires |buf| == NBUF + 1 && k < |order| && Distinct(order) && Linked(buf, order)
    ensures buf[order[k]].next < |buf| && buf[order[k]].prev < |buf|
    ensures Linked(Unlink(buf, order[k]), Without(order, k))
  {
    assert At(order, k + 1) == order[k];
    assert buf[order[k]].next == At(order, k + 2) && buf[order[k]].prev == At(order, k);
    var c := Unlink(buf, order[k]);
    var short := Without(order, k);
    forall j | 0 <= j <= |short|
      ensures c[At(short, j)].next == At(short, j + 1)
    {
      UnlinkNext(buf, order, k, j);
    }
    forall j | 0 < j <= |short| + 1
      ensures c[At(short, j)].prev == At(short, j - 1)
    {
      UnlinkPrev(buf, order, k, j);
    }
  }

  lemma UnlinkNext(buf: seq<Buf>, order: seq<nat>, k: nat, j: nat)
    requires |buf| == NBUF + 1 && k < |order| && Distinct(order) && Linked(buf, order) && j < |order|
    requires buf[order[k]].next < |buf| && buf[order[k]].prev < |buf|
    ensures Unlink(buf, order[k])[At(Without(order, k), j)].next == At(Without(order, k), j + 1)
  {
    assert At(order, k + 1) == order[k];
    var i := if j <= k then j else j + 1;
    assert At(Without(order, k), j) == At(order, i);
    assert At(Without(order, k), j + 1) == At(order, if j < k then j + 1 else j + 2);
    assert At(order, i) == At(order, k) <==> i == k;
  }

  lemma UnlinkPrev(buf: seq<Buf>, order: seq<nat>, k: nat, j: nat)
    requires |buf| == NBUF + 1 && k < |order| && Distinct(order) && Linked(buf, order) && 0 < j <= |order|
    requires buf[order[k]].next < |buf| && buf[order[k]].prev < |buf|
    ensures Unlink(buf, order[k])[At(Without(order, k), j)].prev == At(Without(order, k), j - 1)
  {
    assert At(order, k + 1) == order[k];
    var i := if j <= k then j else j + 1;
    assert At(Without(order, k), j) == At(order, i);
    assert At(Without(order, k), j - 1) == At(order, if j <= k + 1 then j - 1 else j);
    assert At(order, i) == At(order, k + 2) <==> i == k + 2;
  }

  lemma PushFrontSpec(buf: seq<Buf>, rest: seq<nat>, i: nat)
    requires |buf| == NBUF + 1 && i < NBUF && i !in rest && Distinct(rest) && Linked(buf, rest)
    ensures buf[NBUF].next < |buf|
    ensures SameButLinks(PushFront(buf, i), buf)
    ensures Linked(PushFront(buf, i), [i] + rest)
  {
    assert At(rest, 0) == NBUF && buf[NBUF].next == At(rest, 1);
    var c := PushFront(buf, i);
    var long := [i] + rest;
    forall j | 0 <= j <= |long| + 1
      ensures At(long, j) == if j == 1 then i else if j == 0 then NBUF else At(rest, j - 1)
    {}
    forall j | 0 <= j <= |long|
      ensures c[At(long, j)].next == At(long, j + 1)
    {
      if j > 1 {
        assert buf[At(rest, j - 1)].next == At(rest, j);
      }
    }
    forall j | 0 < j <= |long| + 1
      ensures c[At(long, j)].prev == At(long, j - 1)
    {
      if j > 1 {
        assert buf[At(rest, j - 1)].prev == At(rest, j - 2);
        assert At(rest, j - 1) == At(rest, 1) <==> j == 2;
      }
    }
  }

  /** What brelse does to the list when it drops the last reference. */
  lemma RequeueSpec(buf: seq<Buf>, order: seq<nat>, k: nat)
    requires ListOk(buf, order) && k < NBUF
    ensures buf[order[k]].next < |buf| && buf[order[k]].prev < |buf|
    ensures var b1 := Unlink(buf, order[k]);
            && b1[NBUF].next < |b1|
            && ListOk(PushFront(b1, order[k]), MoveToFront(order, k))
            && SameButLinks(PushFront(b1, order[k]), buf)
  {
    UnlinkSpec(buf, order, k);
    var b1 := Unlink(buf, order[k]);
    PushFrontSpec(b1, Without(order, k), order[k]);
    MoveToFrontIsOrder(order, k);
    assert MoveToFront(order, k) == [order[k]] + Without(order, k);
  }

  lemma MoveToFrontByRecency(order: seq<nat>, history: seq<nat>, k: nat)
    requires IsOrder(order) && ByRecency(order, history) && k < NBUF
    ensures ByRecency(MoveToFront(order, k), history + [order[k]])
  {
    hide Last;
    var m, h := MoveToFront(order, k), history + [order[k]];
    forall i, j | 0 <= i < j < |m|
      ensures Last(h, m[i]) > Last(h, m[j])
    {
      var a, b := if i == 0 then k else if i <= k then i - 1 else i, if j <= k then j - 1 else j;
      assert m[i] == order[a] && m[j] == order[b] && order[b] != order[k];
      LastMore(history, order[k], order[a]);
      LastMore(history, order[k], order[b]);
    }
  }

  // ----- what each step does to coherence

  /** Replacing one buffer keeps everything, provided the new one is as good as the old. */
  lemma ReplaceBuf(buf: seq<Buf>, flat: Disk, disk: Disk, i: nat, b: Buf)
    requires |buf| == NBUF + 1 && i < NBUF && Coherent(buf, flat, disk) && Unique(buf)
    requires BufOk(b, flat)
    requires b.dev == buf[i].dev && b.blockno == buf[i].blockno
    requires buf[i].valid && buf[i].refcnt > 0 && !(b.valid && b.refcnt > 0) && Holds(buf[i], b.blockno) ==>
             disk[b.blockno] == flat[b.blockno]
    ensures Coherent(buf[i := b], flat, disk) && Unique(buf[i := b])
  {
    var c := buf[i := b];
    forall h | 0 <= h < |flat| && disk[h] != flat[h]
      ensures Kept(c, h)
    {
      var k :| 0 <= k < NBUF && Holds(buf[k], h) && buf[k].valid && buf[k].refcnt > 0;
      assert Holds(c[k], h);
    }
  }

  /** Recycling an unreferenced buffer for an uncached block. */
  lemma Recycle(buf: seq<Buf>, flat: Disk, disk: Disk, i: nat, blockno: nat)
    requires |buf| == NBUF + 1 && i < NBUF && Coherent(buf, flat, disk) && Unique(buf)
    requires buf[i].refcnt == 0 && blockno < |flat|
    requires forall k :: 0 <= k < NBUF ==> !Holds(buf[k], blockno)
    ensures var c := buf[i := buf[i].(dev := ROOTDEV, blockno := blockno, valid := false, refcnt := 1)];
            Coherent(c, flat, disk) && Unique(c)
  {
    var c := buf[i := buf[i].(dev := ROOTDEV, blockno := blockno, valid := false, refcnt := 1)];
    forall h | 0 <= h < |flat| && disk[h] != flat[h]
      ensures Kept(c, h)
    {
      var k :| 0 <= k < NBUF && Holds(buf[k], h) && buf[k].valid && buf[k].refcnt > 0;
      assert Holds(c[k], h);
    }
  }

  /** Coherence does not look at the links. */
  lemma LinksDoNotMatter(a: seq<Buf>, b: seq<Buf>, flat: Disk, disk: Disk)
    requires |a| == |b| == NBUF + 1 && SameButLinks(a, b) && Coherent(b, flat, disk) && Unique(b)
    ensures Coherent(a, flat, disk) && Unique(a)
  {
    forall i | 0 <= i < NBUF
      ensures BufOk(a[i], flat)
    {
      assert BufOk(b[i], flat);
    }
    forall h | 0 <= h < |flat| && disk[h] != flat[h]
      ensures Kept(a, h)
    {
      var k :| 0 <= k < NBUF && Holds(b[k], h) && b[k].valid && b[k].refcnt > 0;
      assert Holds(a[k], h);
    }
  }

  lemma ListIgnoresContents(a: seq<Buf>, order: seq<nat>, i: nat, b: Buf)
    requires ListOk(a, order) && i < NBUF && b.prev == a[i].prev && b.next == a[i].next
    ensures ListOk(a[i := b], order)
  {
  }

  /** New contents for block h, written to the buffer, and to the disk or not. */
  lemma NewContents(buf: seq<Buf>, flat: Disk, disk: Disk, i: nat, disk': Disk)
    requires |buf| == NBUF + 1 && i < NBUF && Coherent(buf, flat, disk) && Unique(buf)
    requires buf[i].dev == ROOTDEV && buf[i].valid && buf[i].locked && buf[i].refcnt > 0
    requires disk' == disk || disk' == disk[buf[i].blockno := buf[i].data]
    ensures Coherent(buf, flat[buf[i].blockno := buf[i].data], disk')
  {
    var flat' := flat[buf[i].blockno := buf[i].data];
    forall k | 0 <= k < NBUF
      ensures BufOk(buf[k], flat')
    {
      assert BufOk(buf[k], flat);
    }
    forall h | 0 <= h < |flat'| && disk'[h] != flat'[h]
      ensures Kept(buf, h)
    {
      assert Holds(buf[i], buf[i].blockno);
    }
  }

  /** Nobody refers to buffer i, and of all such buffers its last release is the earliest. */
  ghost predicate Longest(buf: seq<Buf>, released: seq<nat>, i: nat)
    requires |buf| == NBUF + 1
  {
    && i < NBUF && buf[i].refcnt == 0
    && forall k :: 0 <= k < NBUF && k != i && buf[k].refcnt == 0 ==> Last(released, i) < Last(released, k)
  }

  /** Buffer i has gone to the front and the others have stayed in order. */
  ghost predicate MovedUp(before: seq<nat>, after: seq<nat>, i: nat) {
    exists k :: 0 <= k < |before| && before[k] == i && after == MoveToFront(before, k)
  }

  class BCache {
    const disk: DiskDevice
    var buf: seq<Buf>
    /** The list, most recently used first. */
    ghost var order: seq<nat>
    /** The buffers in the order in which binit and brelse have put them at the front: brelse does so
        when it drops the last reference. */
    ghost var released: seq<nat>
    /** References taken by bpin. */
    ghost var pins: seq<nat>
    /** What each block was last made to contain, through log_write or bwrite. */
    ghost var flat: Disk

    ghost predicate Valid()
      reads this, disk
    {
      && ListOk(buf, order)
      && Unique(buf)
      && PinsOk(buf, pins)
      && Coherent(buf, flat, disk.blocks)
      && ByRecency(order, released)
    }

    ghost predicate Cached(i: nat, blockno: nat)
      reads this
    {
      |buf| == NBUF + 1 && i < NBUF && Holds(buf[i], blockno)
    }

    /** A buffer its caller has locked and may use. */
    ghost predicate Locked(i: nat)
      reads this
    {
      |buf| == NBUF + 1 && i < NBUF && buf[i].dev == ROOTDEV && buf[i].locked && buf[i].valid
    }

    /** A block is in one buffer at most. */
    lemma OneBuffer(blockno: nat)
      requires Valid()
      ensures forall i, j :: 0 <= i < NBUF && 0 <= j < NBUF && Holds(buf[i], blockno) && Holds(buf[j], blockno) ==>
              i == j
    {
    }

    /** `binit`. */
    constructor (disk: DiskDevice)
      ensures this.disk == disk && Valid() && flat == disk.blocks
      ensures forall i :: 0 <= i < NBUF ==> buf[i].refcnt == 0 && buf[i].dev == 0 && pins[i] == 0
      ensures released == seq(NBUF, i => i)
    {
      this.disk := disk;
      flat := disk.blocks;
      released := [];
      pins := seq(NBUF, _ => 0);
      order := [];
      buf := seq(NBUF + 1, _ => Buf(false, 0, 0, 0, false, NBUF, NBUF, ZeroBlock));
      new;
      for i := 0 to NBUF
        invariant |buf| == NBUF + 1 && |order| == i && |pins| == NBUF
        invariant Linked(buf, order)
        invariant forall k :: 0 <= k < i ==> order[k] == i - 1 - k
        invariant forall k :: 0 <= k < |buf| ==> !buf[k].valid && buf[k].dev == 0
        invariant forall k :: 0 <= k < |buf| ==> buf[k].refcnt == 0 && !buf[k].locked
        invariant forall k :: 0 <= k < NBUF ==> pins[k] == 0
        invariant released == seq(i, k => k)
        invariant this.disk == disk && flat == disk.blocks
      {
        PushFrontSpec(buf, order, i);
        buf := PushFront(buf, i);
        order := [i] + order;
        released := released + [i];
      }
      forall i: nat | i < NBUF
        ensures Last(released, i) == i
      {
        assert released[i] == i;
      }
      forall i | 0 <= i < NBUF
        ensures i in order
      {
        assert order[NBUF - 1 - i] == i;
      }
    }

    /** `bget` up to the release of bcache.lock: find the block, or recycle the least recently
        used buffer nobody refers to. None is the panic "bget: no buffers". */
    method Bget(dev: Word, blockno: nat) returns (r: Option<nat>)
      requires Valid() && dev == ROOTDEV && blockno < |flat|
      modifies this`buf
      ensures Valid()
      ensures r.None? ==> buf == old(buf) && forall i :: 0 <= i < NBUF ==> !Holds(buf[i], blockno) && buf[i].refcnt > 0
      ensures r.Some? ==> Cached(r.value, blockno)
      ensures r.Some? && old(Cached(r.value, blockno)) ==>
              buf == old(buf)[r.value := old(buf[r.value]).(refcnt := old(buf[r.value].refcnt) + 1)]
      ensures r.Some? && !old(Cached(r.value, blockno)) ==>
              && (forall i :: 0 <= i < NBUF ==> !Holds(old(buf)[i], blockno))
              && Longest(old(buf), released, r.value)
              && var b := old(buf)[r.value];
                 buf == old(buf)[r.value := b.(dev := dev, blockno := blockno, valid := false, refcnt := 1)]
    {
      var i := FindCached(blockno);
      if i < NBUF {
        ReplaceBuf(buf, flat, disk.blocks, i, buf[i].(refcnt := buf[i].refcnt + 1));
        ListIgnoresContents(buf, order, i, buf[i].(refcnt := buf[i].refcnt + 1));
        buf := buf[i := buf[i].(refcnt := buf[i].refcnt + 1)];
        return Some(i);
      }
      i := FindIdle();
      if i < NBUF {
        Recycle(buf, flat, disk.blocks, i, blockno);
        ListIgnoresContents(buf, order, i, buf[i].(dev := dev, blockno := blockno, valid := false, refcnt := 1));
        buf := buf[i := buf[i].(dev := dev, blockno := blockno, valid := false, refcnt := 1)];
        return Some(i);
      }
      return None;
    }

    /** Walk forward from head.next for the block; NBUF if it is not cached. */
    method FindCached(blockno: nat) returns (i: nat)
      requires Valid()
      ensures i <= NBUF
      ensures i < NBUF ==> Holds(buf[i], blockno)
      ensures i == NBUF ==> forall k :: 0 <= k < NBUF ==> !Holds(buf[k], blockno)
    {
      ghost var k: nat := 1;
      assert At(order, 0) == NBUF;
      i := buf[NBUF].next;
      while i != NBUF
        invariant 1 <= k <= NBUF + 1 && i == At(order, k)
        invariant forall j :: 0 <= j < k - 1 ==> !Holds(buf[order[j]], blockno)
        decreases NBUF + 1 - k
      {
        if Holds(buf[i], blockno) {
          return;
        }
        i := buf[i].next;
        k := k + 1;
      }
      forall j | 0 <= j < NBUF
        ensures !Holds(buf[j], blockno)
      {
        assert j in order;
      }
    }

    /** Walk backward from head.prev for an unreferenced buffer; NBUF if there is none. */
    method FindIdle() returns (i: nat)
      requires Valid()
      ensures i <= NBUF
      ensures i < NBUF ==> Longest(buf, released, i)
      ensures i == NBUF ==> forall k :: 0 <= k < NBUF ==> buf[k].refcnt > 0
    {
      ghost var k: nat := NBUF;
      assert At(order, NBUF + 1) == NBUF;
      i := buf[NBUF].prev;
      while i != NBUF
        invariant 0 <= k <= NBUF && i == At(order, k)
        invariant forall j :: k <= j < NBUF ==> buf[order[j]].refcnt > 0
        decreases k
      {
        if buf[i].refcnt == 0 {
          forall j | 0 <= j < NBUF && j != i && buf[j].refcnt == 0
            ensures Last(released, i) < Last(released, j)
          {
            assert j in order;
          }
          return;
        }
        i := buf[i].prev;
        k := k - 1;
      }
      forall j | 0 <= j < NBUF
        ensures buf[j].refcnt > 0
      {
        assert j in order;
      }
    }

    /** The rest of `bget`: acquiresleep returns once nobody holds the buffer. */
    method AcquireBuf(i: nat)
      requires Valid() && i < NBUF && buf[i].dev == ROOTDEV && buf[i].refcnt > pins[i] && !buf[i].locked
      modifies this`buf
      ensures Valid() && buf == old(buf)[i := old(buf)[i].(locked := true)]
      ensures buf[i].valid ==> buf[i].data == flat[buf[i].blockno]
    {
      ReplaceBuf(buf, flat, disk.blocks, i, buf[i].(locked := true));
      ListIgnoresContents(buf, order, i, buf[i].(locked := true));
      buf := buf[i := buf[i].(locked := true)];
    }

    /** The rest of `bread`: read the disk unless the contents are already there. */
    method Fill(i: nat)
      requires Valid() && i < NBUF && buf[i].dev == ROOTDEV && buf[i].locked
      requires buf[i].valid ==> buf[i].data == flat[buf[i].blockno]
      modifies this`buf
      ensures Valid() && Locked(i)
      ensures buf == old(buf)[i := old(buf)[i].(valid := true, data := flat[old(buf)[i].blockno])]
    {
      if !buf[i].valid {
        assert disk.blocks[buf[i].blockno] == flat[buf[i].blockno] by {
          assert !Kept(buf, buf[i].blockno);
        }
        var b := buf[i].(valid := true, data := disk.blocks[buf[i].blockno]);
        ReplaceBuf(buf, flat, disk.blocks, i, b);
        ListIgnoresContents(buf, order, i, b);
        buf := buf[i := b];
      }
    }

    /** `bread`, up to the point where it has to wait for another process: the contents are the
        last ones given to the block, whatever was evicted in between. */
    method Bread(dev: Word, blockno: nat) returns (r: Fetch)
      requires Valid() && dev == ROOTDEV && blockno < |flat|
      modifies this`buf
      ensures Valid() && |old(buf)| == NBUF + 1
      ensures r.NoBuffers? <==> forall i :: 0 <= i < NBUF ==> !Holds(old(buf)[i], blockno) && old(buf)[i].refcnt > 0
      ensures r.Asleep? <==> exists i :: 0 <= i < NBUF && Holds(old(buf)[i], blockno) && old(buf)[i].locked
      ensures r.NoBuffers? ==> buf == old(buf)
      ensures r.Asleep? ==> old(Cached(r.value, blockno)) && old(buf)[r.value].locked
      ensures r.Asleep? ==> buf == old(buf)[r.value := old(buf)[r.value].(refcnt := old(buf)[r.value].refcnt + 1)]
      ensures r.Fetched? ==> Locked(r.value) && buf[r.value].blockno == blockno && buf[r.value].data == flat[blockno]
      ensures r.Fetched? ==> buf[r.value].refcnt == old(buf)[r.value].refcnt + 1
      ensures r.Fetched? ==> old(buf)[r.value].refcnt == 0 || old(Cached(r.value, blockno))
      ensures r.Fetched? ==>
              forall i :: 0 <= i < NBUF && i != r.value ==> buf[i] == old(buf)[i] && !Holds(buf[i], blockno)
    {
      var found := Bget(dev, blockno);
      if found.None? {
        return NoBuffers;
      }
      if buf[found.value].locked {
        return Asleep(found.value);
      }
      Resume(found.value);
      r := Fetched(found.value);
    }

    /** The rest of `bread` once nobody holds the buffer. */
    method Resume(i: nat)
      requires Valid() && i < NBUF && buf[i].dev == ROOTDEV && buf[i].refcnt > pins[i] && !buf[i].locked
      modifies this`buf
      ensures Valid() && Locked(i) && |old(buf)| == NBUF + 1 && buf[i].blockno < |flat|
      ensures buf == old(buf)[i := old(buf)[i].(locked := true, valid := true, data := flat[old(buf)[i].blockno])]
    {
      AcquireBuf(i);
      Fill(i);
    }

    /** The holder changes b->data. */
    method SetData(i: nat, data: Block)
      requires Valid() && Locked(i)
      modifies this`buf
      ensures Valid() && Locked(i) && buf == old(buf)[i := old(buf)[i].(data := data)]
    {
      ReplaceBuf(buf, flat, disk.blocks, i, buf[i].(data := data));
      ListIgnoresContents(buf, order, i, buf[i].(data := data));
      buf := buf[i := buf[i].(data := data)];
    }

    /** The contents of a held buffer become the contents of its block. */
    ghost method Publish(i: nat)
      requires Valid() && Locked(i)
      modifies this`flat
      ensures Valid() && flat == old(flat)[buf[i].blockno := buf[i].data]
    {
      NewContents(buf, flat, disk.blocks, i, disk.blocks);
      flat := flat[buf[i].blockno := buf[i].data];
    }

    /** `bwrite`. */
    method Bwrite(i: nat)
      requires Valid() && Locked(i)
      modifies this`flat, disk
      ensures Valid()
      ensures flat == old(flat)[buf[i].blockno := buf[i].data]
      ensures disk.blocks == old(disk.blocks)[buf[i].blockno := buf[i].data]
      ensures disk.writes == old(disk.writes) + [Write(buf[i].blockno, buf[i].data)]
    {
      NewContents(buf, flat, disk.blocks, i, disk.blocks[buf[i].blockno := buf[i].data]);
      disk.WriteBlock(buf[i].blockno, buf[i].data);
      flat := flat[buf[i].blockno := buf[i].data];
    }

    /** `bpin`. */
    method Bpin(i: nat)
      requires Valid() && i < NBUF && buf[i].dev == ROOTDEV
      modifies this`buf, this`pins
      ensures Valid() && buf == old(buf)[i := old(buf)[i].(refcnt := old(buf)[i].refcnt + 1)]
      ensures pins == old(pins)[i := old(pins)[i] + 1]
    {
      ReplaceBuf(buf, flat, disk.blocks, i, buf[i].(refcnt := buf[i].refcnt + 1));
      ListIgnoresContents(buf, order, i, buf[i].(refcnt := buf[i].refcnt + 1));
      buf := buf[i := buf[i].(refcnt := buf[i].refcnt + 1)];
      pins := pins[i := pins[i] + 1];
    }

    /** `bunpin`. The last reference may only go when the disk copy is current. */
    method Bunpin(i: nat)
      requires Valid() && i < NBUF && buf[i].dev == ROOTDEV && pins[i] > 0
      requires buf[i].refcnt == 1 ==> disk.blocks[buf[i].blockno] == flat[buf[i].blockno]
      modifies this`buf, this`pins
      ensures Valid() && buf == old(buf)[i := old(buf)[i].(refcnt := old(buf)[i].refcnt - 1)]
      ensures pins == old(pins)[i := old(pins)[i] - 1]
    {
      ReplaceBuf(buf, flat, disk.blocks, i, buf[i].(refcnt := buf[i].refcnt - 1));
      ListIgnoresContents(buf, order, i, buf[i].(refcnt := buf[i].refcnt - 1));
      buf := buf[i := buf[i].(refcnt := buf[i].refcnt - 1)];
      pins := pins[i := pins[i] - 1];
    }

    /** `brelse`. The discipline: whoever changed the data has published it, and the last
        reference may only go when the disk copy is current. */
    method Brelse(i: nat)
      requires Valid() && Locked(i) && buf[i].data == flat[buf[i].blockno]
      requires buf[i].refcnt == 1 ==> disk.blocks[buf[i].blockno] == flat[buf[i].blockno]
      modifies this`buf, this`order, this`released
      ensures Valid()
      ensures SameButLinks(buf, old(buf)[i := old(buf)[i].(locked := false, refcnt := old(buf)[i].refcnt - 1)])
      ensures buf[i].refcnt == 0 ==> released == old(released) + [i] && MovedUp(old(order), order, i)
      ensures buf[i].refcnt > 0 ==> released == old(released) && order == old(order)
      ensures buf[i].refcnt > 0 ==> buf == old(buf)[i := buf[i]]
    {
      var b := buf[i].(locked := false, refcnt := buf[i].refcnt - 1);
      ReplaceBuf(buf, flat, disk.blocks, i, b);
      ListIgnoresContents(buf, order, i, b);
      buf := buf[i := b];
      if b.refcnt == 0 {
        Requeue(i);
      }
    }

    /** The list part of `brelse`. */
    method Requeue(i: nat)
      requires Valid() && i < NBUF
      modifies this`buf, this`order, this`released
      ensures Valid() && SameButLinks(buf, old(buf))
      ensures released == old(released) + [i] && MovedUp(old(order), order, i)
    {
      assert i in order;
      ghost var k :| 0 <= k < |order| && order[k] == i;
      RequeueSpec(buf, order, k);
      var moved := PushFront(Unlink(buf, i), i);
      LinksDoNotMatter(moved, buf, flat, disk.blocks);
      MoveToFrontByRecency(order, released, k);
      buf := moved;
      order := MoveToFront(order, k);
      released := released + [i];
    }
  }
}
