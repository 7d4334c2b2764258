/** When operations that keep to MAXOPBLOCKS can rely on log_write and on commit. A block that is
    new to the transaction always fits exactly if the log area has a block for the header besides
    LOGSIZE; a block that is logged already can meet the panic "too big a transaction" whatever the
    size, and a commit can meet "bget: no buffers". Each failure is reached by a run. */
module LogQuota {
  import opened Blocks
  import opened Counting
  import opened RedoLog
  import opened BufferCache
  import opened Log

  /** Operation op, within its share, is about to log home block b. */
  ghost predicate Attempt(d: Disk, region: Region, ops: map<nat, set<nat>>, blocks: seq<Word>, op: nat, b: Word) {
    && Reserved(ops, blocks) && Loggable(d, region, blocks)
    && op in ops && |ops[op] + {b}| <= MAXOPBLOCKS && b < |d| && !region.Has(b)
  }

  /** log_write does not meet its first panic. */
  predicate Accepted(n: nat, region: Region) {
    n < LOGSIZE && n < region.size - 1
  }

  /** The blocks from `first` on are home blocks, more than a transaction can have. */
  ghost predicate HomeFrom(d: Disk, region: Region, first: Word) {
    && first + LOGSIZE < |d| && first + LOGSIZE < 0x1_0000_0000
    && (forall b :: first <= b <= first + LOGSIZE ==> !region.Has(b))
  }

  // ----- three operations that use what they have reserved

  /** How many of k blocks are operation o's, ten blocks to an operation. */
  function Part(k: nat, o: nat): nat {
    if k <= MAXOPBLOCKS * o then 0 else if k < MAXOPBLOCKS * o + MAXOPBLOCKS then k - MAXOPBLOCKS * o else MAXOPBLOCKS
  }

  /** What operation o has logged when the three together have logged the k blocks from `first` on. */
  ghost function Share(first: Word, k: nat, o: nat): (s: set<nat>)
    ensures |s| == Part(k, o) <= MAXOPBLOCKS
    ensures forall b :: b in s <==> first + MAXOPBLOCKS * o <= b < first + MAXOPBLOCKS * o + Part(k, o)
  {
    Interval(first + MAXOPBLOCKS * o, Part(k, o))
  }

  ghost function Shares(first: Word, k: nat): map<nat, set<nat>> {
    map[0 := Share(first, k, 0), 1 := Share(first, k, 1), 2 := Share(first, k, 2)]
  }

  ghost predicate Consecutive(blocks: seq<Word>, first: Word, k: nat) {
    |blocks| == k && forall j :: 0 <= j < k ==> blocks[j] == first + j
  }

  lemma SharesUnused(first: Word, k: nat)
    requires k <= LOGSIZE
    ensures Unused(Shares(first, k), Shares(first, k).Keys) == LOGSIZE - k
  {
    hide Share, Unused;
    var ops := Shares(first, k);
    NothingUnused(ops);
    assert ops.Keys == {0, 1, 2};
    UnusedSplit(ops, {0, 1, 2}, 0);
    assert {0, 1, 2} - {0} == {1, 2};
    UnusedSplit(ops, {1, 2}, 1);
    assert {1, 2} - {1} == {2};
    UnusedSplit(ops, {2}, 2);
    assert {2} - {2} == {};
  }

  lemma SharesReserved(blocks: seq<Word>, first: Word, k: nat)
    requires Consecutive(blocks, first, k) && k <= LOGSIZE
    ensures Reserved(Shares(first, k), blocks)
  {
    hide Share, Unused;
    var ops := Shares(first, k);
    SharesUnused(first, k);
    forall o, b | o in ops && b in ops[o]
      ensures b in blocks
    {
      assert blocks[b - first] == b;
    }
  }

  /** The next block is within the share of the operation whose turn it is, and so is the first
      block again within the share of the first operation. */
  lemma WithinShares(first: Word, k: nat)
    requires k <= LOGSIZE
    ensures 0 in Shares(first, k) && (k > 0 ==> first in Shares(first, k)[0]) && |Shares(first, k)[0]| <= MAXOPBLOCKS
    ensures var o := k / MAXOPBLOCKS;
            k < LOGSIZE ==> o in Shares(first, k) && |Shares(first, k)[o] + {first + k}| <= MAXOPBLOCKS
  {
    hide Share;
    if k < LOGSIZE {
      assert |Share(first, k, k / MAXOPBLOCKS)| < MAXOPBLOCKS;
    }
  }

  lemma NothingUnused(ops: map<nat, set<nat>>)
    ensures Unused(ops, {}) == 0
  {
  }

  /** The next block goes to the operation whose turn it is. */
  lemma SharesNext(first: Word, k: nat)
    requires k < LOGSIZE
    ensures var o := k / MAXOPBLOCKS;
            o in Shares(first, k) && Shares(first, k)[o := Shares(first, k)[o] + {first + k}] == Shares(first, k + 1)
  {
    hide Share;
    var o := k / MAXOPBLOCKS;
    assert Share(first, k, o) + {first + k} == Share(first, k + 1, o);
    forall p | 0 <= p < 3 && p != o
      ensures Share(first, k, p) == Share(first, k + 1, p)
    {
    }
    assert Shares(first, k)[o := Share(first, k + 1, o)] == Shares(first, k + 1);
  }

  lemma ConsecutiveLoggable(d: Disk, region: Region, blocks: seq<Word>, first: Word, k: nat)
    requires HomeFrom(d, region, first) && Consecutive(blocks, first, k) && k <= LOGSIZE && k < region.size
    ensures Loggable(d, region, blocks)
  {
    forall j | 0 <= j < k
      ensures blocks[j] < |d| && !region.Has(blocks[j])
    {
      assert !region.Has(blocks[j]);
    }
  }

  function BlocksFrom(first: Word, k: nat): (blocks: seq<Word>)
    requires first + k <= 0x1_0000_0000
    ensures Consecutive(blocks, first, k)
  {
    seq(k, j requires 0 <= j < k => first + j)
  }

  // ----- which log_writes are safe

  /** A block that is new to the transaction is accepted in every state exactly if the log area is
      larger than LOGSIZE. mkfs makes it LOGSIZE, header included. */
  lemma FirstWriteExact(d: Disk, region: Region, first: Word)
    requires region.FitsIn(d) && HomeFrom(d, region, first)
    ensures region.size > LOGSIZE <==>
            forall ops, blocks, op, b :: Attempt(d, region, ops, blocks, op, b) && b !in blocks ==>
              Accepted(|blocks|, region)
  {
    hide Reserved, Loggable, Shares, Consecutive;
    if region.size > LOGSIZE {
      forall ops, blocks, op, b | Attempt(d, region, ops, blocks, op, b) && b !in blocks
        ensures Accepted(|blocks|, region)
      {
        RoomInHeader(ops, blocks, op, b);
      }
    } else {
      var k := region.size - 1;
      FullLog(d, region, first, k);
      assert Attempt(d, region, Shares(first, k), BlocksFrom(first, k), k / MAXOPBLOCKS, first + k);
      assert !Accepted(|BlocksFrom(first, k)|, region);
    }
  }

  /** The three operations have logged k blocks: the next new one is still within its share, and so
      is the first one again. */
  lemma FullLog(d: Disk, region: Region, first: Word, k: nat)
    requires region.FitsIn(d) && HomeFrom(d, region, first) && k <= LOGSIZE && k < region.size
    ensures |BlocksFrom(first, k)| == k
    ensures k < LOGSIZE ==> Attempt(d, region, Shares(first, k), BlocksFrom(first, k), k / MAXOPBLOCKS, first + k)
    ensures k < LOGSIZE ==> first + k !in BlocksFrom(first, k)
    ensures k > 0 ==> Attempt(d, region, Shares(first, k), BlocksFrom(first, k), 0, first)
    ensures k > 0 ==> first in BlocksFrom(first, k)
  {
    hide Shares, BlocksFrom, Loggable, Reserved;
    var blocks := BlocksFrom(first, k);
    SharesReserved(blocks, first, k);
    WithinShares(first, k);
    ConsecutiveLoggable(d, region, blocks, first, k);
    if k > 0 {
      assert blocks[0] == first && Shares(first, k)[0] + {first as nat} == Shares(first, k)[0];
    }
  }

  /** A block that is logged already would be absorbed, but there is no size of the log area with
      which it is accepted in every state: the test for a full log comes before the search. */
  lemma AbsorbedNeverSafe(d: Disk, region: Region, first: Word)
    requires region.FitsIn(d) && HomeFrom(d, region, first) && region.size >= 2
    ensures exists ops, blocks, op, b ::
              Attempt(d, region, ops, blocks, op, b) && b in blocks && !Accepted(|blocks|, region)
  {
    hide Attempt, Shares, Consecutive;
    var k := if region.size <= LOGSIZE then region.size - 1 else LOGSIZE;
    FullLog(d, region, first, k);
    assert Attempt(d, region, Shares(first, k), BlocksFrom(first, k), 0, first) &&
           !Accepted(|BlocksFrom(first, k)|, region);
  }

  // ----- the same states, reached by running the log

  /** The three operations, alone on the log, have logged the k blocks from `first` on. */
  ghost predicate Filling(log: Log, first: Word, k: nat)
    reads log, log.cache, log.cache.disk
  {
    && log.Valid() && log.InShares() && log.Beside(NoOne(), {}) && log.outstanding == 3 && !log.committing
    && HomeFrom(log.cache.flat, log.region, first) && k <= LOGSIZE
    && log.ops == Shares(first, k) && Consecutive(log.block[..log.n], first, k)
  }

  /** Three operations begin: all are admitted. */
  method BeginThree(log: Log, first: Word)
    requires log.Idle() && HomeFrom(log.cache.flat, log.region, first)
    modifies log`outstanding, log`ops
    ensures Filling(log, first, 0)
  {
    hide Log.Valid, Log.InShares, Log.Beside, HomeFrom, Share;
    log.ValidFacts();
    IdleEmpty(log);
    var a0 := log.BeginOp(0);
    log.ValidFacts();
    var a1 := log.BeginOp(1);
    var a2 := log.BeginOp(2);
    assert a0 && a1 && a2;
    assert log.ops == Shares(first, 0);
    log.ValidFacts();
  }

  lemma IdleEmpty(log: Log)
    requires log.Idle()
    ensures log.n == 0
  {
  }

  lemma HomeBlock(d: Disk, region: Region, first: Word, k: nat)
    requires HomeFrom(d, region, first) && k <= LOGSIZE
    ensures first + k < |d| && first + k < 0x1_0000_0000 && !region.Has(first + k)
  {
  }

  lemma HomeStill(d: Disk, e: Disk, region: Region, first: Word)
    requires HomeFrom(d, region, first) && |e| == |d|
    ensures HomeFrom(e, region, first)
  {
  }

  lemma ConsecutiveNext(blocks: seq<Word>, first: Word, k: nat)
    requires Consecutive(blocks, first, k) && first + k < 0x1_0000_0000
    ensures |blocks| == k && first + k !in blocks && Consecutive(blocks + [first + k], first, k + 1)
  {
  }

  /** The next block is logged. */
  method FillNext(log: Log, first: Word, k: nat, data: Block)
    requires Filling(log, first, k) && k < LOGSIZE && k < log.region.size - 1
    modifies log, log.cache`buf, log.cache`order, log.cache`released, log.cache`pins, log.cache`flat
    ensures Filling(log, first, k + 1)
  {
    hide Log.Valid, Log.InShares, Log.Beside, Log.Ready, Log.Stable, Shares, Consecutive, HomeFrom;
    log.ValidFacts();
    SharesNext(first, k);
    WithinShares(first, k);
    HomeBlock(log.cache.flat, log.region, first, k);
    ConsecutiveNext(log.block[..log.n], first, k);
    log.ReadyAlone(first + k);
    ghost var flat0 := log.cache.flat;
    var ok := log.UpdateBlock(first + k, data, k / MAXOPBLOCKS, NoOne());
    log.ValidFacts();
    HomeStill(flat0, log.cache.flat, log.region, first);
  }

  method Fill(log: Log, first: Word, k: nat, data: Block)
    requires log.Idle() && HomeFrom(log.cache.flat, log.region, first) && k <= LOGSIZE && k < log.region.size
    modifies log, log.cache`buf, log.cache`order, log.cache`released, log.cache`pins, log.cache`flat
    ensures Filling(log, first, k)
  {
    hide Filling, Log.Idle, HomeFrom;
    BeginThree(log, first);
    for j := 0 to k
      invariant Filling(log, first, j)
    {
      FillNext(log, first, j, data);
    }
  }

  /** In a log area of at most LOGSIZE blocks three operations meet the panic at a block that is new
      to the transaction, the last of them within its share. */
  method FirstWriteFails(log: Log, first: Word, data: Block) returns (ok: bool, ghost op: nat, b: Word)
    requires log.Idle() && HomeFrom(log.cache.flat, log.region, first) && log.region.size <= LOGSIZE
    modifies log, log.cache`buf, log.cache`order, log.cache`released, log.cache`pins, log.cache`flat
    ensures !ok
    ensures |log.block| == LOGSIZE && log.n <= LOGSIZE && b !in log.block[..log.n]
    ensures op in log.ops && |log.ops[op] + {b}| <= MAXOPBLOCKS
  {
    hide Log.Idle, Log.Valid, Log.InShares, Log.Beside, Log.Ready, Shares;
    HasHeader(log);
    var k := log.region.size - 1;
    Fill(log, first, k, data);
    log.ValidFacts();
    WithinShares(first, k);
    log.ReadyAlone(first + k);
    b, op := first + k, k / MAXOPBLOCKS;
    ok := log.UpdateBlock(b, data, op, NoOne());
  }

  lemma HasHeader(log: Log)
    requires log.Idle()
    ensures log.region.size > 0
  {
  }

  /** In a log area of any size an operation meets the panic at a block it has logged before. */
  method AbsorbedFails(log: Log, first: Word, data: Block) returns (ok: bool)
    requires log.Idle() && HomeFrom(log.cache.flat, log.region, first) && log.region.size >= 2
    modifies log, log.cache`buf, log.cache`order, log.cache`released, log.cache`pins, log.cache`flat
    ensures !ok
    ensures |log.block| == LOGSIZE && log.n <= LOGSIZE && first in log.block[..log.n]
    ensures 0 in log.ops && first in log.ops[0] && |log.ops[0]| <= MAXOPBLOCKS
  {
    hide Log.Idle, Log.Valid, Log.InShares, Log.Beside, Log.Ready, Shares;
    var k := if log.region.size <= LOGSIZE then log.region.size - 1 else LOGSIZE;
    Fill(log, first, k, data);
    log.ValidFacts();
    WithinShares(first, k);
    assert log.block[..log.n][0] == first;
    LoggedReady(log, first);
    ok := log.UpdateBlock(first, data, 0, NoOne());
  }

  /** A logged block is in its buffer. */
  lemma LoggedReady(log: Log, b: Word)
    requires log.Valid() && log.Beside(NoOne(), {}) && b in log.block[..log.n]
    ensures |log.cache.buf| == NBUF + 1 && log.Ready(b)
  {
    var k :| 0 <= k < log.n && log.block[..log.n][k] == b;
    assert Holds(log.cache.buf[log.at[k]], b);
    forall i | 0 <= i < NBUF
      ensures !log.cache.buf[i].locked
    {
      assert UseOk(log.cache.buf[i], log.cache.pins[i], NoOne()[i], log.region, false);
    }
  }

  /** With the log area mkfs makes, or a larger one, three operations have logged 29 blocks and a
      process that is in no operation reads one more. When the operations have ended the commit
      finds no buffer for the log. */
  method CommitFails(log: Log, first: Word, data: Block) returns (ok: bool)
    requires log.Idle() && HomeFrom(log.cache.flat, log.region, first) && log.region.size >= LOGSIZE
    modifies log, log.cache, log.cache.disk
    ensures !ok && log.n < NBUF
  {
    hide Log.Idle, Log.Valid, Log.InShares, Accounted, Shares, Held;
    Fill(log, first, NBUF - 1, data);
    log.ValidFacts();
    assert Held(log.cache.pins, NoOne()) == {};
    ghost var others;
    var i;
    log.Arrives(first + (NBUF - 1), NoOne());
    i, others := log.ReaderTakes(first + (NBUF - 1), NoOne());
    assert Held(log.cache.pins, others) == {i};
    SharesKeys(log.ops, first, NBUF - 1);
    ok := EndThree(log, others);
  }

  /** The three operations end, and the commit finds every buffer pinned or in use. */
  method EndThree(log: Log, ghost others: seq<Use>) returns (ok: bool)
    requires log.Valid() && log.Beside(others, {}) && |others| == NBUF && 0 < log.n && log.Busy(others) >= NBUF
    requires log.ops.Keys == {0, 1, 2} && log.outstanding == 3
    modifies log, log.cache, log.cache.disk
    ensures !ok && log.n == old(log.n)
  {
    hide Log.Valid, Log.InShares, Accounted, Log.Plan, Atomic, Held, SameHome;
    log.ValidFacts();
    ghost var others';
    ok, others' := log.EndOp(0, [], others);
    log.ValidFacts();
    assert log.ops.Keys == {1, 2};
    ok, others' := log.EndOp(1, [], others);
    log.ValidFacts();
    assert log.ops.Keys == {2};
    ok, others' := log.EndOp(2, [], others);
  }

  lemma SharesKeys(ops: map<nat, set<nat>>, first: Word, k: nat)
    requires ops == Shares(first, k)
    ensures ops.Keys == {0, 1, 2}
  {
  }
}
