/** The on-disk redo log as values: what commit and recovery write, block write by block
    write, and what a crash between any two of those writes leaves behind. */
module RedoLog {
  import opened Blocks
  import opened Counting

  const MAXOPBLOCKS := 10
  const LOGSIZE := 30

  /** One atomic block write. */
  datatype Write = Write(at: nat, data: Block)

  /** Where the log lives: the header block, then the logged copies. */
  datatype Region = Region(start: nat, size: nat) {
    predicate Has(b: nat) {
      start <= b < start + size
    }

    predicate FitsIn(d: Disk) {
      size > 0 && start + size <= |d|
    }
  }

  /** The disk after the given writes, in order. */
  function Apply(d: Disk, ws: seq<Write>): (r: Disk)
    ensures |r| == |d|
  {
    if ws == [] then d
    else
      var p, w := Apply(d, ws[..|ws| - 1]), ws[|ws| - 1];
      if w.at < |d| then p[w.at := w.data] else p
  }

  lemma {:induction false} ApplyConcat(d: Disk, xs: seq<Write>, ys: seq<Write>)
    ensures Apply(d, xs + ys) == Apply(Apply(d, xs), ys)
  {
    if ys == [] {
      assert xs + ys == xs;
    } else {
      assert (xs + ys)[..|xs + ys| - 1] == xs + ys[..|ys| - 1];
      ApplyConcat(d, xs, ys[..|ys| - 1]);
    }
  }

  /** The blocks a list of writes touches. */
  ghost function Touched(ws: seq<Write>): set<nat> {
    set k | 0 <= k < |ws| :: ws[k].at
  }

  lemma TouchedNext(ws: seq<Write>, k: nat)
    requires k < |ws|
    ensures Touched(ws[..k + 1]) == Touched(ws[..k]) + {ws[k].at}
    ensures |Touched(ws[..k])| <= |Touched(ws[..k + 1])| <= |Touched(ws)|
  {
    forall b | b in Touched(ws[..k + 1])
      ensures b in Touched(ws) && b in Touched(ws[..k]) + {ws[k].at}
    {
      var j :| 0 <= j < k + 1 && ws[..k + 1][j].at == b;
      assert ws[j].at == b;
      assert j < k ==> ws[..k][j].at == b;
    }
    forall b | b in Touched(ws[..k]) + {ws[k].at}
      ensures b in Touched(ws[..k + 1])
    {
      if b != ws[k].at {
        var j :| 0 <= j < k && ws[..k][j].at == b;
        assert ws[..k + 1][j].at == b;
      } else {
        assert ws[..k + 1][k].at == b;
      }
    }
    SubsetCount(Touched(ws[..k + 1]), Touched(ws));
    SubsetCount(Touched(ws[..k]), Touched(ws[..k + 1]));
  }

  lemma TouchedAppend(ws: seq<Write>, w: Write)
    ensures Touched(ws + [w]) == Touched(ws) + {w.at}
  {
    var ws' := ws + [w];
    assert ws'[..|ws|] == ws && ws'[..|ws| + 1] == ws';
    TouchedNext(ws', |ws|);
  }

  // ----- the header block

  function HeaderN(d: Disk, r: Region): Word
    requires r.FitsIn(d)
  {
    WordAt(d[r.start], 0)
  }

  function HeaderBlock(d: Disk, r: Region, k: nat): Word
    requires r.FitsIn(d) && k < LOGSIZE
  {
    WordAt(d[r.start], k + 1)
  }

  /** `write_head`: n goes to word 0, the block numbers to words 1 to n; the rest of the
      header block keeps what it held. */
  function HeaderImage(prior: Block, blocks: seq<Word>): Block
    requires |blocks| <= LOGSIZE
  {
    PutWords(PutWord(prior, 0, |blocks|), 1, blocks)
  }

  lemma HeaderImageReads(prior: Block, blocks: seq<Word>, j: nat)
    requires |blocks| <= LOGSIZE && j < WORDS
    ensures WordAt(HeaderImage(prior, blocks), j) ==
            if j == 0 then |blocks| else if j <= |blocks| then blocks[j - 1] else WordAt(prior, j)
  {
    PutWordsReads(PutWord(prior, 0, |blocks|), 1, blocks, j);
    PutWordReads(prior, 0, |blocks|, j);
  }

  // ----- the writes of commit and of recovery, in the order the code issues them

  /** Block numbers a transaction may log: distinct, on the disk, outside the log. */
  predicate Loggable(d: Disk, r: Region, blocks: seq<Word>) {
    && |blocks| <= LOGSIZE && |blocks| < r.size
    && (forall k :: 0 <= k < |blocks| ==> blocks[k] < |d| && !r.Has(blocks[k]))
    && (forall j, k :: 0 <= j < k < |blocks| ==> blocks[j] != blocks[k])
  }

  /** `write_log`. */
  function LogWrites(r: Region, data: seq<Block>): seq<Write> {
    seq(|data|, k requires 0 <= k < |data| => Write(r.start + 1 + k, data[k]))
  }

  /** `install_trans`. */
  function HomeWrites(blocks: seq<Word>, data: seq<Block>): seq<Write>
    requires |blocks| == |data|
  {
    seq(|data|, k requires 0 <= k < |data| => Write(blocks[k], data[k]))
  }

  /** What the logged blocks are to contain. */
  function Picked(flat: Disk, blocks: seq<Word>): (data: seq<Block>)
    ensures |data| == |blocks|
    requires forall k :: 0 <= k < |blocks| ==> blocks[k] < |flat|
  {
    seq(|blocks|, k requires 0 <= k < |blocks| => flat[blocks[k]])
  }

  /** `commit` for a transaction that maps blocks[k] to data[k]. */
  function CommitWrites(d: Disk, r: Region, blocks: seq<Word>, data: seq<Block>): seq<Write>
    requires r.FitsIn(d) && Loggable(d, r, blocks) && |blocks| == |data|
  {
    var header := HeaderImage(d[r.start], blocks);
    LogWrites(r, data) + [Write(r.start, header)] + HomeWrites(blocks, data) + [Write(r.start, HeaderImage(header, []))]
  }

  /** The transaction a valid header describes. */
  predicate GoodHeader(d: Disk, r: Region) {
    r.FitsIn(d) && HeaderN(d, r) <= LOGSIZE && Loggable(d, r, HeaderBlocks(d, r))
  }

  function HeaderBlocks(d: Disk, r: Region): seq<Word>
    requires r.FitsIn(d) && HeaderN(d, r) <= LOGSIZE
  {
    seq(HeaderN(d, r), k requires 0 <= k < HeaderN(d, r) => HeaderBlock(d, r, k))
  }

  function LoggedData(d: Disk, r: Region): seq<Block>
    requires GoodHeader(d, r)
  {
    d[r.start + 1..r.start + 1 + HeaderN(d, r)]
  }

  /** `recover_from_log`. */
  function RecoveryWrites(d: Disk, r: Region): seq<Write>
    requires GoodHeader(d, r)
  {
    HomeWrites(HeaderBlocks(d, r), LoggedData(d, r)) + [Write(r.start, HeaderImage(d[r.start], []))]
  }

  function Recovered(d: Disk, r: Region): Disk
    requires GoodHeader(d, r)
  {
    Apply(d, RecoveryWrites(d, r))
  }

  /** The home blocks with the transaction applied. */
  function After(d: Disk, blocks: seq<Word>, data: seq<Block>): Disk
    requires |blocks| == |data|
  {
    Apply(d, HomeWrites(blocks, data))
  }

  // ----- crashes

  predicate SameHome(a: Disk, b: Disk, r: Region) {
    |a| == |b| && forall h :: 0 <= h < |a| && !r.Has(h) ==> a[h] == b[h]
  }

  /** Recovery from disk `c` will produce `target` on every home block. */
  predicate Stands(c: Disk, target: Disk, r: Region) {
    && GoodHeader(c, r) && |c| == |target|
    && (forall k :: 0 <= k < HeaderN(c, r) ==> c[r.start + 1 + k] == target[HeaderBlocks(c, r)[k]])
    && (forall h :: 0 <= h < |c| && !r.Has(h) && h !in HeaderBlocks(c, r) ==> c[h] == target[h])
  }

  /** Recovery is started on `d` again and again; attempt i dies after `deaths[i]` writes. */
  ghost predicate CrashChain(d: Disk, r: Region, deaths: seq<nat>, last: Disk)
    decreases |deaths|
  {
    if deaths == [] then last == d
    else
      && GoodHeader(d, r)
      && deaths[0] <= |RecoveryWrites(d, r)|
      && CrashChain(Apply(d, RecoveryWrites(d, r)[..deaths[0]]), r, deaths[1..], last)
  }

  /** What the first j of a batch of writes to distinct places leaves at each place. */
  lemma {:induction false} ApplyHome(d: Disk, blocks: seq<Word>, data: seq<Block>, j: nat, b: nat)
    requires |blocks| == |data| && j <= |blocks| && b < |d|
    requires forall k :: 0 <= k < |blocks| ==> blocks[k] < |d|
    requires forall i, k :: 0 <= i < k < |blocks| ==> blocks[i] != blocks[k]
    ensures b !in blocks[..j] ==> Apply(d, HomeWrites(blocks, data)[..j])[b] == d[b]
    ensures forall k :: 0 <= k < j && blocks[k] == b ==> Apply(d, HomeWrites(blocks, data)[..j])[b] == data[k]
  {
    if j > 0 {
      var ws := HomeWrites(blocks, data);
      assert ws[..j][..j - 1] == ws[..j - 1] && ws[..j][j - 1] == Write(blocks[j - 1], data[j - 1]);
      ApplyHome(d, blocks, data, j - 1, b);
      assert blocks[..j] == blocks[..j - 1] + [blocks[j - 1]];
    }
  }

  lemma {:induction false} ApplyLog(d: Disk, r: Region, data: seq<Block>, j: nat, b: nat)
    requires r.FitsIn(d) && j <= |data| < r.size && b < |d|
    ensures Apply(d, LogWrites(r, data)[..j])[b] ==
            if r.start < b <= r.start + j then data[b - r.start - 1] else d[b]
  {
    if j > 0 {
      var ws := LogWrites(r, data);
      assert ws[..j][..j - 1] == ws[..j - 1] && ws[..j][j - 1] == Write(r.start + j, data[j - 1]);
      ApplyLog(d, r, data, j - 1, b);
    }
  }

  // ----- recovery keeps and then delivers what it stands for

  lemma HeaderCleared(d: Disk, r: Region)
    requires r.FitsIn(d)
    ensures var c := d[r.start := HeaderImage(d[r.start], [])];
            GoodHeader(c, r) && HeaderN(c, r) == 0 && HeaderBlocks(c, r) == []
  {
    HeaderImageReads(d[r.start], [], 0);
  }

  /** A partly installed disk still stands for the same target. */
  lemma InstallKeeps(c: Disk, target: Disk, r: Region, j: nat)
    requires Stands(c, target, r) && j <= HeaderN(c, r)
    ensures Stands(Apply(c, HomeWrites(HeaderBlocks(c, r), LoggedData(c, r))[..j]), target, r)
  {
    hide Apply, WordAt;
    var blocks, data := HeaderBlocks(c, r), LoggedData(c, r);
    var p := Apply(c, HomeWrites(blocks, data)[..j]);
    forall b | 0 <= b < |c|
      ensures r.Has(b) ==> p[b] == c[b]
      ensures p[b] == c[b] || p[b] == target[b]
    {
      ApplyHome(c, blocks, data, j, b);
      if b in blocks[..j] {
        var k :| 0 <= k < j && blocks[..j][k] == b;
        assert blocks[k] == b;
      }
    }
    assert p[r.start] == c[r.start];
    assert HeaderBlocks(p, r) == blocks;
  }

  lemma InstallDelivers(c: Disk, target: Disk, r: Region)
    requires Stands(c, target, r)
    ensures SameHome(Apply(c, HomeWrites(HeaderBlocks(c, r), LoggedData(c, r))), target, r)
  {
    var blocks, data := HeaderBlocks(c, r), LoggedData(c, r);
    var ws := HomeWrites(blocks, data);
    assert ws[..|ws|] == ws && blocks[..|ws|] == blocks;
    forall b | 0 <= b < |c| && !r.Has(b)
      ensures Apply(c, ws)[b] == target[b]
    {
      ApplyHome(c, blocks, data, |ws|, b);
      if b in blocks {
        var k :| 0 <= k < |blocks| && blocks[k] == b;
      }
    }
  }

  lemma RecoveryDelivers(c: Disk, target: Disk, r: Region)
    requires Stands(c, target, r)
    ensures SameHome(Recovered(c, r), target, r)
    ensures GoodHeader(Recovered(c, r), r) && HeaderN(Recovered(c, r), r) == 0
    ensures Stands(Recovered(c, r), target, r)
  {
    var ws := HomeWrites(HeaderBlocks(c, r), LoggedData(c, r));
    InstallDelivers(c, target, r);
    InstallKeeps(c, target, r, |ws|);
    assert ws[..|ws|] == ws;
    var p := Apply(c, ws);
    var w := Write(r.start, HeaderImage(c[r.start], []));
    assert (ws + [w])[..|ws|] == ws;
    LogKept(c, r);
    HeaderCleared(p, r);
  }

  lemma LogKept(c: Disk, r: Region)
    requires GoodHeader(c, r)
    ensures Apply(c, HomeWrites(HeaderBlocks(c, r), LoggedData(c, r)))[r.start] == c[r.start]
  {
    HeaderKept(c, r, HeaderBlocks(c, r), LoggedData(c, r));
  }

  /** A crash at any point of a recovery attempt changes nothing. */
  lemma RecoveryKeeps(c: Disk, target: Disk, r: Region, j: nat)
    requires Stands(c, target, r) && j <= |RecoveryWrites(c, r)|
    ensures Stands(Apply(c, RecoveryWrites(c, r)[..j]), target, r)
  {
    var ws := HomeWrites(HeaderBlocks(c, r), LoggedData(c, r));
    if j <= |ws| {
      assert RecoveryWrites(c, r)[..j] == ws[..j];
      InstallKeeps(c, target, r, j);
    } else {
      assert RecoveryWrites(c, r)[..j] == RecoveryWrites(c, r);
      RecoveryDelivers(c, target, r);
    }
  }

  lemma {:induction false} ChainKeeps(c: Disk, target: Disk, r: Region, deaths: seq<nat>, last: Disk)
    requires Stands(c, target, r) && CrashChain(c, r, deaths, last)
    ensures Stands(last, target, r)
    decreases |deaths|
  {
    if deaths != [] {
      RecoveryKeeps(c, target, r, deaths[0]);
      ChainKeeps(Apply(c, RecoveryWrites(c, r)[..deaths[0]]), target, r, deaths[1..], last);
    }
  }

  // ----- every write boundary of commit stands for one of the two outcomes

  lemma QuietStands(d: Disk, r: Region)
    requires r.FitsIn(d) && HeaderN(d, r) == 0
    ensures Stands(d, d, r)
  {
  }

  lemma LogPhase(d: Disk, r: Region, blocks: seq<Word>, data: seq<Block>, j: nat)
    requires r.FitsIn(d) && HeaderN(d, r) == 0 && Loggable(d, r, blocks) && |blocks| == |data| && j <= |data|
    ensures Stands(Apply(d, LogWrites(r, data)[..j]), d, r)
  {
    var p := Apply(d, LogWrites(r, data)[..j]);
    forall b | 0 <= b < |d|
      ensures p[b] == if r.start < b <= r.start + j then data[b - r.start - 1] else d[b]
    {
      ApplyLog(d, r, data, j, b);
    }
  }

  /** The disk once the header is down: the point at which the transaction commits. */
  function Committed(d: Disk, r: Region, blocks: seq<Word>, data: seq<Block>): Disk
    requires r.FitsIn(d) && Loggable(d, r, blocks) && |blocks| == |data|
  {
    Apply(d, LogWrites(r, data))[r.start := HeaderImage(d[r.start], blocks)]
  }

  lemma CommittedReads(d: Disk, r: Region, blocks: seq<Word>, data: seq<Block>)
    requires r.FitsIn(d) && Loggable(d, r, blocks) && |blocks| == |data|
    ensures var c := Committed(d, r, blocks, data);
            && GoodHeader(c, r) && HeaderBlocks(c, r) == blocks && LoggedData(c, r) == data
            && (forall h :: 0 <= h < |d| && !r.Has(h) ==> c[h] == d[h])
  {
    var c := Committed(d, r, blocks, data);
    var ws := LogWrites(r, data);
    assert ws[..|ws|] == ws;
    forall b | 0 <= b < |d| && b != r.start
      ensures c[b] == if r.start < b <= r.start + |data| then data[b - r.start - 1] else d[b]
    {
      ApplyLog(d, r, data, |data|, b);
    }
    HeaderImageReads(d[r.start], blocks, 0);
    forall k | 0 <= k < |blocks|
      ensures HeaderBlock(c, r, k) == blocks[k]
    {
      HeaderImageReads(d[r.start], blocks, k + 1);
    }
    assert HeaderBlocks(c, r) == blocks;
  }

  lemma AfterReads(d: Disk, r: Region, blocks: seq<Word>, data: seq<Block>, b: nat)
    requires Loggable(d, r, blocks) && |blocks| == |data| && b < |d|
    ensures b !in blocks ==> After(d, blocks, data)[b] == d[b]
    ensures forall k :: 0 <= k < |blocks| && blocks[k] == b ==> After(d, blocks, data)[b] == data[k]
  {
    var ws := HomeWrites(blocks, data);
    assert ws[..|ws|] == ws && blocks[..|ws|] == blocks;
    ApplyHome(d, blocks, data, |ws|, b);
  }

  lemma CommittedStands(d: Disk, r: Region, blocks: seq<Word>, data: seq<Block>)
    requires r.FitsIn(d) && Loggable(d, r, blocks) && |blocks| == |data|
    ensures Stands(Committed(d, r, blocks, data), After(d, blocks, data), r)
  {
    hide WordAt, LogWrites, HeaderImage;
    CommittedReads(d, r, blocks, data);
    forall b | 0 <= b < |d|
      ensures b !in blocks ==> After(d, blocks, data)[b] == d[b]
      ensures forall k :: 0 <= k < |blocks| && blocks[k] == b ==> After(d, blocks, data)[b] == data[k]
    {
      AfterReads(d, r, blocks, data, b);
    }
    var c := Committed(d, r, blocks, data);
    forall k | 0 <= k < |blocks|
      ensures c[r.start + 1 + k] == After(d, blocks, data)[blocks[k]]
    {
      assert LoggedData(c, r)[k] == data[k];
    }
  }

  /** Commit is logging, then exactly one recovery of the disk the header write leaves. */
  lemma CommitSplits(d: Disk, r: Region, blocks: seq<Word>, data: seq<Block>)
    requires r.FitsIn(d) && Loggable(d, r, blocks) && |blocks| == |data|
    ensures GoodHeader(Committed(d, r, blocks, data), r)
    ensures CommitWrites(d, r, blocks, data)
         == LogWrites(r, data) + [Write(r.start, HeaderImage(d[r.start], blocks))]
            + RecoveryWrites(Committed(d, r, blocks, data), r)
    ensures Apply(d, LogWrites(r, data) + [Write(r.start, HeaderImage(d[r.start], blocks))]) ==
            Committed(d, r, blocks, data)
  {
    CommittedReads(d, r, blocks, data);
    var ws := LogWrites(r, data) + [Write(r.start, HeaderImage(d[r.start], blocks))];
    assert ws[..|ws| - 1] == LogWrites(r, data);
    assert CommitWrites(d, r, blocks, data) == ws + RecoveryWrites(Committed(d, r, blocks, data), r);
  }

  /** After the first j writes of commit the disk stands for the old contents when the header
      write is not among them and for the new contents when it is. */
  lemma CommitStands(d: Disk, r: Region, blocks: seq<Word>, data: seq<Block>, j: nat)
    requires r.FitsIn(d) && HeaderN(d, r) == 0 && Loggable(d, r, blocks) && |blocks| == |data|
    requires j <= |CommitWrites(d, r, blocks, data)|
    ensures Stands(Apply(d, CommitWrites(d, r, blocks, data)[..j]),
                   if j <= |blocks| then d else After(d, blocks, data), r)
  {
    var ws := CommitWrites(d, r, blocks, data);
    if j <= |blocks| {
      assert ws[..j] == LogWrites(r, data)[..j];
      LogPhase(d, r, blocks, data, j);
    } else {
      CommitSplits(d, r, blocks, data);
      var c := Committed(d, r, blocks, data);
      var pre := LogWrites(r, data) + [Write(r.start, HeaderImage(d[r.start], blocks))];
      var i := j - |pre|;
      assert ws[..j] == pre + RecoveryWrites(c, r)[..i];
      ApplyConcat(d, pre, RecoveryWrites(c, r)[..i]);
      CommittedStands(d, r, blocks, data);
      RecoveryKeeps(c, After(d, blocks, data), r, i);
    }
  }

  /** Crash atomicity. Commit stops after any number j of its block writes; any number of
      recovery attempts then stop after any number of theirs; one recovery runs to its end.
      Every home block holds its old contents if the first header write was not among the j
      writes, and its new contents if it was; and the log is empty. */
  lemma CrashAtomicity(d: Disk, r: Region, blocks: seq<Word>, data: seq<Block>, j: nat, deaths: seq<nat>, last: Disk)
    requires r.FitsIn(d) && HeaderN(d, r) == 0 && Loggable(d, r, blocks) && |blocks| == |data|
    requires j <= |CommitWrites(d, r, blocks, data)|
    requires CrashChain(Apply(d, CommitWrites(d, r, blocks, data)[..j]), r, deaths, last)
    ensures GoodHeader(last, r)
    ensures SameHome(Recovered(last, r), if j <= |blocks| then d else After(d, blocks, data), r)
    ensures GoodHeader(Recovered(last, r), r) && HeaderN(Recovered(last, r), r) == 0
  {
    var target := if j <= |blocks| then d else After(d, blocks, data);
    CommitStands(d, r, blocks, data, j);
    ChainKeeps(Apply(d, CommitWrites(d, r, blocks, data)[..j]), target, r, deaths, last);
    RecoveryDelivers(last, target, r);
  }

  /** A commit that is not interrupted leaves the new contents on the home blocks and an
      empty log. */
  lemma CommitCompletes(d: Disk, r: Region, blocks: seq<Word>, data: seq<Block>)
    requires r.FitsIn(d) && Loggable(d, r, blocks) && |blocks| == |data|
    ensures var e := Apply(d, CommitWrites(d, r, blocks, data));
            SameHome(e, After(d, blocks, data), r) && HeaderN(e, r) == 0
  {
    CommitSplits(d, r, blocks, data);
    var pre := LogWrites(r, data) + [Write(r.start, HeaderImage(d[r.start], blocks))];
    var c := Committed(d, r, blocks, data);
    ApplyConcat(d, pre, RecoveryWrites(c, r));
    CommittedStands(d, r, blocks, data);
    RecoveryDelivers(c, After(d, blocks, data), r);
  }

  /** Logging puts the contents in the log and leaves the header and the home blocks alone. */
  lemma LogReads(d: Disk, r: Region, data: seq<Block>)
    requires r.FitsIn(d) && |data| < r.size
    ensures var e := Apply(d, LogWrites(r, data));
            && (forall b :: 0 <= b < |d| && (!r.Has(b) || b == r.start) ==> e[b] == d[b])
            && (forall k :: 0 <= k < |data| ==> e[r.start + 1 + k] == data[k])
  {
    var ws := LogWrites(r, data);
    assert ws[..|data|] == ws;
    forall b | 0 <= b < |d|
      ensures Apply(d, ws)[b] == if r.start < b <= r.start + |data| then data[b - r.start - 1] else d[b]
    {
      ApplyLog(d, r, data, |data|, b);
    }
  }

  /** Installing what the blocks already contain changes no home block, and never the log. */
  lemma InstallSame(d: Disk, r: Region, blocks: seq<Word>, data: seq<Block>)
    requires r.FitsIn(d) && Loggable(d, r, blocks) && |data| == |blocks|
    requires forall k :: 0 <= k < |data| ==> data[k] == d[blocks[k]]
    ensures Apply(d, HomeWrites(blocks, data)) == d
  {
    var ws := HomeWrites(blocks, data);
    assert ws[..|ws|] == ws;
    forall b | 0 <= b < |d|
      ensures Apply(d, ws)[b] == d[b]
    {
      ApplyHome(d, blocks, data, |ws|, b);
      if b in blocks[..|ws|] {
        var k :| 0 <= k < |ws| && blocks[..|ws|][k] == b;
        assert blocks[k] == b;
      }
    }
  }

  lemma HeaderKept(d: Disk, r: Region, blocks: seq<Word>, data: seq<Block>)
    requires r.FitsIn(d) && Loggable(d, r, blocks) && |data| == |blocks|
    ensures Apply(d, HomeWrites(blocks, data))[r.start] == d[r.start]
  {
    var ws := HomeWrites(blocks, data);
    assert ws[..|ws|] == ws && blocks[..|ws|] == blocks;
    ApplyHome(d, blocks, data, |ws|, r.start);
  }

  /** What the cache says, what the disk says, and what has been written. */
  datatype Snapshot = Snapshot(flat: Disk, disk: Disk, writes: seq<Write>) {
    /** This snapshot after the given writes, each through the cache to the disk. */
    function Plus(ws: seq<Write>): Snapshot {
      Snapshot(Apply(flat, ws), Apply(disk, ws), writes + ws)
    }
  }

  lemma PlusPlus(s: Snapshot, xs: seq<Write>, ys: seq<Write>)
    ensures s.Plus(xs).Plus(ys) == s.Plus(xs + ys)
  {
    ApplyConcat(s.flat, xs, ys);
    ApplyConcat(s.disk, xs, ys);
  }

  lemma PlusOne(s: Snapshot, w: Write)
    requires w.at < |s.flat| && w.at < |s.disk|
    ensures s.Plus([w]) == Snapshot(s.flat[w.at := w.data], s.disk[w.at := w.data], s.writes + [w])
  {
    assert [w][..0] == [];
    assert Apply(s.flat, []) == s.flat && Apply(s.disk, []) == s.disk;
  }

  lemma PlusNext(s: Snapshot, ws: seq<Write>, k: nat)
    requires k < |ws|
    ensures s.Plus(ws[..k]).Plus([ws[k]]) == s.Plus(ws[..k + 1])
  {
    PlusPlus(s, ws[..k], [ws[k]]);
    assert ws[..k] + [ws[k]] == ws[..k + 1];
  }

  lemma PlusWrites(s: Snapshot, ws: seq<Write>)
    ensures s.Plus(ws).writes == s.writes + ws && s.Plus(ws).disk == Apply(s.disk, ws)
  {
  }

  lemma PlusNone(s: Snapshot)
    ensures s.Plus([]) == s
  {
  }

  /** After `write_log` and the first `write_head`. */
  function Marked(s: Snapshot, r: Region, blocks: seq<Word>): Snapshot
    requires r.FitsIn(s.flat) && Loggable(s.flat, r, blocks)
  {
    s.Plus(LogWrites(r, Picked(s.flat, blocks))).Plus([Write(r.start, HeaderImage(s.flat[r.start], blocks))])
  }

  /** After `install_trans` and the second `write_head`. */
  function Cleared(s: Snapshot, r: Region, blocks: seq<Word>, data: seq<Block>): Snapshot
    requires |s.flat| > r.start && |data| == |blocks|
  {
    s.Plus(HomeWrites(blocks, data)).Plus([Write(r.start, HeaderImage(s.flat[r.start], []))])
  }

  /** Between the two halves the log holds the new contents and no home block has changed. */
  lemma MarkedReads(s: Snapshot, r: Region, blocks: seq<Word>)
    requires r.FitsIn(s.flat) && Loggable(s.flat, r, blocks)
    ensures var e := Marked(s, r, blocks).flat;
            && SameHome(e, s.flat, r) && e[r.start] == HeaderImage(s.flat[r.start], blocks)
            && (forall k :: 0 <= k < |blocks| ==> Picked(s.flat, blocks)[k] == e[r.start + 1 + k])
  {
    var data := Picked(s.flat, blocks);
    LogReads(s.flat, r, data);
    PlusOne(s.Plus(LogWrites(r, data)).(disk := s.Plus(LogWrites(r, data)).flat),
        Write(r.start, HeaderImage(s.flat[r.start], blocks)));
  }

  lemma MarkedIs(s: Snapshot, r: Region, blocks: seq<Word>)
    requires r.FitsIn(s.flat) && Loggable(s.flat, r, blocks)
    ensures var s1 := s.Plus(LogWrites(r, Picked(s.flat, blocks)));
            && |s1.flat| == |s.flat|
            && s1.Plus([Write(r.start, HeaderImage(s1.flat[r.start], blocks))]) == Marked(s, r, blocks)
  {
    LogReads(s.flat, r, Picked(s.flat, blocks));
  }

  /** The two halves of commit are its list of writes, and the cache's view of the home
      blocks is the same before and after. */
  lemma CommitHalves(s: Snapshot, r: Region, blocks: seq<Word>)
    requires r.FitsIn(s.disk) && |s.flat| == |s.disk| && Loggable(s.disk, r, blocks)
    requires s.flat[r.start] == s.disk[r.start]
    ensures var data := Picked(s.flat, blocks);
            && Cleared(Marked(s, r, blocks), r, blocks, data) == s.Plus(CommitWrites(s.disk, r, blocks, data))
            && SameHome(Cleared(Marked(s, r, blocks), r, blocks, data).flat, s.flat, r)
  {
    var data := Picked(s.flat, blocks);
    var header := HeaderImage(s.disk[r.start], blocks);
    var w1, w2 := Write(r.start, header), Write(r.start, HeaderImage(header, []));
    MarkedReads(s, r, blocks);
    PlusPlus(s, LogWrites(r, data), [w1]);
    PlusPlus(s, LogWrites(r, data) + [w1], HomeWrites(blocks, data));
    PlusPlus(s, LogWrites(r, data) + [w1] + HomeWrites(blocks, data), [w2]);
    var e := Marked(s, r, blocks).flat;
    InstallSame(e, r, blocks, data);
    PlusOne(Snapshot(e, e, []), w2);
  }

  /** Recovery after read_head is its list of writes, and empties the log. */
  lemma RecoverySteps(s: Snapshot, r: Region)
    requires s.flat == s.disk && GoodHeader(s.disk, r)
    ensures var e := Cleared(s, r, HeaderBlocks(s.disk, r), LoggedData(s.disk, r));
            e == s.Plus(RecoveryWrites(s.disk, r)) && r.FitsIn(e.disk) && HeaderN(e.disk, r) == 0
  {
    var ws := HomeWrites(HeaderBlocks(s.disk, r), LoggedData(s.disk, r));
    var w := Write(r.start, HeaderImage(s.disk[r.start], []));
    PlusPlus(s, ws, [w]);
    PlusOne(s.Plus(ws), w);
    HeaderImageReads(s.disk[r.start], [], 0);
  }

  // ----- atomicity of a list of writes

  /** However often a machine that issues `plan` on disk `d` crashes, in the plan or in
      recovery, the next recovery that runs to its end leaves all of `d` or all of `target`
      on the home blocks. */
  ghost predicate Atomic(d: Disk, r: Region, plan: seq<Write>, target: Disk) {
    forall j: nat, deaths, last: Disk :: j <= |plan| && CrashChain(Apply(d, plan[..j]), r, deaths, last) ==>
      GoodHeader(last, r) && (SameHome(Recovered(last, r), d, r) || SameHome(Recovered(last, r), target, r))
  }

  lemma CommitIsAtomic(d: Disk, r: Region, blocks: seq<Word>, data: seq<Block>)
    requires r.FitsIn(d) && HeaderN(d, r) == 0 && Loggable(d, r, blocks) && |blocks| == |data|
    ensures Atomic(d, r, CommitWrites(d, r, blocks, data), After(d, blocks, data))
  {
    var ws := CommitWrites(d, r, blocks, data);
    forall j: nat, deaths, last: Disk | j <= |ws| && CrashChain(Apply(d, ws[..j]), r, deaths, last)
      ensures GoodHeader(last, r)
      ensures SameHome(Recovered(last, r), d, r) || SameHome(Recovered(last, r), After(d, blocks, data), r)
    {
      CrashAtomicity(d, r, blocks, data, j, deaths, last);
    }
  }

  lemma NothingIsAtomic(d: Disk, r: Region)
    requires r.FitsIn(d) && HeaderN(d, r) == 0
    ensures Atomic(d, r, [], d)
  {
    var none: seq<Write> := [];
    forall j: nat, deaths, last: Disk | j <= |none| && CrashChain(Apply(d, none[..j]), r, deaths, last)
      ensures GoodHeader(last, r) && SameHome(Recovered(last, r), d, r)
    {
      QuietStands(d, r);
      ChainKeeps(d, d, r, deaths, last);
      RecoveryDelivers(last, d, r);
    }
  }

  /** Only the home blocks of the target matter. */
  lemma AtomicTarget(d: Disk, r: Region, plan: seq<Write>, target: Disk, target': Disk)
    requires Atomic(d, r, plan, target) && SameHome(target, target', r)
    ensures Atomic(d, r, plan, target')
  {
    forall j: nat, deaths, last: Disk | j <= |plan| && CrashChain(Apply(d, plan[..j]), r, deaths, last)
      ensures GoodHeader(last, r)
      ensures SameHome(Recovered(last, r), d, r) || SameHome(Recovered(last, r), target', r)
    {
    }
  }
}
