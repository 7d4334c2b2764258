/** filewrite of kernel/file.c: a write to an open file in chunks, each chunk one transaction of
    the log. Here the inode layer and the logging layer meet. */
module FileWrite {
  import opened Blocks
  import opened RedoLog
  import opened FsLayout
  import opened FsState
  import L = Log
  import F = Fs

  /** The most bytes one chunk may have: ((MAXOPBLOCKS-1-1-2) / 2) * BSIZE. */
  const MAXCHUNK := 3072

  /** An open file. */
  class File {
    const ip: F.Inode
    var off: Word

    constructor (ip: F.Inode, off: Word)
      ensures this.ip == ip && this.off == off
    {
      this.ip, this.off := ip, off;
    }
  }

  // ----- the size of a transaction

  /** A chunk lies in at most three blocks, or four if it starts inside a block. */
  lemma ChunkSpan(off: nat, tot: nat)
    requires tot <= MAXCHUNK
    ensures Spanned(off, tot) <= if off % BSIZE == 0 then 3 else 4
  {
    if tot > 0 {
      assert (off + tot - 1) / BSIZE <= off / BSIZE + (off % BSIZE + tot - 1) / BSIZE;
    }
  }

  // ----- what is on the disk as a file

  ghost predicate FileOk(d: Disk, sb: Superblock, inum: nat) {
    && sb.Laid(d) && inum < sb.ninodes && FsOk(d, sb, inum, DiskInode(d, sb, inum))
    && DiskInode(d, sb, inum).size <= MAXFILE * BSIZE
  }

  ghost function FileBytes(d: Disk, sb: Superblock, inum: nat): seq<Byte>
    requires FileOk(d, sb, inum)
  {
    Content(d, DiskInode(d, sb, inum))
  }

  function LogRegion(sb: Superblock): Region {
    Region(sb.logstart, sb.nlog)
  }

  /** Ownership and contents do not look into the log. */
  lemma HomeOnly(d: Disk, e: Disk, sb: Superblock, inum: nat)
    requires FileOk(d, sb, inum) && SameHome(d, e, LogRegion(sb))
    ensures FileOk(e, sb, inum) && FileBytes(e, sb, inum) == FileBytes(d, sb, inum)
  {
    hide InodeAt, SlotOf, Used;
    var v := DiskInode(d, sb, inum);
    HomeInodes(d, e, sb, inum);
    HomeTable(d, e, sb, inum, v);
    HomeBitmap(d, e, sb);
    var row := Row(d, sb, inum, v, inum);
    assert TableOf(d, sb, inum, v)[inum] == row && TableOf(e, sb, inum, v)[inum] == Row(e, sb, inum, v, inum);
    forall o | 0 <= o < v.size
      ensures FileByte(e, row, o) == FileByte(d, row, o)
    {
      RefFacts(d, sb, inum, v, inum, SlotOf(o / BSIZE));
    }
    assert Content(e, v) == Content(d, v);
  }

  lemma HomeInodes(d: Disk, e: Disk, sb: Superblock, k: nat)
    requires sb.Laid(d) && SameHome(d, e, LogRegion(sb)) && k < sb.ninodes
    ensures sb.Laid(e) && DiskInode(e, sb, k) == DiskInode(d, sb, k)
  {
    hide InodeAt;
  }

  lemma HomeBitmap(d: Disk, e: Disk, sb: Superblock)
    requires sb.Laid(d) && SameHome(d, e, LogRegion(sb))
    ensures sb.Laid(e) && Bitmap(e, sb) == Bitmap(d, sb)
  {
    hide BlockBit;
    forall b | 0 <= b < sb.size
      ensures Used(e, sb, b) == Used(d, sb, b)
    {
    }
  }

  lemma HomeTable(d: Disk, e: Disk, sb: Superblock, inum: nat, v: Dinode)
    requires FsOk(d, sb, inum, v) && SameHome(d, e, LogRegion(sb))
    ensures sb.Laid(e) && TableOf(e, sb, inum, v) == TableOf(d, sb, inum, v)
  {
    hide InodeAt, Used;
    forall k | 0 <= k < sb.ninodes
      ensures Row(e, sb, inum, v, k) == Row(d, sb, inum, v, k)
    {
      HomeInodes(d, e, sb, k);
      RefFacts(d, sb, inum, v, k, NDIRECT);
      assert Row(d, sb, inum, v, k)[NDIRECT] == Ino(d, sb, inum, v, k).addrs[NDIRECT];
    }
  }

  /** Every inode is a consistent file. */
  ghost predicate AllFiles(d: Disk, sb: Superblock) {
    sb.Laid(d) && forall k :: 0 <= k < sb.ninodes ==> FileOk(d, sb, k)
  }

  /** Disk e has the files of disk d: the same inodes with the same bytes. */
  ghost predicate SameFiles(d: Disk, e: Disk, sb: Superblock) {
    && AllFiles(d, sb) && AllFiles(e, sb)
    && (forall k :: 0 <= k < sb.ninodes ==>
          DiskInode(e, sb, k) == DiskInode(d, sb, k) && FileBytes(e, sb, k) == FileBytes(d, sb, k))
  }

  lemma HomeFiles(d: Disk, e: Disk, sb: Superblock)
    requires AllFiles(d, sb) && SameHome(d, e, LogRegion(sb))
    ensures SameFiles(d, e, sb)
  {
    hide FileOk, SameHome;
    HomeBitmap(d, e, sb);
    forall k | 0 <= k < sb.ninodes
      ensures FileOk(e, sb, k) && DiskInode(e, sb, k) == DiskInode(d, sb, k)
      ensures FileBytes(e, sb, k) == FileBytes(d, sb, k)
    {
      HomeOnly(d, e, sb, k);
      HomeInodes(d, e, sb, k);
    }
  }

  /** Whatever crashes happen while `plan` is written to `disk` and during recovery, the recovered
      disk has the files of d0 or the files of d1. */
  ghost predicate FilesAtomic(disk: Disk, plan: seq<Write>, sb: Superblock, d0: Disk, d1: Disk) {
    forall j: nat, deaths, last: Disk ::
      j <= |plan| && CrashChain(Apply(disk, plan[..j]), LogRegion(sb), deaths, last) ==>
      OneOf(last, sb, d0, d1)
  }

  ghost predicate OneOf(last: Disk, sb: Superblock, d0: Disk, d1: Disk) {
    && GoodHeader(last, LogRegion(sb))
    && (SameFiles(d0, Recovered(last, LogRegion(sb)), sb) || SameFiles(d1, Recovered(last, LogRegion(sb)), sb))
  }

  /** Crash atomicity seen from the files. */
  lemma FileCrashAtomicity(disk: Disk, plan: seq<Write>, sb: Superblock, d0: Disk, d1: Disk)
    requires AllFiles(d0, sb) && AllFiles(d1, sb) && SameHome(disk, d0, LogRegion(sb))
    requires Atomic(disk, LogRegion(sb), plan, d1)
    ensures FilesAtomic(disk, plan, sb, d0, d1)
  {
    hide AllFiles, SameFiles, SameHome, GoodHeader;
    forall j: nat, deaths, last: Disk | j <= |plan| && CrashChain(Apply(disk, plan[..j]), LogRegion(sb), deaths, last)
      ensures OneOf(last, sb, d0, d1)
    {
      var r := Recovered(last, LogRegion(sb));
      if SameHome(r, disk, LogRegion(sb)) {
        SameHomeTransitive(r, disk, d0, LogRegion(sb));
        SameHomeSymmetric(r, d0, LogRegion(sb));
        HomeFiles(d0, r, sb);
      } else {
        SameHomeSymmetric(r, d1, LogRegion(sb));
        HomeFiles(d1, r, sb);
      }
    }
  }

  /** Work on one file keeps all files consistent and the others what they were. */
  lemma FilesStay(d: Disk, e: Disk, sb: Superblock, inum: nat)
    requires AllFiles(d, sb) && SameOthers(d, e, sb, inum) && FileOk(e, sb, inum)
    ensures AllFiles(e, sb)
    ensures forall k :: 0 <= k < sb.ninodes && k != inum ==> FileBytes(e, sb, k) == FileBytes(d, sb, k)
  {
    hide FsOk, SameOthers, Content;
    forall k | 0 <= k < sb.ninodes && k != inum
      ensures FileOk(e, sb, k) && FileBytes(e, sb, k) == FileBytes(d, sb, k)
    {
      assert FileOk(d, sb, k);
      OthersContent(d, e, sb, inum, k);
      Refocus(e, sb, inum, k);
    }
  }

  lemma SameHomeSymmetric(a: Disk, b: Disk, r: Region)
    requires SameHome(a, b, r)
    ensures SameHome(b, a, r)
  {
  }

  // ----- filewrite

  /** The in-memory inode is what the disk has, and the file has no holes. */
  ghost predicate Synced(fs: F.Fs, ip: F.Inode)
    reads fs, ip
  {
    && fs.Inv(ip) && ip.size <= MAXFILE * BSIZE && DiskInode(fs.d, fs.sb, ip.inum) == ip.Value()
    && HoleFree(fs.RowOf(ip), ip.size) && AllFiles(fs.d, fs.sb)
  }

  /** The inode layer runs on an idle log: outside the log area both see the same blocks. */
  ghost predicate Stacked(fs: F.Fs, log: L.Log)
    reads fs, log, log.cache, log.cache.disk
  {
    && log.Idle() && log.region == LogRegion(fs.sb) && log.region.size > MAXOPBLOCKS + 1
    && SameHome(log.cache.flat, fs.d, log.region)
  }

  lemma {:induction false} ApplySameHome(a: Disk, b: Disk, r: Region, ws: seq<Write>)
    requires SameHome(a, b, r)
    ensures SameHome(Apply(a, ws), Apply(b, ws), r)
  {
    if ws != [] {
      ApplySameHome(a, b, r, ws[..|ws| - 1]);
    }
  }

  /** A chunk never logs more than MAXOPBLOCKS blocks: with hole-free files an unaligned first
      block is already there, so four data blocks come with at most three allocations. */
  lemma ChunkFits(fs: F.Fs, ip: F.Inode, st: Start, off: nat, chunk: seq<Byte>, r: nat)
    requires |chunk| <= MAXCHUNK && fs.Written(ip, st, off, chunk, r, r) && r <= |chunk| && st.touched == {}
    requires HoleFree(st.row, st.v.size)
    ensures |Touched(fs.writes)| <= MAXOPBLOCKS
  {
    hide Spanned, HoleFree, FsOk, SameOthers, Touched;
    ChunkSpan(off, r);
    if r == 0 {
      SpannedZero(off);
    }
  }

  /** The log takes the writes of a chunk. */
  lemma LogTakes(fs: F.Fs, ip: F.Inode, log: L.Log)
    requires fs.Inv(ip) && log.region == LogRegion(fs.sb) && log.region.size > MAXOPBLOCKS + 1
    requires |log.cache.flat| == |fs.d| && |Touched(fs.writes)| <= MAXOPBLOCKS
    ensures log.Fits(fs.writes)
  {
    hide Touched;
  }

  /** What a chunk does to the file. */
  ghost predicate Advanced(fs: F.Fs, f: File, d0: Disk, v0: Dinode, off0: Word, chunk: seq<Byte>, r: int)
    reads fs, f, f.ip
  {
    && Synced(fs, f.ip) && SameOthers(d0, fs.d, fs.sb, f.ip.inum) && |Touched(fs.writes)| <= MAXOPBLOCKS
    && |v0.addrs| == NDIRECT + 1 && v0.size <= MAXFILE * BSIZE
    && (r == -1 <==> F.Refused(v0.size, off0, |chunk|))
    && (r == -1 ==> f.off == off0 && fs.d == d0 && f.ip.Value() == v0)
    && (0 <= r < |chunk| ==> Full(fs.d, fs.sb))
    && (r != -1 ==> 0 <= r <= |chunk| && off0 <= v0.size && f.off == off0 + r
                    && Content(fs.d, f.ip.Value()) == Splice(Content(d0, v0), off0, chunk[..r]))
  }

  /** The part of a chunk between begin_op and end_op. */
  method WriteInode(fs: F.Fs, f: File, chunk: seq<Byte>) returns (r: int)
    requires Synced(fs, f.ip) && |chunk| <= MAXCHUNK
    modifies fs, f, f.ip
    ensures Advanced(fs, f, old(fs.d), old(f.ip.Value()), old(f.off), chunk, r)
    ensures fs.Logged() && fs.base == old(fs.d)
  {
    hide FsOk, Touched, SameOthers, HoleFree, Content, Splice, Row, F.Fs.Logged, Full, AllFiles;
    hide F.HoleAt, F.Unlogged, F.Refused, Spanned;
    ghost var d0 := fs.d;
    fs.Begin();
    TouchedNothing();
    var left;
    r, left := fs.Writei(f.ip, f.off, chunk, |chunk|, 0);
    assert left == [];
    fs.RowFacts(f.ip);
    if r > 0 {
      f.off := f.off + r;
    }
    if r != -1 {
      ChunkFits(fs, f.ip, old(Start(fs.d, fs.RowOf(f.ip), f.ip.Value(), {})), old(f.off), chunk, r);
      FilesStay(d0, fs.d, fs.sb, f.ip.inum);
    } else {
      SameOthersRefl(fs, f.ip);
    }
    fs.End();
  }

  lemma TouchedNothing()
    ensures Touched([]) == {}
  {
  }

  lemma SameOthersRefl(fs: F.Fs, ip: F.Inode)
    requires fs.Inv(ip)
    ensures SameOthers(fs.d, fs.d, fs.sb, ip.inum)
  {
    Unchanged(fs.d, fs.sb, ip.inum, ip.Value(), 0);
  }

  /** The log carries the same writes out, atomically. */
  method PushOut(fs: F.Fs, ip: F.Inode, log: L.Log, ghost op: nat) returns (ghost plan: seq<Write>)
    requires fs.Inv(ip) && |Touched(fs.writes)| <= MAXOPBLOCKS && AllFiles(fs.base, fs.sb) && AllFiles(fs.d, fs.sb)
    requires log.Idle() && log.region == LogRegion(fs.sb) && log.region.size > MAXOPBLOCKS + 1
    requires SameHome(log.cache.flat, fs.base, log.region)
    modifies log, log.cache, log.cache.disk
    ensures Stacked(fs, log) && Issued(log, old(log.cache.disk.writes), old(log.cache.disk.blocks), plan)
    ensures FilesAtomic(old(log.cache.disk.blocks), plan, fs.sb, fs.base, fs.d)
  {
    hide FsOk, Touched, SameHome, Atomic, Apply, L.Log.Idle, L.Log.Fits, AllFiles, FilesAtomic;
    SameSize(log.cache.flat, fs, log.region);
    LogTakes(fs, ip, log);
    log.IdleClean();
    ApplySameHome(log.cache.flat, fs.base, log.region, fs.writes);
    ghost var flat0, disk0 := log.cache.flat, log.cache.disk.blocks;
    plan := log.RunOperation(op, fs.writes);
    SameHomeTransitive(log.cache.flat, Apply(flat0, fs.writes), fs.d, log.region);
    AtomicTarget(disk0, log.region, plan, Apply(disk0, fs.writes), fs.d);
    FileCrashAtomicity(disk0, plan, fs.sb, fs.base, fs.d);
  }

  /** Since the disk had the given writes and blocks it has been written by `plan`. */
  ghost predicate Issued(log: L.Log, writes0: seq<Write>, blocks0: Disk, plan: seq<Write>)
    reads log, log.cache, log.cache.disk
  {
    log.cache.disk.writes == writes0 + plan && log.cache.disk.blocks == Apply(blocks0, plan)
  }

  lemma SameSize(flat: Disk, fs: F.Fs, r: Region)
    requires SameHome(flat, fs.base, r) && fs.Logged()
    ensures |flat| == |fs.d|
  {
  }

  lemma SameHomeTransitive(a: Disk, b: Disk, c: Disk, r: Region)
    requires SameHome(a, b, r) && SameHome(b, c, r)
    ensures SameHome(a, c, r)
  {
  }

  /** One chunk of filewrite: begin_op, writei, end_op. It logs at most MAXOPBLOCKS blocks. Whatever
      crashes happen while it is written out and during recovery, every file on the recovered disk
      has all the bytes it had before the chunk, or every file has all those it has after it. */
  method WriteChunk(fs: F.Fs, f: File, chunk: seq<Byte>, log: L.Log, ghost op: nat)
      returns (r: int, ghost plan: seq<Write>)
    requires Synced(fs, f.ip) && Stacked(fs, log) && |chunk| <= MAXCHUNK
    modifies fs, f, f.ip, log, log.cache, log.cache.disk
    ensures Advanced(fs, f, old(fs.d), old(f.ip.Value()), old(f.off), chunk, r) && Stacked(fs, log)
    ensures Issued(log, old(log.cache.disk.writes), old(log.cache.disk.blocks), plan)
    ensures FilesAtomic(old(log.cache.disk.blocks), plan, fs.sb, old(fs.d), fs.d)
  {
    hide FsOk, Touched, SameHome, SameOthers, L.Log.Idle, HoleFree, Content, Splice, F.Refused, F.Fs.Logged;
    hide AllFiles, FilesAtomic, Full;
    r := WriteInode(fs, f, chunk);
    plan := PushOut(fs, f.ip, log, op);
  }

  /** Two adjacent writes are one. */
  lemma SpliceSplice(c: seq<Byte>, off: nat, a: seq<Byte>, b: seq<Byte>)
    requires off <= |c|
    ensures off + |a| <= |Splice(c, off, a)| && Splice(Splice(c, off, a), off + |a|, b) == Splice(c, off, a + b)
  {
    var one := Splice(c, off, a);
    var two, both := Splice(one, off + |a|, b), Splice(c, off, a + b);
    assert one[..off + |a|] == c[..off] + a;
    assert |two| == |both|;
    forall i | 0 <= i < |two|
      ensures two[i] == both[i]
    {
      if i >= off + |a| + |b| {
        assert two[i] == one[i] && one[i] == c[i] && both[i] == c[i];
      }
    }
  }

  /** filewrite has written the first k bytes of src. */
  ghost predicate Progress(fs: F.Fs, f: File, d0: Disk, v0: Dinode, off0: Word, src: seq<Byte>, k: nat)
    reads fs, f, f.ip
  {
    && Synced(fs, f.ip) && SameOthers(d0, fs.d, fs.sb, f.ip.inum) && k <= |src|
    && |v0.addrs| == NDIRECT + 1 && v0.size <= MAXFILE * BSIZE && f.off == off0 + k
    && (off0 <= v0.size ==> Content(fs.d, f.ip.Value()) == Splice(Content(d0, v0), off0, src[..k]))
    && (off0 > v0.size ==> k == 0 && fs.d == d0 && f.ip.Value() == v0)
  }

  /** One round of the loop: progress by r bytes. */
  lemma MoreProgress(fs: F.Fs, f: File, d0: Disk, v0: Dinode, off0: Word, src: seq<Byte>, k: nat,
                     d1: Disk, v1: Dinode, off1: Word, n1: nat, r: int)
    requires k + n1 <= |src| && |v0.addrs| == NDIRECT + 1 && v0.size <= MAXFILE * BSIZE && off1 == off0 + k
    requires SameOthers(d0, d1, fs.sb, f.ip.inum) && |v1.addrs| == NDIRECT + 1 && v1.size <= MAXFILE * BSIZE
    requires off0 <= v0.size ==> Content(d1, v1) == Splice(Content(d0, v0), off0, src[..k])
    requires off0 > v0.size ==> k == 0 && d1 == d0 && v1 == v0
    requires Advanced(fs, f, d1, v1, off1, src[k..k + n1], r)
    ensures Progress(fs, f, d0, v0, off0, src, if r > 0 then k + r else k)
  {
    hide FsOk, Touched, SameOthers, HoleFree, Content, Splice, Full, F.Refused, F.Fs.Logged;
    OthersTransitive(d0, d1, fs.d, fs.sb, f.ip.inum);
    if off0 > v0.size {
      RefusedPastEnd(v0.size, off0, n1);
    } else if r != -1 {
      SpliceSplice(Content(d0, v0), off0, src[..k], src[k..k + n1][..r]);
      Slices(src, k, n1, r);
    }
  }

  lemma Slices(src: seq<Byte>, k: nat, n: nat, r: nat)
    requires r <= n && k + n <= |src|
    ensures src[..k] + src[k..k + n][..r] == src[..k + r]
  {
    assert src[k..k + n][..r] == src[k..k + r];
  }

  lemma SpliceNothing(c: seq<Byte>, off: nat)
    requires off <= |c|
    ensures Splice(c, off, []) == c
  {
  }

  lemma RefusedPastEnd(size: Word, off: Word, n: nat)
    requires off > size
    ensures F.Refused(size, off, n)
  {
  }

  // ----- crashes during filewrite

  /** Disk d has the files of d0, but for the first k bytes of src in file inum at off0; nothing in
      it if off0 is past the end. */
  ghost predicate Reached(d: Disk, sb: Superblock, inum: nat, d0: Disk, off0: Word, src: seq<Byte>, k: nat) {
    && AllFiles(d0, sb) && AllFiles(d, sb) && inum < sb.ninodes && k <= |src|
    && (forall i :: 0 <= i < sb.ninodes && i != inum ==> FileBytes(d, sb, i) == FileBytes(d0, sb, i))
    && FileBytes(d, sb, inum) == Patched(FileBytes(d0, sb, inum), off0, src[..k])
  }

  function Patched(c: seq<Byte>, off: nat, bytes: seq<Byte>): seq<Byte> {
    if off <= |c| then Splice(c, off, bytes) else c
  }

  lemma ReachedToo(d: Disk, e: Disk, sb: Superblock, inum: nat, d0: Disk, off0: Word, src: seq<Byte>, k: nat)
    requires Reached(d, sb, inum, d0, off0, src, k) && SameFiles(d, e, sb)
    ensures Reached(e, sb, inum, d0, off0, src, k)
  {
    hide FileOk, FileBytes, Patched;
  }

  lemma ProgressReached(fs: F.Fs, f: File, d0: Disk, v0: Dinode, off0: Word, src: seq<Byte>, k: nat)
    requires Progress(fs, f, d0, v0, off0, src, k) && AllFiles(d0, fs.sb) && f.ip.inum < fs.sb.ninodes
    requires DiskInode(d0, fs.sb, f.ip.inum) == v0
    ensures Reached(fs.d, fs.sb, f.ip.inum, d0, off0, src, k)
  {
    hide FsOk, SameOthers, Splice, HoleFree, Content, F.Fs.Logged;
    assert FileOk(fs.d, fs.sb, f.ip.inum) && FileOk(d0, fs.sb, f.ip.inum);
    FilesStay(d0, fs.d, fs.sb, f.ip.inum);
  }

  /** Recovery leaves the file with src written up to the end of a chunk, at most k bytes of it. */
  ghost predicate AtBoundary(last: Disk, sb: Superblock, inum: nat, d0: Disk, off0: Word, src: seq<Byte>, k: nat) {
    && GoodHeader(last, LogRegion(sb))
    && exists i :: (i == k || (0 <= i < k && i % MAXCHUNK == 0))
                   && Reached(Recovered(last, LogRegion(sb)), sb, inum, d0, off0, src, i)
  }

  /** So it is whatever crashes happen while `plan` is written to `disk` and during recovery. */
  ghost predicate CrashSafe(disk: Disk, plan: seq<Write>, sb: Superblock, inum: nat, d0: Disk, off0: Word,
                            src: seq<Byte>, k: nat) {
    forall j: nat, deaths, last: Disk ::
      j <= |plan| && CrashChain(Apply(disk, plan[..j]), LogRegion(sb), deaths, last) ==>
      AtBoundary(last, sb, inum, d0, off0, src, k)
  }

  /** A crash before or in the next chunk. */
  lemma NextSafe(last: Disk, sb: Superblock, inum: nat, d0: Disk, off0: Word, src: seq<Byte>, d1: Disk, k1: nat,
                 d2: Disk, k2: nat)
    requires k1 <= k2 && k1 % MAXCHUNK == 0
    requires Reached(d1, sb, inum, d0, off0, src, k1) && Reached(d2, sb, inum, d0, off0, src, k2)
    requires AtBoundary(last, sb, inum, d0, off0, src, k1) || OneOf(last, sb, d1, d2)
    ensures AtBoundary(last, sb, inum, d0, off0, src, k2)
  {
    hide Reached, SameFiles, Recovered, GoodHeader;
    if OneOf(last, sb, d1, d2) {
      var r := Recovered(last, LogRegion(sb));
      if SameFiles(d1, r, sb) {
        ReachedToo(d1, r, sb, inum, d0, off0, src, k1);
      } else {
        ReachedToo(d2, r, sb, inum, d0, off0, src, k2);
      }
    }
  }

  lemma MoreSafe(disk: Disk, plan: seq<Write>, more: seq<Write>, sb: Superblock, inum: nat, d0: Disk, off0: Word,
                 src: seq<Byte>, d1: Disk, k1: nat, d2: Disk, k2: nat)
    requires CrashSafe(disk, plan, sb, inum, d0, off0, src, k1) && FilesAtomic(Apply(disk, plan), more, sb, d1, d2)
    requires k1 <= k2 && k1 % MAXCHUNK == 0
    requires Reached(d1, sb, inum, d0, off0, src, k1) && Reached(d2, sb, inum, d0, off0, src, k2)
    ensures CrashSafe(disk, plan + more, sb, inum, d0, off0, src, k2)
  {
    hide Reached, AtBoundary, OneOf, CrashChain, Apply;
    forall j: nat, deaths, last: Disk |
      j <= |plan + more| && CrashChain(Apply(disk, (plan + more)[..j]), LogRegion(sb), deaths, last)
      ensures AtBoundary(last, sb, inum, d0, off0, src, k2)
    {
      if j <= |plan| {
        assert (plan + more)[..j] == plan[..j];
      } else {
        var i := j - |plan|;
        assert (plan + more)[..j] == plan + more[..i];
        ApplyConcat(disk, plan, more[..i]);
      }
      NextSafe(last, sb, inum, d0, off0, src, d1, k1, d2, k2);
    }
  }

  /** Before anything is written. */
  lemma StartSafe(fs: F.Fs, f: File, src: seq<Byte>, log: L.Log)
    requires Synced(fs, f.ip) && Stacked(fs, log)
    ensures Issued(log, log.cache.disk.writes, log.cache.disk.blocks, [])
    ensures CrashSafe(log.cache.disk.blocks, [], fs.sb, f.ip.inum, fs.d, f.off, src, 0)
  {
    hide FsOk, HoleFree, SameHome, AllFiles, Atomic, F.Fs.Logged, L.Log.Idle, GoodHeader, Recovered;
    var disk, none: seq<Write> := log.cache.disk.blocks, [];
    IdleHeader(log);
    fs.RowFacts(f.ip);
    StartProgress(fs, f, src);
    ProgressReached(fs, f, fs.d, f.ip.Value(), f.off, src, 0);
    NothingIsAtomic(disk, log.region);
    AtomicTarget(disk, log.region, none, disk, fs.d);
    FileCrashAtomicity(disk, none, fs.sb, fs.d, fs.d);
    forall j: nat, deaths, last: Disk | j <= |none| && CrashChain(Apply(disk, none[..j]), log.region, deaths, last)
      ensures AtBoundary(last, fs.sb, f.ip.inum, fs.d, f.off, src, 0)
    {
      NextSafe(last, fs.sb, f.ip.inum, fs.d, f.off, src, fs.d, 0, fs.d, 0);
    }
  }

  lemma IdleHeader(log: L.Log)
    requires log.Idle()
    ensures log.region.FitsIn(log.cache.disk.blocks) && HeaderN(log.cache.disk.blocks, log.region) == 0
    ensures log.cache.flat == log.cache.disk.blocks
  {
    log.IdleClean();
  }

  // ----- the loop

  /** Why a chunk can fall short. */
  ghost predicate CutShort(fs: F.Fs, f: File)
    reads fs, f, f.ip
  {
    Full(fs.d, fs.sb) || exists m :: 0 < m <= MAXCHUNK && F.Refused(f.ip.size, f.off, m)
  }

  /** The state in which filewrite began: what is on the disk, and the file. */
  datatype Before = Before(writes: seq<Write>, disk: Disk, d: Disk, v: Dinode, off: Word)

  /** filewrite has written k bytes with the block writes in `plan`. */
  ghost predicate Under(fs: F.Fs, f: File, log: L.Log, b: Before, src: seq<Byte>, k: nat, plan: seq<Write>)
    reads fs, f, f.ip, log, log.cache, log.cache.disk
  {
    && Stacked(fs, log) && Progress(fs, f, b.d, b.v, b.off, src, k)
    && AllFiles(b.d, fs.sb) && f.ip.inum < fs.sb.ninodes && DiskInode(b.d, fs.sb, f.ip.inum) == b.v
    && Issued(log, b.writes, b.disk, plan) && CrashSafe(b.disk, plan, fs.sb, f.ip.inum, b.d, b.off, src, k)
  }

  /** One round of the loop of `filewrite`. */
  method FileRound(fs: F.Fs, f: File, src: seq<Byte>, k: nat, n1: nat, log: L.Log, ghost b: Before,
                   ghost plan: seq<Write>)
      returns (r: int, ghost plan': seq<Write>)
    requires Under(fs, f, log, b, src, k, plan) && k % MAXCHUNK == 0 && 0 < n1 <= MAXCHUNK && k + n1 <= |src|
    modifies fs, f, f.ip, log, log.cache, log.cache.disk
    ensures -1 <= r <= n1 && Under(fs, f, log, b, src, if r > 0 then k + r else k, plan')
    ensures r < n1 ==> CutShort(fs, f)
  {
    hide FsOk, Touched, SameOthers, HoleFree, Content, Splice, Full, F.Refused, F.Fs.Logged, L.Log.Idle;
    hide SameHome, AllFiles, FilesAtomic, CrashSafe, Reached, Apply;
    ghost var d1, v1, off1 := fs.d, f.ip.Value(), f.off;
    ProgressReached(fs, f, b.d, b.v, b.off, src, k);
    ghost var more;
    r, more := WriteChunk(fs, f, src[k..k + n1], log, 0);
    MoreProgress(fs, f, b.d, b.v, b.off, src, k, d1, v1, off1, n1, r);
    ghost var k' := if r > 0 then k + r else k;
    ProgressReached(fs, f, b.d, b.v, b.off, src, k');
    MoreSafe(b.disk, plan, more, fs.sb, f.ip.inum, b.d, b.off, src, d1, k, fs.d, k');
    ApplyConcat(b.disk, plan, more);
    plan' := plan + more;
    assert b.writes + plan + more == b.writes + plan';
  }

  /** `filewrite` to a file: n when all of src has been written; -1 when a chunk was refused or
      fell short, after the bytes before that point have been written. Wherever it crashes, and
      however often recovery does, in the end the file has src written up to the end of a chunk
      and the other files are as they were. */
  method Filewrite(fs: F.Fs, f: File, n: int, src: seq<Byte>, log: L.Log)
      returns (ret: int, ghost k: nat, ghost plan: seq<Write>)
    requires Synced(fs, f.ip) && Stacked(fs, log) && |src| == if n < 0 then 0 else n
    modifies fs, f, f.ip, log, log.cache, log.cache.disk
    ensures Stacked(fs, log) && Progress(fs, f, old(fs.d), old(f.ip.Value()), old(f.off), src, k)
    ensures ret == if 0 <= n == k then n else -1
    ensures k < n ==> CutShort(fs, f)
    ensures Issued(log, old(log.cache.disk.writes), old(log.cache.disk.blocks), plan)
    ensures CrashSafe(old(log.cache.disk.blocks), plan, fs.sb, f.ip.inum, old(fs.d), old(f.off), src, k)
  {
    hide FsOk, Progress, Stacked, CutShort, CrashSafe, AllFiles, HoleFree, F.Fs.Logged, Under, Synced, Issued;
    ghost var b := Before(log.cache.disk.writes, log.cache.disk.blocks, fs.d, f.ip.Value(), f.off);
    StartUnder(fs, f, src, log);
    var i := 0;
    k, plan := 0, [];
    while i < n
      invariant i == k <= |src| && (i < n ==> i % MAXCHUNK == 0) && Under(fs, f, log, b, src, k, plan)
    {
      var n1 := if n - i > MAXCHUNK then MAXCHUNK else n - i;
      var r;
      r, plan := FileRound(fs, f, src, i, n1, log, b, plan);
      k := if r > 0 then k + r else k;
      if r != n1 {
        UnderMeans(fs, f, log, b, src, k, plan);
        return -1, k, plan;
      }
      i := i + r;
    }
    UnderMeans(fs, f, log, b, src, k, plan);
    ret := if i == n then n else -1;
  }

  lemma StartUnder(fs: F.Fs, f: File, src: seq<Byte>, log: L.Log)
    requires Synced(fs, f.ip) && Stacked(fs, log)
    ensures var b := Before(log.cache.disk.writes, log.cache.disk.blocks, fs.d, f.ip.Value(), f.off);
            Under(fs, f, log, b, src, 0, [])
  {
    hide FsOk, Progress, Stacked, CrashSafe, AllFiles, HoleFree, F.Fs.Logged;
    StartProgress(fs, f, src);
    StartSafe(fs, f, src, log);
    fs.RowFacts(f.ip);
  }

  lemma UnderMeans(fs: F.Fs, f: File, log: L.Log, b: Before, src: seq<Byte>, k: nat, plan: seq<Write>)
    requires Under(fs, f, log, b, src, k, plan)
    ensures Stacked(fs, log) && Progress(fs, f, b.d, b.v, b.off, src, k) && Issued(log, b.writes, b.disk, plan)
    ensures CrashSafe(b.disk, plan, fs.sb, f.ip.inum, b.d, b.off, src, k)
  {
    hide Stacked, Progress, CrashSafe, Issued, AllFiles;
  }

  lemma StartProgress(fs: F.Fs, f: File, src: seq<Byte>)
    requires Synced(fs, f.ip)
    ensures Progress(fs, f, fs.d, f.ip.Value(), f.off, src, 0)
  {
    hide FsOk, Touched, SameOthers, HoleFree, Content, Splice, F.Fs.Logged;
    SameOthersRefl(fs, f.ip);
    assert src[..0] == [];
    if f.off <= f.ip.size {
      SpliceNothing(Content(fs.d, f.ip.Value()), f.off);
    }
  }
}
