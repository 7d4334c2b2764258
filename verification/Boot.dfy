/** The kernel on the image that mkfs makes: the image meets what the kernel's layers start from, and
    where they can fail they can fail on it. */
module Boot {
  import opened Blocks
  import opened RedoLog
  import opened FsLayout
  import opened FsState
  import B = BufferCache
  import L = Log
  import Q = LogQuota
  import F = Fs
  import W = FileWrite
  import M = Mkfs
  import D = Directory

  /** Every inode of the image is a consistent file, and its log is empty. */
  lemma ImageBoots(d: Disk, contents: seq<seq<Byte>>)
    requires M.Rooted(d, contents) && M.Headed(d)
    ensures W.AllFiles(d, M.IMAGE)
    ensures GoodHeader(d, W.LogRegion(M.IMAGE)) && HeaderN(d, W.LogRegion(M.IMAGE)) == 0
  {
    hide FsOk, M.Rooted;
    M.ImageLaid(d);
    forall k | 0 <= k < M.NINODES
      ensures W.FileOk(d, M.IMAGE, k)
    {
      M.SizesIn(d, contents, k);
    }
    ZeroWords(0);
  }

  /** The log finds data blocks behind the metadata. */
  lemma DataBlocks(d: Disk)
    requires |d| == M.FSSIZE
    ensures Q.HomeFrom(d, W.LogRegion(M.IMAGE), 46)
  {
  }

  /** initlog on an image: recovery has nothing to do. */
  method BootLog(d: Disk, ghost contents: seq<seq<Byte>>) returns (log: L.Log)
    requires M.Rooted(d, contents) && M.Headed(d)
    ensures fresh(log) && fresh(log.cache) && fresh(log.cache.disk)
    ensures log.Idle() && log.region == W.LogRegion(M.IMAGE) && |log.cache.flat| == M.FSSIZE
    ensures SameHome(log.cache.flat, d, log.region) && log.cache.flat == log.cache.disk.blocks
  {
    hide M.Rooted, GoodHeader, L.Log.Idle, Recovered, W.AllFiles, Stands, SameHome;
    ImageBoots(d, contents);
    QuietStands(d, W.LogRegion(M.IMAGE));
    RecoveryDelivers(d, d, W.LogRegion(M.IMAGE));
    var disk := new B.DiskDevice(d);
    log := L.InitLog(disk, W.LogRegion(M.IMAGE));
    L.RecoveredIs(d, W.LogRegion(M.IMAGE));
  }

  /** On every image mkfs makes, three operations that keep to MAXOPBLOCKS meet the panic of
      log_write at a new block and at one logged before, and a reader can make the commit fail. */
  method LogFails(files: seq<M.Input>, data: Block) returns (first: bool, again: bool, commit: bool)
    requires |files| + 2 <= M.NINODES && M.Fits(files)
    ensures !first && !again && !commit
  {
    hide M.Rooted, M.Fits, L.Log.Idle, Q.HomeFrom;
    var ok, d, used := M.Build(files);
    var log := BootLog(d, M.Contents(files));
    DataBlocks(log.cache.flat);
    ghost var op;
    var b;
    first, op, b := Q.FirstWriteFails(log, 46, data);
    log := BootLog(d, M.Contents(files));
    DataBlocks(log.cache.flat);
    again := Q.AbsorbedFails(log, 46, data);
    log := BootLog(d, M.Contents(files));
    DataBlocks(log.cache.flat);
    commit := Q.CommitFails(log, 46, data);
  }

  /** mkfs with 62, 126 or 190 files leaves the root directory with a hole in its last block. Reading
      there outside an operation, as fileread does, panics unless the image is full. That is the
      state until an operation reads that far; see RootHoleFilled. */
  method RootHole(files: seq<M.Input>) returns (ok: bool)
    requires |files| + 2 <= M.NINODES && M.Fits(files) && (|files| + 2) % 64 == 0
    ensures ok <==> M.Total(files) == M.FSSIZE
  {
    hide M.Rooted, M.Fits, M.Contents, M.Total, FsOk, Content, F.MeetsHole, F.HoleAt, Row, Used, M.Headed;
    var fs, ip, off := OpenRoot(files);
    var failed, dst;
    ok, failed, dst := fs.Readi(ip, off, 16, 16);
  }

  /** The root directory of an image, and the offset of its hole. */
  method OpenRoot(files: seq<M.Input>) returns (fs: F.Fs, ip: F.Inode, off: Word)
    requires |files| + 2 <= M.NINODES && M.Fits(files) && (|files| + 2) % 64 == 0
    ensures fresh(fs) && fresh(ip) && fs.Inv(ip) && ip.inum == 1 && fs.sb == M.IMAGE && fs.outstanding == 0
    ensures ip.size == off + BSIZE <= MAXFILE * BSIZE && DiskInode(fs.d, fs.sb, 1) == ip.Value()
    ensures off == 16 * (|files| + 2) && F.MeetsHole(fs.RowOf(ip), off, 16) && F.MeetsBare(fs.RowOf(ip), off, 16)
    ensures Full(fs.d, fs.sb) <==> M.Total(files) == M.FSSIZE
  {
    hide M.Rooted, M.Fits, M.Contents, M.Total, FsOk, Content, F.MeetsHole, F.MeetsBare, F.HoleAt, Row, Used, M.Headed;
    var built, d, used := M.Build(files);
    RootFacts(d, M.Contents(files), |files| + 2);
    FullIs(d, used);
    off := 16 * (|files| + 2);
    fs := new F.Fs(M.IMAGE, d);
    ip := new F.Inode(1, DiskInode(d, M.IMAGE, 1));
    Fresh(fs, ip);
  }

  /** A lookup that misses reads the whole root directory inside an operation. The hole then has a
      block, so that reading there outside an operation is safe from then on. */
  method RootHoleFilled(files: seq<M.Input>) returns (inside: bool, outside: bool)
    requires |files| + 2 <= M.NINODES && M.Fits(files) && (|files| + 2) % 64 == 0
    ensures inside && outside
  {
    hide M.Fits, M.Total, FsOk, Content, F.MeetsHole, F.MeetsBare, Row, Used, Full, HoleFree;
    var fs, ip, off := OpenRoot(files);
    fs.Begin();
    var failed, dst;
    inside, failed, dst := fs.Readi(ip, off, 16, 16);
    fs.End();
    outside, failed, dst := fs.Readi(ip, off, 16, 16);
  }

  /** Between that read and the next iupdate the block of the hole is in use and no inode on disk has
      it: the disk by itself is consistent before the read and after the iupdate, and not between. */
  method RootHoleOnDisk(files: seq<M.Input>) returns (ok: bool, ghost between: bool, ghost after: bool)
    requires |files| + 2 <= M.NINODES && M.Fits(files) && (|files| + 2) % 64 == 0 && M.Total(files) < M.FSSIZE
    ensures ok && !between && after
  {
    hide M.Fits, M.Total, FsOk, Content, F.MeetsHole, F.MeetsBare, Row, Used, Full, HoleFree, Touched, Updated;
    hide F.Fs.Logged, SameOthers, Filled;
    var fs, ip, off := OpenRoot(files);
    fs.Begin();
    var failed, dst;
    ok, failed, dst := fs.Readi(ip, off, 16, 16);
    fs.RowFacts(ip);
    between := FsOk(fs.d, fs.sb, 1, DiskInode(fs.d, fs.sb, 1));
    fs.Iupdate(ip);
    after := FsOk(fs.d, fs.sb, 1, DiskInode(fs.d, fs.sb, 1));
  }

  lemma FullIs(d: Disk, used: nat)
    requires M.IMAGE.Laid(d) && used <= M.FSSIZE
    requires forall b :: 0 <= b < M.FSSIZE ==> (Used(d, M.IMAGE, b) <==> b < used)
    ensures Full(d, M.IMAGE) <==> used == M.FSSIZE
  {
    hide Used;
    if used < M.FSSIZE {
      assert !Used(d, M.IMAGE, used);
    }
  }

  /** The root directory of such an image: one block longer than its blocks. */
  lemma RootFacts(d: Disk, contents: seq<seq<Byte>>, n: nat)
    requires M.Rooted(d, contents) && |contents[1]| == 16 * n && n <= M.NINODES && n % 64 == 0
    ensures M.IMAGE.Laid(d)
    ensures var v := DiskInode(d, M.IMAGE, 1);
            && FsOk(d, M.IMAGE, 1, v) && v.size == 16 * n + BSIZE <= MAXFILE * BSIZE
            && F.MeetsHole(Row(d, M.IMAGE, 1, v, 1), 16 * n, 16) && F.MeetsBare(Row(d, M.IMAGE, 1, v, 1), 16 * n, 16)
  {
    hide FsOk, SlotOf, Row, M.Rooted, F.MeetsHole, F.MeetsBare, InodeAt;
    WholeBlocks(n);
    RootShape(d, contents);
    M.SizesIn(d, contents, 1);
    M.RootHoleAt(d, contents);
    FirstHole(M.DiskRow(d, 1), 16 * n);
  }

  lemma RootShape(d: Disk, contents: seq<seq<Byte>>)
    requires M.Rooted(d, contents)
    ensures |contents| > 1
  {
  }

  lemma FirstHole(row: seq<Word>, off: nat)
    requires |row| == SLOTS && off / BSIZE < NDIRECT && row[SlotOf(off / BSIZE)] == 0
    ensures F.MeetsHole(row, off, 16) && F.MeetsBare(row, off, 16)
  {
    hide SlotOf;
    assert F.HoleAt(row, off) && F.Bare(row, off / BSIZE);
  }

  /** Sixty-four entries fill a block. */
  lemma WholeBlocks(n: nat)
    requires n <= M.NINODES && n % 64 == 0
    ensures 16 * n % BSIZE == 0 && 16 * n / BSIZE == n / 64 < NDIRECT
    ensures (16 * n / BSIZE + 1) * BSIZE == 16 * n + BSIZE
  {
    assert 16 * n == 1024 * (n / 64);
  }

  lemma Fresh(fs: F.Fs, ip: F.Inode)
    requires FsOk(fs.d, fs.sb, ip.inum, ip.Value()) && fs.writes == [] && fs.base == fs.d
    ensures fs.Inv(ip)
  {
  }

  /** The name of the program that the kernel runs first. */
  const INIT: seq<Byte> := [105, 110, 105, 116]

  /** The input of an image with 62 files: a program called init, and 61 empty files. */
  function WithInit(init: seq<Byte>): (files: seq<M.Input>)
    ensures |files| == 62 && files[0] == M.Input(INIT, init) && forall i :: 1 <= i < 62 ==> files[i].bytes == []
    ensures forall i, j :: 0 <= i < j < 62 ==> files[i].name != files[j].name
  {
    seq(62, i requires 0 <= i < 62 => if i == 0 then M.Input(INIT, init) else M.Input([120, i], []))
  }

  /** There are such images, whatever init is: if it lists the root directory before any lookup has
      missed, the kernel panics. */
  method RootHoleHappens(init: seq<Byte>) returns (ok: bool)
    requires |init| <= MAXFILE * BSIZE
    ensures !ok
  {
    hide M.Fits, M.Total;
    var files := WithInit(init);
    InitFits(files);
    ok := RootHole(files);
  }

  lemma {:induction false} NeedFirst(files: seq<M.Input>)
    requires files != [] && forall i :: 1 <= i < |files| ==> files[i].bytes == []
    ensures M.FilesNeed(files) == M.Need(|files[0].bytes|)
  {
    if |files| > 1 {
      NeedFirst(files[..|files| - 1]);
    } else {
      assert files[..0] == [];
    }
  }

  lemma InitFits(files: seq<M.Input>)
    requires |files| == 62 && |files[0].bytes| <= MAXFILE * BSIZE && forall i :: 1 <= i < 62 ==> files[i].bytes == []
    ensures M.Fits(files) && M.Total(files) < M.FSSIZE
  {
    NeedFirst(files);
    M.NeedMonotone(|files[0].bytes|, MAXFILE * BSIZE);
  }

  // ----- a file of the image

  /** File i of an image, opened. */
  method OpenFile(files: seq<M.Input>, i: nat) returns (fs: F.Fs, ip: F.Inode, d: Disk)
    requires |files| + 2 <= M.NINODES && M.Fits(files) && i < |files|
    ensures fresh(fs) && fresh(ip) && ip.inum == i + 2 && fs.sb == M.IMAGE && fs.d == d && fs.outstanding == 0
    ensures W.Synced(fs, ip) && ip.size == |files[i].bytes| && Content(fs.d, ip.Value()) == files[i].bytes
    ensures M.Rooted(d, M.Contents(files)) && M.Headed(d)
  {
    hide M.Rooted, M.Fits, M.Contents, M.Total, FsOk, Content, Row, Used, M.Headed, W.AllFiles, HoleFree;
    var built, used;
    built, d, used := M.Build(files);
    ImageBoots(d, M.Contents(files));
    FileFacts(d, M.Contents(files), i + 2);
    fs := new F.Fs(M.IMAGE, d);
    ip := new F.Inode(i + 2, DiskInode(d, M.IMAGE, i + 2));
    Fresh(fs, ip);
  }

  lemma FileFacts(d: Disk, contents: seq<seq<Byte>>, k: nat)
    requires M.Rooted(d, contents) && 2 <= k < |contents|
    ensures M.IMAGE.Laid(d) && k < M.NINODES
    ensures var v := DiskInode(d, M.IMAGE, k);
            && FsOk(d, M.IMAGE, k, v) && v.size == |contents[k]| <= MAXFILE * BSIZE && Content(d, v) == contents[k]
            && HoleFree(Row(d, M.IMAGE, k, v, k), v.size)
  {
    hide FsOk, HoleFree, M.NoExtra, M.ZeroTail, InodeAt, Row;
    assert M.Holds(d, k, contents[k]);
  }

  /** filewrite to a file of the image, from boot: if it reports success the file has src at its
      beginning, and wherever it crashes the file has src up to the end of a chunk. */
  method WriteFile(files: seq<M.Input>, i: nat, src: seq<Byte>)
      returns (fs: F.Fs, f: W.File, ret: int, ghost k: nat, ghost d: Disk, ghost disk: Disk, ghost plan: seq<Write>)
    requires |files| + 2 <= M.NINODES && M.Fits(files) && i < |files|
    ensures fs.Inv(f.ip) && f.ip.size <= MAXFILE * BSIZE && k <= |src| && (ret == |src| <==> k == |src|)
    ensures Content(fs.d, f.ip.Value()) == Splice(files[i].bytes, 0, src[..k])
    ensures M.Rooted(d, M.Contents(files)) && SameHome(disk, d, W.LogRegion(M.IMAGE))
    ensures W.CrashSafe(disk, plan, M.IMAGE, i + 2, d, 0, src, k)
  {
    hide M.Rooted, M.Fits, M.Contents, FsOk, Content, Row, M.Headed, W.AllFiles, HoleFree, L.Log.Idle, W.CrashSafe;
    hide Splice, SameHome, SameOthers;
    var ip, image;
    fs, ip, image := OpenFile(files, i);
    var log := BootLog(image, M.Contents(files));
    f := new W.File(ip, 0);
    d, disk := image, log.cache.disk.blocks;
    ret, k, plan := W.Filewrite(fs, f, |src|, src, log);
  }

  /** A write to a file of two bytes or more whose source runs into a page that cannot be read after the
      first byte: writei reports that nothing was written and the file is what it was, but the
      buffer of its first block differs from what the log has. */
  method UnloggedHappens(init: seq<Byte>, x: Byte, y: Byte) returns (fs: F.Fs, ip: F.Inode, r: int, left: seq<Write>)
    requires 2 <= |init| <= MAXFILE * BSIZE && x != init[0]
    ensures r == 0 && fs.Inv(ip) && ip.size <= MAXFILE * BSIZE && Content(fs.d, ip.Value()) == init
    ensures |left| == 1 && left[0].at < |fs.d| && left[0].data != fs.d[left[0].at]
  {
    hide M.Fits, M.Rooted, M.Contents, FsOk, Content, W.AllFiles, HoleFree, F.Fs.Logged, WithInit;
    var files := WithInit(init);
    InitFits(files);
    var d;
    fs, ip, d := OpenFile(files, 0);
    r, left := FaultyWrite(fs, ip, init, x, y);
  }

  method FaultyWrite(fs: F.Fs, ip: F.Inode, init: seq<Byte>, x: Byte, y: Byte) returns (r: int, left: seq<Write>)
    requires W.Synced(fs, ip) && 2 <= |init| && x != init[0]
    requires ip.size == |init| && Content(fs.d, ip.Value()) == init
    modifies fs, ip
    ensures r == 0 && fs.Inv(ip) && ip.size <= MAXFILE * BSIZE && Content(fs.d, ip.Value()) == init
    ensures |left| == 1 && left[0].at < |fs.d| && left[0].data != fs.d[left[0].at]
  {
    hide FsOk, Content, Row, W.AllFiles, HoleFree, F.Fs.Logged, F.Unlogged, F.HoleAt, F.Fs.Written, Touched, Full;
    fs.Begin();
    fs.RowFacts(ip);
    ghost var st := Start(fs.d, fs.RowOf(ip), ip.Value(), Touched(fs.writes));
    r, left := fs.Writei(ip, 0, [x, y], 1, 1);
    ghost var seen :| r <= seen <= 2 && fs.Written(ip, st, 0, [x, y], r, seen);
    FaultLeaves(fs, ip, st, seen, init, x, y, left);
  }

  lemma FaultLeaves(fs: F.Fs, ip: F.Inode, st: Start, seen: nat, init: seq<Byte>, x: Byte, y: Byte, left: seq<Write>)
    requires fs.Written(ip, st, 0, [x, y], 0, seen) && 2 <= |init| && x != init[0]
    requires st.v.size == |init| && Content(st.d, st.v) == init && HoleFree(st.row, st.v.size)
    requires left == [] ==> F.HoleAt(fs.RowOf(ip), 0)
    requires left != [] ==> F.Unlogged(fs.d, fs.RowOf(ip), 0, [x, y], 0, 1, left)
    ensures fs.Inv(ip) && ip.size <= MAXFILE * BSIZE && Content(fs.d, ip.Value()) == init
    ensures |left| == 1 && left[0].at < |fs.d| && left[0].data != fs.d[left[0].at]
  {
    hide FsOk, SameOthers, F.Fs.Logged, Touched, Row;
    assert Splice(init, 0, [x, y][..0]) == init;
    var row := fs.RowOf(ip);
    fs.RowIsRefs(ip);
    assert row[SlotOf(0)] != 0;
    assert Content(fs.d, ip.Value())[0] == FileByte(fs.d, row, 0);
  }

  // ----- looking a name up in the root directory of an image

  predicate IsDots(name: seq<Byte>) {
    D.Cut(name) == [46] || D.Cut(name) == [46, 46]
  }

  /** What mkfs writes for an entry is what dirlink would. */
  lemma SameEntry(inum: nat, name: seq<Byte>)
    requires inum < M.NINODES
    ensures M.Dirent(inum, name) == D.Entry(inum, name)
  {
  }

  /** Entry k of the padded root directory. */
  lemma RootEntry(files: seq<M.Input>, k: nat)
    requires |files| + 2 <= M.NINODES && 16 * (k + 1) <= |M.ZeroPad(M.Entries(files))|
    ensures var c := M.ZeroPad(M.Entries(files));
            && (k == 0 ==> c[16 * k..16 * (k + 1)] == D.Entry(1, [46]))
            && (k == 1 ==> c[16 * k..16 * (k + 1)] == D.Entry(1, [46, 46]))
            && (2 <= k < |files| + 2 ==> c[16 * k..16 * (k + 1)] == D.Entry(k, files[k - 2].name))
            && (|files| + 2 <= k ==> c[16 * k] == c[16 * k + 1] == 0)
  {
    hide M.Entries, D.Entry, M.Dirent;
    var e, c := M.Entries(files), M.ZeroPad(M.Entries(files));
    if k < |files| + 2 {
      assert c[16 * k..16 * (k + 1)] == e[16 * k..16 * (k + 1)];
      Dots(files);
      SameEntry(1, [46]);
      SameEntry(1, [46, 46]);
      if k >= 2 {
        M.EntryOf(files, k - 2);
        SameEntry(k, files[k - 2].name);
      }
    }
  }

  lemma {:induction false} Dots(files: seq<M.Input>)
    requires |files| + 2 <= M.NINODES
    ensures M.Entries(files)[..16] == M.Dirent(1, [46]) && M.Entries(files)[16..32] == M.Dirent(1, [46, 46])
  {
    hide M.Dirent;
    var n := |files|;
    if n > 0 {
      Dots(files[..n - 1]);
      var before := M.Entries(files[..n - 1]);
      var c := before + M.Dirent(n + 1, files[n - 1].name);
      assert c[..16] == before[..16] && c[16..32] == before[16..32];
    }
  }

  /** The names that the root directory of an image has entries for. */
  lemma RootHit(files: seq<M.Input>, name: seq<Byte>, k: nat)
    requires |files| + 2 <= M.NINODES && (forall i :: 0 <= i < |files| ==> D.IsName(files[i].name))
    requires 16 * (k + 1) <= |M.ZeroPad(M.Entries(files))|
    ensures var c := M.ZeroPad(M.Entries(files));
            && (D.Hit(c, name, k) <==>
                  || (k == 0 && D.Cut(name) == [46]) || (k == 1 && D.Cut(name) == [46, 46])
                  || (2 <= k < |files| + 2 && D.Cut(files[k - 2].name) == D.Cut(name)))
            && (k < |files| + 2 ==> D.InumAt(c, k) == if k < 2 then 1 else k)
  {
    hide M.Entries, M.ZeroPad, D.Text;
    var c := M.ZeroPad(M.Entries(files));
    RootEntry(files, k);
    D.EntryBytes(c, k, c[16 * k..16 * (k + 1)]);
    if k < |files| + 2 {
      var n := if k == 0 then [46] else if k == 1 then [46, 46] else files[k - 2].name;
      D.FieldReads(n);
      assert D.Entry(if k < 2 then 1 else k, n)[2..] == D.Field(n);
    }
  }

  /** The inode that a name stands for in an image: the root for "." and "..", for any other name the
      first file with it, and none if there is none. Names are the same if their first fourteen bytes
      are. */
  ghost predicate Named(files: seq<M.Input>, name: seq<Byte>, inum: nat) {
    if IsDots(name) then inum == 1
    else if inum == 0 then forall i :: 0 <= i < |files| ==> D.Cut(files[i].name) != D.Cut(name)
    else
      && 2 <= inum < |files| + 2 && D.Cut(files[inum - 2].name) == D.Cut(name)
      && forall i :: 0 <= i < inum - 2 ==> D.Cut(files[i].name) != D.Cut(name)
  }

  lemma RootFinds(files: seq<M.Input>, name: seq<Byte>, inum: nat, off: nat)
    requires |files| + 2 <= M.NINODES && (forall i :: 0 <= i < |files| ==> D.IsName(files[i].name))
    requires D.Finds(M.ZeroPad(M.Entries(files)), name, inum, off)
    ensures Named(files, name, inum)
  {
    hide D.Hit, D.InumAt, M.Entries, D.Cut, M.ZeroPad;
    var c := M.ZeroPad(M.Entries(files));
    RootSize(files);
    RootHit(files, name, 0);
    RootHit(files, name, 1);
    var k := if inum == 0 then |files| + 2 else off / 16;
    if inum != 0 {
      RootHit(files, name, k);
    }
    forall i | 0 <= i < |files| && i < k - 2
      ensures D.Cut(files[i].name) != D.Cut(name)
    {
      RootHit(files, name, i + 2);
      assert !D.Hit(c, name, i + 2);
    }
    assert k > 0 ==> !D.Hit(c, name, 0);
    assert k > 1 ==> !D.Hit(c, name, 1);
  }

  lemma RootSize(files: seq<M.Input>)
    requires |files| + 2 <= M.NINODES
    ensures |M.ZeroPad(M.Entries(files))| >= 16 * (|files| + 2)
  {
  }

  /** The root directory of an image as dirlookup will find it. */
  lemma RootReads(d: Disk, contents: seq<seq<Byte>>, n: nat)
    requires M.Rooted(d, contents) && |contents[1]| == 16 * n
    ensures M.IMAGE.Laid(d)
    ensures var v := DiskInode(d, M.IMAGE, 1);
            && FsOk(d, M.IMAGE, 1, v) && v.typ == T_DIR && v.size <= MAXFILE * BSIZE && v.size % 16 == 0
            && Content(d, v) == M.ZeroPad(contents[1])
            && (HoleFree(Row(d, M.IMAGE, 1, v, 1), v.size) <==> n % 64 != 0)
  {
    hide FsOk, HoleFree, Row, Content, InodeAt, M.Rooted, M.ZeroPad;
    RootShape(d, contents);
    M.SizesIn(d, contents, 1);
    RootIs(d, contents);
    WholeBlock(n);
    Rounded(16 * n / BSIZE + 1);
  }

  lemma RootIs(d: Disk, contents: seq<seq<Byte>>)
    requires M.Rooted(d, contents) && M.IMAGE.Laid(d)
    ensures |contents| > 1
    ensures var v := DiskInode(d, M.IMAGE, 1);
            && v.typ == T_DIR && v.size <= MAXFILE * BSIZE && Content(d, v) == M.ZeroPad(contents[1])
            && (HoleFree(Row(d, M.IMAGE, 1, v, 1), v.size) <==> |contents[1]| % BSIZE != 0)
  {
    hide FsOk, HoleFree, Row, Content, InodeAt, M.Holds, M.Blank, M.NoExtra, M.ZeroPad;
  }

  lemma Rounded(n: nat)
    ensures n * BSIZE % 16 == 0
  {
    assert n * BSIZE == 16 * (64 * n);
  }

  lemma WholeBlock(n: nat)
    ensures 16 * n % BSIZE == 0 <==> n % 64 == 0
  {
    assert 16 * n == 1024 * (n / 64) + 16 * (n % 64);
  }

  /** mkfs, boot, and a lookup in the root directory: the kernel finds every file that mkfs was given under its
      name, and nothing else. */
  method FindName(files: seq<M.Input>, name: seq<Byte>) returns (ok: bool, inum: nat)
    requires |files| + 2 <= M.NINODES && M.Fits(files) && D.IsName(name)
    requires forall i :: 0 <= i < |files| ==> D.IsName(files[i].name)
    ensures (|files| + 2) % 64 != 0 ==> ok
    ensures ok ==> Named(files, name, inum)
  {
    hide M.Rooted, M.Fits, M.Contents, M.Total, FsOk, Content, Row, Used, M.Headed, D.Intact, D.Finds, HoleFree, Named;
    hide M.Entries, M.ZeroPad;
    var built, d, used := M.Build(files);
    RootReads(d, M.Contents(files), |files| + 2);
    var fs := new F.Fs(M.IMAGE, d);
    var dp := new F.Inode(1, DiskInode(d, M.IMAGE, 1));
    fs.Begin();
    Fresh(fs, dp);
    D.StartsIntact(fs, dp);
    ghost var st := Start(fs.d, fs.RowOf(dp), dp.Value(), {});
    var off;
    ok, inum, off := D.Dirlookup(fs, dp, name, st);
    if ok {
      RootFinds(files, name, inum, off);
    }
  }
}
