/** The file system as a value: a disk, one inode whose in-memory copy may be ahead of the
    disk, and what each kind of block update does to block ownership and to file contents. */
module FsState {
  import opened Blocks
  import opened Counting
  import opened FsLayout
  import opened Ownership

  /** Inode k: the in-memory copy v for inode inum, the disk's copy for the others. */
  function Ino(d: Disk, sb: Superblock, inum: nat, v: Dinode, k: nat): Dinode
    requires sb.Laid(d) && k < sb.ninodes
  {
    if k == inum then v else DiskInode(d, sb, k)
  }

  function Row(d: Disk, sb: Superblock, inum: nat, v: Dinode, k: nat): (r: seq<Word>)
    requires sb.Laid(d) && k < sb.ninodes && |v.addrs| == NDIRECT + 1
    ensures |r| == SLOTS
  {
    Refs(d, Ino(d, sb, inum, v, k).addrs)
  }

  function TableOf(d: Disk, sb: Superblock, inum: nat, v: Dinode): (t: Table)
    requires sb.Laid(d) && |v.addrs| == NDIRECT + 1
    ensures Shaped(t, sb.ninodes)
    ensures forall k :: 0 <= k < sb.ninodes ==> t[k] == Row(d, sb, inum, v, k)
  {
    seq(sb.ninodes, k requires 0 <= k < sb.ninodes => Row(d, sb, inum, v, k))
  }

  /** The bitmap and the references of all inodes agree. */
  ghost predicate FsOk(d: Disk, sb: Superblock, inum: nat, v: Dinode) {
    && sb.Laid(d) && inum < sb.ninodes && |v.addrs| == NDIRECT + 1
    && Owned(TableOf(d, sb, inum, v), Bitmap(d, sb), sb.Meta())
  }

  /** From d to e nothing an inode k refers to has changed, and neither has its disk inode. */
  ghost predicate SameInode(d: Disk, e: Disk, sb: Superblock, inum: nat, v: Dinode, k: nat)
    requires sb.Laid(d) && sb.Laid(e) && k < sb.ninodes && |v.addrs| == NDIRECT + 1
  {
    && DiskInode(e, sb, k) == DiskInode(d, sb, k)
    && |d| == |e|
    && (forall s :: 0 <= s < SLOTS ==> var a := Row(d, sb, inum, v, k)[s]; 0 < a < |d| ==> e[a] == d[a])
  }

  ghost predicate SameOthers(d: Disk, e: Disk, sb: Superblock, inum: nat) {
    && sb.Laid(d) && sb.Laid(e) && |d| == |e|
    && (forall k :: 0 <= k < sb.ninodes && k != inum ==> SameInode(d, e, sb, k, DiskInode(d, sb, k), k))
  }

  /** A referenced block: where it is, and that it is in use. */
  lemma RefFacts(d: Disk, sb: Superblock, inum: nat, v: Dinode, k: nat, s: nat)
    requires FsOk(d, sb, inum, v) && k < sb.ninodes && s < SLOTS
    ensures var a := Row(d, sb, inum, v, k)[s];
            a != 0 ==> sb.Meta() <= a < sb.size && Used(d, sb, a)
  {
    var t := TableOf(d, sb, inum, v);
    assert t[k] == Row(d, sb, inum, v, k);
    var a := t[k][s];
    if a != 0 {
      assert At(t, k, s, a);
      assert Bitmap(d, sb)[a];
    }
  }

  /** Two slots never hold the same block. */
  lemma RefDistinct(d: Disk, sb: Superblock, inum: nat, v: Dinode, k: nat, s: nat, j: nat, u: nat)
    requires FsOk(d, sb, inum, v) && k < sb.ninodes && s < SLOTS && j < sb.ninodes && u < SLOTS
    ensures Row(d, sb, inum, v, k)[s] == Row(d, sb, inum, v, j)[u] != 0 ==> k == j && s == u
  {
    var t := TableOf(d, sb, inum, v);
    assert t[k][s] == Row(d, sb, inum, v, k)[s] && t[j][u] == Row(d, sb, inum, v, j)[u];
  }

  /** If what an inode refers to is unchanged, so is its row. */
  lemma SameRow(d: Disk, e: Disk, sb: Superblock, inum: nat, v: Dinode, k: nat)
    requires sb.Laid(d) && sb.Laid(e) && k < sb.ninodes && |v.addrs| == NDIRECT + 1
    requires SameInode(d, e, sb, inum, v, k)
    ensures Row(e, sb, inum, v, k) == Row(d, sb, inum, v, k)
  {
    var a := Row(d, sb, inum, v, k)[NDIRECT];
    assert a == Ino(d, sb, inum, v, k).addrs[NDIRECT];
  }

  /** With every inode as on disk it does not matter which one is singled out. */
  lemma Refocus(d: Disk, sb: Superblock, i: nat, k: nat)
    requires sb.Laid(d) && i < sb.ninodes && k < sb.ninodes && FsOk(d, sb, i, DiskInode(d, sb, i))
    ensures FsOk(d, sb, k, DiskInode(d, sb, k))
  {
    hide Owned, Refs, InodeAt, Bitmap;
    var vi, vk := DiskInode(d, sb, i), DiskInode(d, sb, k);
    forall j | 0 <= j < sb.ninodes
      ensures Row(d, sb, k, vk, j) == Row(d, sb, i, vi, j)
    {
    }
    assert TableOf(d, sb, k, vk) == TableOf(d, sb, i, vi);
  }

  /** Every block of the disk is in use. */
  ghost predicate Full(d: Disk, sb: Superblock) {
    sb.Laid(d) && forall c :: 0 <= c < sb.size ==> Used(d, sb, c)
  }

  // ----- balloc and bfree

  /** The disk after `balloc` has returned b: its bit set, its contents zero. */
  function Allocated(d: Disk, sb: Superblock, b: nat): (e: Disk)
    requires sb.Laid(d) && b < sb.size
    ensures |e| == |d|
  {
    var m := sb.BitmapBlock(b);
    d[m := PutBit(d[m], b % BPB, true)][b := ZeroBlock]
  }

  lemma AllocatedZero(d: Disk, sb: Superblock, b: nat)
    requires sb.Laid(d) && b < sb.size
    ensures Allocated(d, sb, b)[b] == ZeroBlock
  {
  }

  lemma AllocatedInodes(d: Disk, sb: Superblock, b: nat, k: nat)
    requires sb.Laid(d) && sb.Meta() <= b < sb.size && k < sb.ninodes
    ensures sb.Laid(Allocated(d, sb, b)) && DiskInode(Allocated(d, sb, b), sb, k) == DiskInode(d, sb, k)
  {
    hide PutBit, InodeAt;
    assert sb.InodeBlock(k) < sb.bmapstart <= sb.BitmapBlock(b);
  }

  /** Data blocks do not hold inodes. */
  lemma DataInodes(d: Disk, sb: Superblock, a: nat, x: Block, k: nat)
    requires sb.Laid(d) && sb.Meta() <= a < |d| && k < sb.ninodes
    ensures sb.Laid(d[a := x]) && DiskInode(d[a := x], sb, k) == DiskInode(d, sb, k)
  {
    hide InodeAt;
  }

  /** v0, with some of v's addresses missing, is not an inode to which the disk is consistent: a block
      that is in use would belong to nobody. */
  lemma DiskBehind(d: Disk, sb: Superblock, inum: nat, v: Dinode, v0: Dinode)
    requires FsOk(d, sb, inum, v) && |v0.addrs| == NDIRECT + 1
    requires forall s :: 0 <= s <= NDIRECT && v0.addrs[s] != 0 ==> v.addrs[s] == v0.addrs[s]
    ensures FsOk(d, sb, inum, v0) <==> v0.addrs == v.addrs
  {
    hide Owned, Used, Bitmap, Refs, InodeAt;
    if v0.addrs == v.addrs {
      SizeDoesNotMatter(d, sb, inum, v, v0);
    } else {
      var s :| 0 <= s <= NDIRECT && v0.addrs[s] != v.addrs[s];
      LostBlock(d, sb, inum, v, v0, s);
    }
  }

  lemma LostBlock(d: Disk, sb: Superblock, inum: nat, v: Dinode, v0: Dinode, s: nat)
    requires FsOk(d, sb, inum, v) && |v0.addrs| == NDIRECT + 1 && s <= NDIRECT
    requires forall u :: 0 <= u <= NDIRECT && v0.addrs[u] != 0 ==> v.addrs[u] == v0.addrs[u]
    requires v0.addrs[s] == 0 != v.addrs[s]
    ensures !FsOk(d, sb, inum, v0)
  {
    hide Used, InodeAt;
    var b := v.addrs[s];
    RowAddr(d, sb, inum, v, s);
    RowAddr(d, sb, inum, v0, s);
    RefFacts(d, sb, inum, v, inum, s);
    var t, t0 := TableOf(d, sb, inum, v), TableOf(d, sb, inum, v0);
    assert Bitmap(d, sb)[b] && t[inum][s] == b && t0[inum][s] == 0;
    forall i: nat, u: nat | i < |t0| && u < |t0[i]|
      ensures !At(t0, i, u, b)
    {
      assert t0[i] == Row(d, sb, inum, v0, i) && t[i] == Row(d, sb, inum, v, i);
      assert t0[i][u] == 0 || t0[i][u] == t[i][u];
    }
    assert !Referenced(t0, b);
  }

  lemma AllocatedBitmap(d: Disk, sb: Superblock, b: nat)
    requires sb.Laid(d) && sb.Meta() <= b < sb.size
    ensures Bitmap(Allocated(d, sb, b), sb) == Bitmap(d, sb)[b := true]
  {
    PutBitmap(d, sb, b, true);
    var m := sb.BitmapBlock(b);
    BitmapFrame(d[m := PutBit(d[m], b % BPB, true)], sb, b, ZeroBlock);
  }

  /** Data blocks do not hold bitmap bits. */
  lemma BitmapFrame(d: Disk, sb: Superblock, b: nat, x: Block)
    requires sb.Laid(d) && sb.Meta() <= b < |d|
    ensures sb.Laid(d[b := x]) && Bitmap(d[b := x], sb) == Bitmap(d, sb)
  {
    forall c | 0 <= c < sb.size
      ensures Used(d[b := x], sb, c) == Used(d, sb, c)
    {
    }
  }

  /** A free block is nobody's. */
  lemma FreeBlock(d: Disk, sb: Superblock, inum: nat, v: Dinode, b: nat)
    requires FsOk(d, sb, inum, v) && b < sb.size && !Used(d, sb, b)
    ensures sb.Meta() <= b
    ensures forall k, s :: 0 <= k < sb.ninodes && 0 <= s < SLOTS ==> Row(d, sb, inum, v, k)[s] != b
  {
    assert !Bitmap(d, sb)[b];
    forall k, s | 0 <= k < sb.ninodes && 0 <= s < SLOTS
      ensures Row(d, sb, inum, v, k)[s] != b
    {
      RefFacts(d, sb, inum, v, k, s);
    }
  }

  lemma AllocatedSame(d: Disk, sb: Superblock, inum: nat, v: Dinode, b: nat, k: nat)
    requires FsOk(d, sb, inum, v) && b < sb.size && !Used(d, sb, b) && k < sb.ninodes
    ensures sb.Laid(Allocated(d, sb, b)) && SameInode(d, Allocated(d, sb, b), sb, inum, v, k)
  {
    hide Owned, PutBit, Refs, DiskInode, Used;
    FreeBlock(d, sb, inum, v, b);
    AllocatedInodes(d, sb, b, k);
    forall s | 0 <= s < SLOTS
      ensures var a := Row(d, sb, inum, v, k)[s]; 0 < a < |d| ==> Allocated(d, sb, b)[a] == d[a]
    {
      RefFacts(d, sb, inum, v, k, s);
    }
  }

  /** Between balloc and the assignment of its result: one bit too many, references as before. */
  lemma AllocatedOk(d: Disk, sb: Superblock, inum: nat, v: Dinode, b: nat)
    requires FsOk(d, sb, inum, v) && b < sb.size && !Used(d, sb, b)
    ensures sb.Laid(Allocated(d, sb, b)) && sb.Meta() <= b
    ensures TableOf(Allocated(d, sb, b), sb, inum, v) == TableOf(d, sb, inum, v)
    ensures Bitmap(Allocated(d, sb, b), sb) == Bitmap(d, sb)[b := true]
  {
    FreeBlock(d, sb, inum, v, b);
    AllocatedBitmap(d, sb, b);
    var e := Allocated(d, sb, b);
    AllocatedInodes(d, sb, b, 0);
    forall k | 0 <= k < sb.ninodes
      ensures Row(e, sb, inum, v, k) == Row(d, sb, inum, v, k)
    {
      AllocatedSame(d, sb, inum, v, b, k);
      SameRow(d, e, sb, inum, v, k);
    }
  }

  lemma OthersOf(d: Disk, e: Disk, sb: Superblock, inum: nat, v: Dinode)
    requires sb.Laid(d) && sb.Laid(e) && |d| == |e| && |v.addrs| == NDIRECT + 1
    requires forall k :: 0 <= k < sb.ninodes && k != inum ==> SameInode(d, e, sb, inum, v, k)
    ensures SameOthers(d, e, sb, inum)
  {
    forall k | 0 <= k < sb.ninodes && k != inum
      ensures SameInode(d, e, sb, k, DiskInode(d, sb, k), k)
    {
      assert SameInode(d, e, sb, inum, v, k);
      assert Row(d, sb, inum, v, k) == Row(d, sb, k, DiskInode(d, sb, k), k);
    }
  }

  lemma AllocatedOthers(d: Disk, sb: Superblock, inum: nat, v: Dinode, b: nat)
    requires FsOk(d, sb, inum, v) && b < sb.size && !Used(d, sb, b)
    ensures SameOthers(d, Allocated(d, sb, b), sb, inum)
  {
    AllocatedOk(d, sb, inum, v, b);
    forall k | 0 <= k < sb.ninodes && k != inum
      ensures SameInode(d, Allocated(d, sb, b), sb, inum, v, k)
    {
      AllocatedSame(d, sb, inum, v, b, k);
    }
    OthersOf(d, Allocated(d, sb, b), sb, inum, v);
  }

  // ----- a fresh block goes into a slot

  lemma ZeroRefs()
    ensures WordsOf(ZeroBlock) == seq(NINDIRECT, _ => 0)
  {
    forall k | 0 <= k < NINDIRECT
      ensures WordsOf(ZeroBlock)[k] == 0
    {
      ZeroWords(k);
    }
  }

  /** `ip->addrs[s] = b` for a direct slot or for the indirect block. */
  lemma AssignSlot(d: Disk, sb: Superblock, inum: nat, v: Dinode, b: Word, s: nat)
    requires FsOk(d, sb, inum, v) && b < sb.size && !Used(d, sb, b) && s <= NDIRECT && v.addrs[s] == 0
    ensures var e, w := Allocated(d, sb, b), v.(addrs := v.addrs[s := b]);
            && FsOk(e, sb, inum, w)
            && TableOf(e, sb, inum, w) == Put(TableOf(d, sb, inum, v), inum, s, b)
  {
    var e, w := Allocated(d, sb, b), v.(addrs := v.addrs[s := b]);
    AllocatedOk(d, sb, inum, v, b);
    var t := TableOf(d, sb, inum, v);
    assert Bitmap(d, sb)[b] == Used(d, sb, b);
    assert t[inum][s] == 0;
    Allocate(t, Bitmap(d, sb), sb.Meta(), inum, s, b);
    AssignedTable(e, sb, inum, v, b, s);
  }

  lemma AssignedTable(e: Disk, sb: Superblock, inum: nat, v: Dinode, b: Word, s: nat)
    requires sb.Laid(e) && inum < sb.ninodes && |v.addrs| == NDIRECT + 1 && s <= NDIRECT && v.addrs[s] == 0
    requires 0 < b < |e| && e[b] == ZeroBlock
    ensures TableOf(e, sb, inum, v.(addrs := v.addrs[s := b])) == Put(TableOf(e, sb, inum, v), inum, s, b)
  {
    AssignedRow(e, sb, inum, v, b, s);
    var w := v.(addrs := v.addrs[s := b]);
    forall k | 0 <= k < sb.ninodes
      ensures Row(e, sb, inum, w, k) == Put(TableOf(e, sb, inum, v), inum, s, b)[k]
    {
      assert TableOf(e, sb, inum, v)[k] == Row(e, sb, inum, v, k);
    }
  }

  lemma AssignedRow(e: Disk, sb: Superblock, inum: nat, v: Dinode, b: Word, s: nat)
    requires sb.Laid(e) && inum < sb.ninodes && |v.addrs| == NDIRECT + 1 && s <= NDIRECT && v.addrs[s] == 0
    requires 0 < b < |e| && e[b] == ZeroBlock
    ensures Row(e, sb, inum, v.(addrs := v.addrs[s := b]), inum) == Row(e, sb, inum, v, inum)[s := b]
  {
    ZeroRefs();
  }

  /** The disk after a fresh block b has been entered at index j of indirect block ind. */
  function Entered(d: Disk, sb: Superblock, ind: nat, j: nat, b: Word): Disk
    requires sb.Laid(d) && b < sb.size && ind < |d| && j < NINDIRECT
  {
    var e := Allocated(d, sb, b);
    e[ind := PutWord(e[ind], j, b)]
  }

  lemma EnteredRow(e: Disk, addrs: seq<Word>, j: nat, b: Word)
    requires |addrs| == NDIRECT + 1 && 0 < addrs[NDIRECT] < |e| && j < NINDIRECT
    ensures var ind := addrs[NDIRECT];
            Refs(e[ind := PutWord(e[ind], j, b)], addrs) == Refs(e, addrs)[NDIRECT + 1 + j := b]
  {
    var ind := addrs[NDIRECT];
    var f := e[ind := PutWord(e[ind], j, b)];
    forall k | 0 <= k < NINDIRECT
      ensures WordsOf(f[ind])[k] == if k == j then b else WordsOf(e[ind])[k]
    {
      PutWordReads(e[ind], j, b, k);
    }
  }

  /** Writing a data block changes no reference and no bit. */
  lemma DataWrite(d: Disk, sb: Superblock, inum: nat, v: Dinode, a: nat, x: Block)
    requires sb.Laid(d) && inum < sb.ninodes && |v.addrs| == NDIRECT + 1 && sb.Meta() <= a < |d|
    requires forall k :: 0 <= k < sb.ninodes ==> Row(d, sb, inum, v, k)[NDIRECT] != a
    ensures sb.Laid(d[a := x]) && Bitmap(d[a := x], sb) == Bitmap(d, sb)
    ensures TableOf(d[a := x], sb, inum, v) == TableOf(d, sb, inum, v)
    ensures forall k :: 0 <= k < sb.ninodes ==> DiskInode(d[a := x], sb, k) == DiskInode(d, sb, k)
  {
    var e := d[a := x];
    BitmapFrame(d, sb, a, x);
    forall k | 0 <= k < sb.ninodes
      ensures DiskInode(e, sb, k) == DiskInode(d, sb, k) && Row(e, sb, inum, v, k) == Row(d, sb, inum, v, k)
    {
      assert Row(d, sb, inum, v, k)[NDIRECT] == Ino(d, sb, inum, v, k).addrs[NDIRECT];
    }
  }

  /** A block in a data slot is not the indirect block of any inode. */
  lemma NotIndirect(d: Disk, sb: Superblock, inum: nat, v: Dinode, s: nat, k: nat)
    requires FsOk(d, sb, inum, v) && s < SLOTS && s != NDIRECT && k < sb.ninodes
    requires Row(d, sb, inum, v, inum)[s] != 0
    ensures Row(d, sb, inum, v, k)[NDIRECT] != Row(d, sb, inum, v, inum)[s]
  {
    RefDistinct(d, sb, inum, v, k, NDIRECT, inum, s);
  }

  /** Writing the data of one's own block. */
  lemma WriteSlot(d: Disk, sb: Superblock, inum: nat, v: Dinode, s: nat, x: Block)
    requires FsOk(d, sb, inum, v) && s < SLOTS && s != NDIRECT && Row(d, sb, inum, v, inum)[s] != 0
    ensures var a := Row(d, sb, inum, v, inum)[s];
            && a < |d| && FsOk(d[a := x], sb, inum, v)
            && TableOf(d[a := x], sb, inum, v) == TableOf(d, sb, inum, v)
            && SameOthers(d, d[a := x], sb, inum)
  {
    var a := Row(d, sb, inum, v, inum)[s];
    RefFacts(d, sb, inum, v, inum, s);
    forall k | 0 <= k < sb.ninodes
      ensures Row(d, sb, inum, v, k)[NDIRECT] != a
    {
      NotIndirect(d, sb, inum, v, s, k);
    }
    DataWrite(d, sb, inum, v, a, x);
    WriteOthers(d, sb, inum, v, s, x);
  }

  /** One's own blocks are nobody else's. */
  lemma WriteOthers(d: Disk, sb: Superblock, inum: nat, v: Dinode, s: nat, x: Block)
    requires FsOk(d, sb, inum, v) && s < SLOTS && Row(d, sb, inum, v, inum)[s] != 0
    ensures var a := Row(d, sb, inum, v, inum)[s];
            a < |d| && SameOthers(d, d[a := x], sb, inum)
  {
    var a := Row(d, sb, inum, v, inum)[s];
    RefFacts(d, sb, inum, v, inum, s);
    var e := d[a := x];
    forall k | 0 <= k < sb.ninodes && k != inum
      ensures SameInode(d, e, sb, inum, v, k)
    {
      forall u | 0 <= u < SLOTS
        ensures var c := Row(d, sb, inum, v, k)[u]; 0 < c < |d| ==> e[c] == d[c]
      {
        RefDistinct(d, sb, inum, v, k, u, inum, s);
      }
    }
    OthersOf(d, e, sb, inum, v);
  }

  /** `a[j] = b` in the indirect block, for a fresh block b. */
  lemma AssignEntry(d: Disk, sb: Superblock, inum: nat, v: Dinode, b: Word, j: nat)
    requires FsOk(d, sb, inum, v) && b < sb.size && !Used(d, sb, b) && j < NINDIRECT
    requires v.addrs[NDIRECT] != 0 && Row(d, sb, inum, v, inum)[NDIRECT + 1 + j] == 0
    ensures v.addrs[NDIRECT] < sb.size
    ensures var f := Entered(d, sb, v.addrs[NDIRECT], j, b);
            && FsOk(f, sb, inum, v)
            && TableOf(f, sb, inum, v) == Put(TableOf(d, sb, inum, v), inum, NDIRECT + 1 + j, b)
  {
    var t := TableOf(d, sb, inum, v);
    assert t[inum] == Row(d, sb, inum, v, inum);
    assert Row(d, sb, inum, v, inum)[NDIRECT] == v.addrs[NDIRECT];
    RefFacts(d, sb, inum, v, inum, NDIRECT);
    AllocatedOk(d, sb, inum, v, b);
    assert Bitmap(d, sb)[b] == Used(d, sb, b);
    Allocate(t, Bitmap(d, sb), sb.Meta(), inum, NDIRECT + 1 + j, b);
    var ind := v.addrs[NDIRECT];
    var e := Allocated(d, sb, b);
    BitmapFrame(e, sb, ind, PutWord(e[ind], j, b));
    forall k | 0 <= k < sb.ninodes && k != inum
      ensures Row(e, sb, inum, v, k)[NDIRECT] != ind
    {
      assert TableOf(e, sb, inum, v)[k] == Row(e, sb, inum, v, k);
      RefDistinct(d, sb, inum, v, k, NDIRECT, inum, NDIRECT);
    }
    EnteredTable(e, sb, inum, v, j, b);
  }

  lemma EnteredTable(e: Disk, sb: Superblock, inum: nat, v: Dinode, j: nat, b: Word)
    requires sb.Laid(e) && inum < sb.ninodes && |v.addrs| == NDIRECT + 1 && j < NINDIRECT
    requires sb.Meta() <= v.addrs[NDIRECT] < |e| && 0 < v.addrs[NDIRECT]
    requires forall k :: 0 <= k < sb.ninodes && k != inum ==> Row(e, sb, inum, v, k)[NDIRECT] != v.addrs[NDIRECT]
    ensures var ind := v.addrs[NDIRECT];
            var f := e[ind := PutWord(e[ind], j, b)];
            sb.Laid(f) && TableOf(f, sb, inum, v) == Put(TableOf(e, sb, inum, v), inum, NDIRECT + 1 + j, b)
  {
    hide InodeAt, PutWord, WordsOf;
    var ind := v.addrs[NDIRECT];
    var f := e[ind := PutWord(e[ind], j, b)];
    EnteredRow(e, v.addrs, j, b);
    forall k | 0 <= k < sb.ninodes
      ensures Row(f, sb, inum, v, k) == Put(TableOf(e, sb, inum, v), inum, NDIRECT + 1 + j, b)[k]
    {
      assert TableOf(e, sb, inum, v)[k] == Row(e, sb, inum, v, k);
      if k != inum {
        assert Row(e, sb, inum, v, k)[NDIRECT] == Ino(e, sb, inum, v, k).addrs[NDIRECT];
      }
    }
  }

  lemma EnteredOthers(d: Disk, sb: Superblock, inum: nat, v: Dinode, b: Word, j: nat)
    requires FsOk(d, sb, inum, v) && b < sb.size && !Used(d, sb, b) && j < NINDIRECT && v.addrs[NDIRECT] != 0
    ensures v.addrs[NDIRECT] < sb.size
    ensures SameOthers(d, Entered(d, sb, v.addrs[NDIRECT], j, b), sb, inum)
  {
    assert Row(d, sb, inum, v, inum)[NDIRECT] == v.addrs[NDIRECT];
    RefFacts(d, sb, inum, v, inum, NDIRECT);
    AllocatedOthers(d, sb, inum, v, b);
    var ind := v.addrs[NDIRECT];
    var e := Allocated(d, sb, b);
    WriteOthers(d, sb, inum, v, NDIRECT, PutWord(e[ind], j, b));
    SplitOthers(d, e, sb, inum, ind, PutWord(e[ind], j, b));
  }

  /** Two changes that each leave the others alone. */
  lemma SplitOthers(d: Disk, e: Disk, sb: Superblock, inum: nat, a: nat, x: Block)
    requires SameOthers(d, e, sb, inum) && a < |d| && SameOthers(d, d[a := x], sb, inum) && sb.Meta() <= a
    ensures SameOthers(d, e[a := x], sb, inum)
  {
    var f := e[a := x];
    forall k | 0 <= k < sb.ninodes && k != inum
      ensures SameInode(d, f, sb, k, DiskInode(d, sb, k), k)
    {
      assert SameInode(d, e, sb, k, DiskInode(d, sb, k), k) && SameInode(d, d[a := x], sb, k, DiskInode(d, sb, k), k);
      var row := Row(d, sb, k, DiskInode(d, sb, k), k);
      forall s | 0 <= s < SLOTS
        ensures 0 < row[s] < |d| ==> f[row[s]] == d[row[s]]
      {
        assert 0 < row[s] < |d| ==> d[a := x][row[s]] == d[row[s]];
      }
    }
  }

  lemma {:induction false} OthersTransitive(d: Disk, e: Disk, f: Disk, sb: Superblock, inum: nat)
    requires SameOthers(d, e, sb, inum) && SameOthers(e, f, sb, inum)
    ensures SameOthers(d, f, sb, inum)
  {
    forall k | 0 <= k < sb.ninodes && k != inum
      ensures SameInode(d, f, sb, k, DiskInode(d, sb, k), k)
    {
      var v := DiskInode(d, sb, k);
      assert SameInode(d, e, sb, k, v, k) && SameInode(e, f, sb, k, v, k);
      SameRow(d, e, sb, k, v, k);
    }
  }

  // ----- bfree and iupdate

  /** The disk after `bfree(b)`. */
  function Freed(d: Disk, sb: Superblock, b: nat): (e: Disk)
    requires sb.Laid(d) && b < sb.size
    ensures |e| == |d|
  {
    var m := sb.BitmapBlock(b);
    d[m := PutBit(d[m], b % BPB, false)]
  }

  /** The disk after `iupdate`. */
  function Updated(d: Disk, sb: Superblock, inum: nat, v: Dinode): (e: Disk)
    requires sb.Laid(d) && inum < sb.ninodes && |v.addrs| == NDIRECT + 1
    ensures |e| == |d|
  {
    var m := sb.InodeBlock(inum);
    d[m := PutInode(d[m], inum % IPB, v)]
  }

  lemma UpdatedInode(d: Disk, sb: Superblock, inum: nat, v: Dinode, k: nat)
    requires sb.Laid(d) && inum < sb.ninodes && k < sb.ninodes && |v.addrs| == NDIRECT + 1
    ensures sb.Laid(Updated(d, sb, inum, v))
    ensures DiskInode(Updated(d, sb, inum, v), sb, k) == if k == inum then v else DiskInode(d, sb, k)
  {
    PutInodeReads(d[sb.InodeBlock(inum)], inum % IPB, v, k % IPB);
  }

  lemma UpdatedBitmap(d: Disk, sb: Superblock, inum: nat, v: Dinode)
    requires sb.Laid(d) && inum < sb.ninodes && |v.addrs| == NDIRECT + 1
    ensures sb.Laid(Updated(d, sb, inum, v)) && Bitmap(Updated(d, sb, inum, v), sb) == Bitmap(d, sb)
  {
    var e := Updated(d, sb, inum, v);
    forall c | 0 <= c < sb.size
      ensures Used(e, sb, c) == Used(d, sb, c)
    {
    }
  }

  /** The blocks behind the metadata are the same. */
  ghost predicate DataKept(d: Disk, e: Disk, sb: Superblock) {
    |d| == |e| && sb.size <= |d| && forall a: nat :: sb.Meta() <= a < sb.size ==> e[a] == d[a]
  }

  lemma UpdatedData(d: Disk, sb: Superblock, inum: nat, v: Dinode)
    requires sb.Laid(d) && inum < sb.ninodes && |v.addrs| == NDIRECT + 1
    ensures DataKept(d, Updated(d, sb, inum, v), sb)
  {
    hide PutInode;
  }

  lemma UpdatedIs(d: Disk, sb: Superblock, inum: nat, v: Dinode)
    requires sb.Laid(d) && inum < sb.ninodes && |v.addrs| == NDIRECT + 1
    ensures var m := sb.InodeBlock(inum);
            m < |d| && Updated(d, sb, inum, v) == d[m := PutInode(d[m], inum % IPB, v)]
  {
  }

  lemma UpdatedFull(d: Disk, sb: Superblock, inum: nat, v: Dinode)
    requires sb.Laid(d) && inum < sb.ninodes && |v.addrs| == NDIRECT + 1
    ensures Full(d, sb) ==> Full(Updated(d, sb, inum, v), sb)
  {
    hide Used, Updated;
    UpdatedUsed(d, sb, inum, v);
  }

  lemma UpdatedUsed(d: Disk, sb: Superblock, inum: nat, v: Dinode)
    requires sb.Laid(d) && inum < sb.ninodes && |v.addrs| == NDIRECT + 1
    ensures sb.Laid(Updated(d, sb, inum, v))
    ensures forall c :: 0 <= c < sb.size ==> Used(Updated(d, sb, inum, v), sb, c) == Used(d, sb, c)
  {
    UpdatedBitmap(d, sb, inum, v);
    forall c | 0 <= c < sb.size
      ensures Used(Updated(d, sb, inum, v), sb, c) == Used(d, sb, c)
    {
      assert Bitmap(Updated(d, sb, inum, v), sb)[c] == Bitmap(d, sb)[c];
    }
  }

  /** Writing the in-memory inode back changes no reference, no bit and no other inode, and the
      disk's copy is then the in-memory one. */
  lemma UpdatedOk(d: Disk, sb: Superblock, inum: nat, v: Dinode)
    requires FsOk(d, sb, inum, v)
    ensures var e := Updated(d, sb, inum, v);
            FsOk(e, sb, inum, v) && DiskInode(e, sb, inum) == v && SameOthers(d, e, sb, inum)
            && TableOf(e, sb, inum, v) == TableOf(d, sb, inum, v)
  {
    var e := Updated(d, sb, inum, v);
    UpdatedInode(d, sb, inum, v, inum);
    UpdatedBitmap(d, sb, inum, v);
    forall k | 0 <= k < sb.ninodes
      ensures Row(e, sb, inum, v, k) == Row(d, sb, inum, v, k)
      ensures k != inum ==> SameInode(d, e, sb, inum, v, k)
    {
      UpdatedRow(d, sb, inum, v, k);
    }
    OthersOf(d, e, sb, inum, v);
    assert TableOf(e, sb, inum, v) == TableOf(d, sb, inum, v);
  }

  lemma UpdatedRow(d: Disk, sb: Superblock, inum: nat, v: Dinode, k: nat)
    requires FsOk(d, sb, inum, v) && k < sb.ninodes
    ensures var e := Updated(d, sb, inum, v);
            && sb.Laid(e) && Row(e, sb, inum, v, k) == Row(d, sb, inum, v, k)
            && (k != inum ==> SameInode(d, e, sb, inum, v, k))
  {
    hide Owned, PutInode, InodeAt, Used;
    var e := Updated(d, sb, inum, v);
    UpdatedInode(d, sb, inum, v, k);
    forall s | 0 <= s < SLOTS
      ensures var a := Row(d, sb, inum, v, k)[s]; 0 < a < |d| ==> e[a] == d[a]
    {
      RefFacts(d, sb, inum, v, k, s);
    }
    assert Row(d, sb, inum, v, k)[NDIRECT] == Ino(d, sb, inum, v, k).addrs[NDIRECT];
  }

  // ----- file contents

  /** The byte at offset o of the file whose blocks are `row`; a hole reads as zero. */
  function FileByte(d: Disk, row: seq<Word>, o: nat): Byte
    requires |row| == SLOTS && o < MAXFILE * BSIZE
  {
    var a := row[SlotOf(o / BSIZE)];
    if 0 < a < |d| then d[a][o % BSIZE] else 0
  }

  function Content(d: Disk, v: Dinode): (bytes: seq<Byte>)
    requires |v.addrs| == NDIRECT + 1 && v.size <= MAXFILE * BSIZE
    ensures |bytes| == v.size
    ensures forall o :: 0 <= o < v.size ==> bytes[o] == FileByte(d, Refs(d, v.addrs), o)
  {
    seq(v.size, o requires 0 <= o < v.size => FileByte(d, Refs(d, v.addrs), o))
  }

  /** Every block below the file's size is there. */
  ghost predicate HoleFree(row: seq<Word>, size: nat)
    requires |row| == SLOTS
  {
    size <= MAXFILE * BSIZE && forall bn :: 0 <= bn < MAXFILE && bn * BSIZE < size ==> row[SlotOf(bn)] != 0
  }

  /** An operation on one file leaves every other file as it was. */
  lemma OthersContent(d: Disk, e: Disk, sb: Superblock, inum: nat, k: nat)
    requires SameOthers(d, e, sb, inum) && k < sb.ninodes && k != inum && DiskInode(d, sb, k).size <= MAXFILE * BSIZE
    ensures DiskInode(e, sb, k) == DiskInode(d, sb, k)
    ensures Content(e, DiskInode(e, sb, k)) == Content(d, DiskInode(d, sb, k))
  {
    var v := DiskInode(d, sb, k);
    assert SameInode(d, e, sb, k, v, k);
    SameRow(d, e, sb, k, v, k);
    forall o | 0 <= o < v.size
      ensures FileByte(e, Refs(e, v.addrs), o) == FileByte(d, Refs(d, v.addrs), o)
    {
      assert Row(d, sb, k, v, k)[SlotOf(o / BSIZE)] == Refs(d, v.addrs)[SlotOf(o / BSIZE)];
    }
  }

  // ----- what bmap does to one's own file

  /** From (d, row) to (e, row') only empty slots `s` and NDIRECT may have been filled, a new
      data block is zero, and no data block has changed. */
  ghost predicate Kept(d: Disk, row: seq<Word>, e: Disk, row': seq<Word>, s: nat) {
    && |row| == |row'| == SLOTS && |d| == |e|
    && (forall u :: 0 <= u < SLOTS && row'[u] != row[u] ==> row[u] == 0 && (u == s || u == NDIRECT))
    && (forall u :: 0 <= u < SLOTS && u != NDIRECT && 0 < row[u] < |d| ==> e[row[u]] == d[row[u]])
    && (forall u :: 0 <= u < SLOTS && u != NDIRECT && row'[u] != row[u] ==> row'[u] < |e| && e[row'[u]] == ZeroBlock)
  }

  /** A fresh block in a direct slot, or a fresh indirect block. */
  lemma FillSlot(d: Disk, sb: Superblock, inum: nat, v: Dinode, b: Word, s: nat)
    requires FsOk(d, sb, inum, v) && b < sb.size && !Used(d, sb, b) && s <= NDIRECT && v.addrs[s] == 0
    ensures var e, w := Allocated(d, sb, b), v.(addrs := v.addrs[s := b]);
            && FsOk(e, sb, inum, w) && SameOthers(d, e, sb, inum)
            && Row(e, sb, inum, w, inum) == Row(d, sb, inum, v, inum)[s := b]
            && Kept(d, Row(d, sb, inum, v, inum), e, Row(e, sb, inum, w, inum), s)
  {
    hide Owned, Used, Allocated, Bitmap, Refs, Row, SameInode, SameOthers;
    var e, w := Allocated(d, sb, b), v.(addrs := v.addrs[s := b]);
    AssignSlot(d, sb, inum, v, b, s);
    AllocatedOthers(d, sb, inum, v, b);
    AllocatedOwn(d, sb, inum, v, b);
    AllocatedZero(d, sb, b);
    RowAddr(d, sb, inum, v, s);
    assert TableOf(e, sb, inum, w)[inum] == Row(e, sb, inum, w, inum);
    assert TableOf(d, sb, inum, v)[inum] == Row(d, sb, inum, v, inum);
  }

  /** A fresh block in an entry of the indirect block. */
  lemma FillEntry(d: Disk, sb: Superblock, inum: nat, v: Dinode, b: Word, j: nat)
    requires FsOk(d, sb, inum, v) && b < sb.size && !Used(d, sb, b) && j < NINDIRECT
    requires v.addrs[NDIRECT] != 0 && Row(d, sb, inum, v, inum)[NDIRECT + 1 + j] == 0
    ensures v.addrs[NDIRECT] < sb.size
    ensures var f := Entered(d, sb, v.addrs[NDIRECT], j, b);
            && FsOk(f, sb, inum, v) && SameOthers(d, f, sb, inum)
            && Row(f, sb, inum, v, inum) == Row(d, sb, inum, v, inum)[NDIRECT + 1 + j := b]
            && Kept(d, Row(d, sb, inum, v, inum), f, Row(f, sb, inum, v, inum), NDIRECT + 1 + j)
  {
    hide Owned, Used, Allocated, Bitmap, Refs, Row, PutWord, SameInode, SameOthers;
    AssignEntry(d, sb, inum, v, b, j);
    EnteredOthers(d, sb, inum, v, b, j);
    AllocatedOwn(d, sb, inum, v, b);
    var f := Entered(d, sb, v.addrs[NDIRECT], j, b);
    var row := Row(d, sb, inum, v, inum);
    assert TableOf(f, sb, inum, v)[inum] == Row(f, sb, inum, v, inum);
    assert TableOf(d, sb, inum, v)[inum] == row;
    RowAddr(d, sb, inum, v, NDIRECT);
    AllocatedZero(d, sb, b);
    FreeBlock(d, sb, inum, v, b);
    forall u | 0 <= u < SLOTS && u != NDIRECT && 0 < row[u] < |d|
      ensures f[row[u]] == d[row[u]]
    {
      RefDistinct(d, sb, inum, v, inum, u, inum, NDIRECT);
    }
  }

  lemma RowAddr(d: Disk, sb: Superblock, inum: nat, v: Dinode, s: nat)
    requires sb.Laid(d) && inum < sb.ninodes && |v.addrs| == NDIRECT + 1 && s <= NDIRECT
    ensures Row(d, sb, inum, v, inum)[s] == v.addrs[s]
  {
  }

  /** balloc leaves one's own blocks alone. */
  lemma AllocatedOwn(d: Disk, sb: Superblock, inum: nat, v: Dinode, b: nat)
    requires FsOk(d, sb, inum, v) && b < sb.size && !Used(d, sb, b)
    ensures forall u :: 0 <= u < SLOTS ==>
              var a := Row(d, sb, inum, v, inum)[u]; 0 < a < |d| ==> Allocated(d, sb, b)[a] == d[a]
  {
    AllocatedSame(d, sb, inum, v, b, inum);
  }

  lemma {:induction false} KeptThenKept(d: Disk, r: seq<Word>, e: Disk, r': seq<Word>, f: Disk, r'': seq<Word>, s: nat)
    requires Kept(d, r, e, r', NDIRECT) && Kept(e, r', f, r'', s)
    ensures Kept(d, r, f, r'', s)
  {
    forall u | 0 <= u < SLOTS && r''[u] != r[u]
      ensures r[u] == 0 && (u == s || u == NDIRECT)
    {
      assert r'[u] != r[u] || r''[u] != r'[u];
    }
    forall u | 0 <= u < SLOTS && u != NDIRECT && 0 < r[u] < |d|
      ensures f[r[u]] == d[r[u]]
    {
      assert r'[u] == r[u];
    }
    forall u | 0 <= u < SLOTS && u != NDIRECT && r''[u] != r[u]
      ensures r''[u] < |f| && f[r''[u]] == ZeroBlock
    {
      assert r'[u] == r[u];
    }
  }

  lemma BlockZeroUsed(d: Disk, sb: Superblock, inum: nat, v: Dinode)
    requires FsOk(d, sb, inum, v)
    ensures sb.Laid(d) && Used(d, sb, 0)
  {
    assert Bitmap(d, sb)[0];
  }

  lemma Unchanged(d: Disk, sb: Superblock, inum: nat, v: Dinode, s: nat)
    requires FsOk(d, sb, inum, v)
    ensures SameOthers(d, d, sb, inum)
    ensures Kept(d, Row(d, sb, inum, v, inum), d, Row(d, sb, inum, v, inum), s)
  {
  }

  lemma AllocatedKeeps(d: Disk, sb: Superblock, inum: nat, v: Dinode, b: nat)
    requires FsOk(d, sb, inum, v) && b < sb.size && !Used(d, sb, b) && v.addrs[NDIRECT] != 0
    ensures v.addrs[NDIRECT] < |d| && Allocated(d, sb, b)[v.addrs[NDIRECT]] == d[v.addrs[NDIRECT]]
  {
    AllocatedSame(d, sb, inum, v, b, inum);
    RefFacts(d, sb, inum, v, inum, NDIRECT);
    assert Row(d, sb, inum, v, inum)[NDIRECT] == v.addrs[NDIRECT];
  }

  lemma KeptMore(d: Disk, r: seq<Word>, e: Disk, r': seq<Word>, s: nat)
    requires Kept(d, r, e, r', NDIRECT)
    ensures Kept(d, r, e, r', s)
  {
  }

  ghost predicate SameBytes(d: Disk, row: seq<Word>, e: Disk, row': seq<Word>)
    requires |row| == |row'| == SLOTS
  {
    forall o :: 0 <= o < MAXFILE * BSIZE ==> FileByte(e, row', o) == FileByte(d, row, o)
  }

  /** bmap never changes what a file reads as: a hole reads as zero before and after. */
  lemma KeptBytes(d: Disk, row: seq<Word>, e: Disk, row': seq<Word>, s: nat)
    requires Kept(d, row, e, row', s)
    ensures SameBytes(d, row, e, row')
  {
    forall o | 0 <= o < MAXFILE * BSIZE
      ensures FileByte(e, row', o) == FileByte(d, row, o)
    {
      var u := SlotOf(o / BSIZE);
      assert u != NDIRECT && u < SLOTS;
      assert row'[u] == row[u] || row[u] == 0;
    }
  }

  // ----- writei

  function PutBytes(b: Block, at: nat, bytes: seq<Byte>): Block
    requires at + |bytes| <= BSIZE
  {
    b[..at] + bytes + b[at + |bytes|..]
  }

  /** The file whose bytes from `off` on are overwritten, and appended to, with `bytes`. */
  function Splice(c: seq<Byte>, off: nat, bytes: seq<Byte>): seq<Byte>
    requires off <= |c|
  {
    c[..off] + bytes + if off + |bytes| < |c| then c[off + |bytes|..] else []
  }

  /** (e, row') reads as (d, row) with the first tot bytes of src at off. */
  ghost predicate Wrote(d: Disk, row: seq<Word>, e: Disk, row': seq<Word>, off: nat, src: seq<Byte>, tot: nat) {
    && |row| == |row'| == SLOTS && tot <= |src|
    && (forall o :: 0 <= o < MAXFILE * BSIZE ==>
          FileByte(e, row', o) == if off <= o < off + tot then src[o - off] else FileByte(d, row, o))
  }

  /** Overwriting bytes of one block of the file. */
  lemma WriteBytes(d: Disk, row: seq<Word>, pos: nat, bytes: seq<Byte>, o: nat)
    requires |row| == SLOTS && pos < MAXFILE * BSIZE && o < MAXFILE * BSIZE && pos % BSIZE + |bytes| <= BSIZE
    requires 0 < row[SlotOf(pos / BSIZE)] < |d|
    requires row[SlotOf(o / BSIZE)] == row[SlotOf(pos / BSIZE)] ==> o / BSIZE == pos / BSIZE
    ensures var a := row[SlotOf(pos / BSIZE)];
            var e := d[a := PutBytes(d[a], pos % BSIZE, bytes)];
            FileByte(e, row, o) == if pos <= o < pos + |bytes| then bytes[o - pos] else FileByte(d, row, o)
  {
    var a := row[SlotOf(pos / BSIZE)];
    var x := PutBytes(d[a], pos % BSIZE, bytes);
    if o / BSIZE == pos / BSIZE {
      assert o - pos == o % BSIZE - pos % BSIZE;
      var (i, p) := (o % BSIZE, pos % BSIZE);
      assert x[i] == if p <= i < p + |bytes| then bytes[i - p] else d[a][i];
    } else {
      assert !(pos <= o < pos + |bytes|);
    }
  }

  /** One more piece of src, after bmap has left the bytes alone. */
  lemma WroteMore(d: Disk, row: seq<Word>, e: Disk, row': seq<Word>, f: Disk, row'': seq<Word>, off: nat,
      src: seq<Byte>, tot: nat, m: nat)
    requires Wrote(d, row, e, row', off, src, tot) && |row''| == SLOTS && SameBytes(e, row', f, row'')
    requires tot + m <= |src| && off + tot < MAXFILE * BSIZE && (off + tot) % BSIZE + m <= BSIZE
    requires 0 < row''[SlotOf((off + tot) / BSIZE)] < |f|
    requires forall u :: 0 <= u < SLOTS && row''[u] == row''[SlotOf((off + tot) / BSIZE)] ==>
             u == SlotOf((off + tot) / BSIZE)
    ensures var a := row''[SlotOf((off + tot) / BSIZE)];
            var g := f[a := PutBytes(f[a], (off + tot) % BSIZE, src[tot..tot + m])];
            Wrote(d, row, g, row'', off, src, tot + m)
  {
    hide SlotOf, PutBytes, FileByte;
    var pos := off + tot;
    var a := row''[SlotOf(pos / BSIZE)];
    var g := f[a := PutBytes(f[a], pos % BSIZE, src[tot..tot + m])];
    forall o | 0 <= o < MAXFILE * BSIZE
      ensures FileByte(g, row'', o) == if off <= o < off + tot + m then src[o - off] else FileByte(d, row, o)
    {
      SlotInjective(o / BSIZE, pos / BSIZE);
      WriteBytes(f, row'', pos, src[tot..tot + m], o);
      assert FileByte(f, row'', o) == FileByte(e, row', o);
    }
  }

  lemma SlotInjective(bn: nat, bn': nat)
    requires bn < MAXFILE && bn' < MAXFILE
    ensures SlotOf(bn) == SlotOf(bn') ==> bn == bn'
  {
  }

  /** What the whole write amounts to. */
  lemma SpliceContent(d: Disk, v: Dinode, e: Disk, w: Dinode, off: nat, src: seq<Byte>, tot: nat)
    requires |v.addrs| == NDIRECT + 1 && |w.addrs| == NDIRECT + 1 && v.size <= MAXFILE * BSIZE
    requires w.size <= MAXFILE * BSIZE
    requires Wrote(d, Refs(d, v.addrs), e, Refs(e, w.addrs), off, src, tot)
    requires off <= v.size && w.size == if off + tot > v.size then off + tot else v.size
    ensures Content(e, w) == Splice(Content(d, v), off, src[..tot])
  {
    var want := Splice(Content(d, v), off, src[..tot]);
    assert |want| == w.size;
    forall o | 0 <= o < w.size
      ensures Content(e, w)[o] == want[o]
    {
      assert Content(e, w)[o] == FileByte(e, Refs(e, w.addrs), o);
      if o < off {
      } else if o < off + tot {
        assert want[o] == src[o - off];
      } else {
        assert want[o] == Content(d, v)[o];
      }
    }
  }

  /** How many blocks the first tot bytes from off on lie in. */
  function Spanned(off: nat, tot: nat): nat {
    if tot == 0 then 0 else (off + tot - 1) / BSIZE - off / BSIZE + 1
  }

  ghost predicate Filled(row: seq<Word>, row': seq<Word>) {
    |row| == |row'| == SLOTS && forall u :: 0 <= u < SLOTS && row[u] != 0 ==> row'[u] == row[u]
  }

  /** The blocks of the bytes written so far are all there. */
  ghost predicate Present(row: seq<Word>, off: nat, tot: nat) {
    |row| == SLOTS && forall bn :: off / BSIZE <= bn < MAXFILE && bn * BSIZE < off + tot && tot > 0 ==>
      row[SlotOf(bn)] != 0
  }

  lemma PresentMore(row: seq<Word>, row': seq<Word>, off: nat, tot: nat, m: nat)
    requires Present(row, off, tot) && Filled(row, row') && off + tot + m <= MAXFILE * BSIZE && m > 0
    requires (off + tot) % BSIZE + m <= BSIZE && row'[SlotOf((off + tot) / BSIZE)] != 0
    requires tot == 0 || (off + tot) % BSIZE == 0
    ensures Present(row', off, tot + m)
  {
    hide SlotOf;
    forall bn | off / BSIZE <= bn < MAXFILE && bn * BSIZE < off + tot + m
      ensures row'[SlotOf(bn)] != 0
    {
      if bn != (off + tot) / BSIZE {
        assert bn * BSIZE < off + tot && tot > 0;
        assert row[SlotOf(bn)] != 0;
      }
    }
  }

  lemma SpannedMore(off: nat, tot: nat, m: nat)
    requires m > 0 && (off + tot) % BSIZE + m <= BSIZE && (tot == 0 || (off + tot) % BSIZE == 0)
    ensures Spanned(off, tot + m) == Spanned(off, tot) + 1
  {
    assert (off + tot + m - 1) / BSIZE == (off + tot) / BSIZE;
    if tot > 0 {
      assert (off + tot - 1) / BSIZE == (off + tot) / BSIZE - 1;
    }
  }

  /** A write that starts inside a file without holes, or at its end, makes no hole. */
  lemma StillHoleFree(row: seq<Word>, size: nat, row': seq<Word>, off: nat, tot: nat)
    requires |row| == SLOTS && HoleFree(row, size) && off <= size && Filled(row, row') && Present(row', off, tot)
    requires off + tot <= MAXFILE * BSIZE
    ensures HoleFree(row', if off + tot > size then off + tot else size)
  {
    hide SlotOf;
    forall bn | 0 <= bn < MAXFILE && bn * BSIZE < (if off + tot > size then off + tot else size)
      ensures row'[SlotOf(bn)] != 0
    {
      if bn * BSIZE < size {
        assert row[SlotOf(bn)] != 0;
      } else {
        assert off / BSIZE <= bn;
      }
    }
  }

  lemma FilledSelf(row: seq<Word>)
    requires |row| == SLOTS
    ensures Filled(row, row)
  {
  }

  lemma KeptFilled(start: seq<Word>, d: Disk, row: seq<Word>, e: Disk, row': seq<Word>, s: nat)
    requires Filled(start, row) && Kept(d, row, e, row', s)
    ensures Filled(start, row') && Filled(row, row')
  {
  }

  lemma FilledThenFilled(start: seq<Word>, row: seq<Word>, row': seq<Word>)
    requires Filled(start, row) && Filled(row, row')
    ensures Filled(start, row')
  {
  }

  lemma WroteSame(d: Disk, row: seq<Word>, e: Disk, row': seq<Word>, f: Disk, row'': seq<Word>, off: nat,
      src: seq<Byte>, tot: nat)
    requires Wrote(d, row, e, row', off, src, tot) && |row''| == SLOTS && SameBytes(e, row', f, row'')
    ensures Wrote(d, row, f, row'', off, src, tot)
  {
    hide FileByte;
    forall o | 0 <= o < MAXFILE * BSIZE
      ensures FileByte(f, row'', o) == if off <= o < off + tot then src[o - off] else FileByte(d, row, o)
    {
      assert FileByte(f, row'', o) == FileByte(e, row', o);
    }
  }

  lemma PresentSame(row: seq<Word>, row': seq<Word>, off: nat, tot: nat)
    requires Present(row, off, tot) && Filled(row, row')
    ensures Present(row', off, tot)
  {
    hide SlotOf;
    forall bn | off / BSIZE <= bn < MAXFILE && bn * BSIZE < off + tot && tot > 0
      ensures row'[SlotOf(bn)] != 0
    {
      assert row[SlotOf(bn)] != 0;
    }
  }

  // ----- the blocks a write logs

  /** The file system when writei was called. */
  datatype Start = Start(d: Disk, row: seq<Word>, v: Dinode, touched: set<nat>)

  function Ind(row: seq<Word>): set<nat>
    requires |row| == SLOTS
  {
    if row[NDIRECT] == 0 then {} else {row[NDIRECT] as nat}
  }

  /** One if the indirect block is new. */
  function IndNew(row: seq<Word>, row': seq<Word>): nat
    requires |row| == SLOTS && |row'| == SLOTS
  {
    if row[NDIRECT] == 0 && row'[NDIRECT] != 0 then 1 else 0
  }

  /** The data blocks and bitmap blocks a write has logged, and how many blocks it filled in. */
  datatype Account = Account(data: set<nat>, bms: set<nat>, filled: nat) {
    ghost predicate Covers(st: Start, row: seq<Word>, touched: set<nat>, off: nat, tot: nat)
      requires |st.row| == SLOTS && |row| == SLOTS
    {
      && touched <= st.touched + data + bms + Ind(row)
      && |data| <= Spanned(off, tot) && filled <= Spanned(off, tot) && |bms| <= filled + IndNew(st.row, row)
      && (off % BSIZE != 0 && off < MAXFILE * BSIZE && st.row[SlotOf(off / BSIZE)] != 0 && tot > 0 ==>
         filled < Spanned(off, tot))
    }

    function Fail(more: set<nat>): Account {
      Account(data, bms + more, filled)
    }

    function Next(addr: nat, more: set<nat>, hole: bool): Account {
      Account(data + {addr}, bms + more, if hole then filled + 1 else filled)
    }
  }

  lemma UnionCount(a: set<nat>, b: set<nat>)
    ensures |a + b| <= |a| + |b|
  {
    assert a + b == a + (b - a);
    assert b == (b - a) + (a * b);
  }

  lemma AccountFail(acct: Account, st: Start, row: seq<Word>, row': seq<Word>, touched: set<nat>, touched': set<nat>,
      more: set<nat>, off: nat, tot: nat)
    requires Filled(st.row, row) && Filled(row, row') && acct.Covers(st, row, touched, off, tot)
    requires touched' <= touched + more + Ind(row') && |more| <= IndNew(row, row')
    ensures acct.Fail(more).Covers(st, row', touched', off, tot)
  {
    UnionCount(acct.bms, more);
  }

  lemma AccountNext(acct: Account, st: Start, row: seq<Word>, row': seq<Word>, touched: set<nat>, touched': set<nat>,
      more: set<nat>, off: nat, tot: nat, m: nat, addr: nat)
    requires Filled(st.row, row) && Filled(row, row') && acct.Covers(st, row, touched, off, tot)
    requires m > 0 && (off + tot) % BSIZE + m <= BSIZE && (tot == 0 || (off + tot) % BSIZE == 0)
    requires off + tot < MAXFILE * BSIZE
    requires touched' <= touched + more + {addr} + Ind(row')
    requires |more| <= (if row[SlotOf((off + tot) / BSIZE)] == 0 then 1 else 0) + IndNew(row, row')
    ensures acct.Next(addr, more, row[SlotOf((off + tot) / BSIZE)] == 0).Covers(st, row', touched', off, tot + m)
  {
    hide SlotOf, Spanned, Filled;
    UnionCount(acct.bms, more);
    UnionCount(acct.data, {addr});
    SpannedMore(off, tot, m);
    SpannedZero(off);
    FilledFacts(st.row, row, row', SlotOf((off + tot) / BSIZE));
  }

  lemma FilledFacts(start: seq<Word>, row: seq<Word>, row': seq<Word>, s: nat)
    requires Filled(start, row) && Filled(row, row') && s < SLOTS
    ensures start[s] != 0 ==> row[s] != 0
    ensures Ind(row) <= Ind(row') && IndNew(start, row') == IndNew(start, row) + IndNew(row, row')
  {
  }

  lemma SpannedZero(off: nat)
    ensures Spanned(off, 0) == 0
  {
  }

  /** Only the addresses of an inode matter for ownership. */
  lemma SizeDoesNotMatter(d: Disk, sb: Superblock, inum: nat, v: Dinode, w: Dinode)
    requires FsOk(d, sb, inum, v) && w.addrs == v.addrs
    ensures FsOk(d, sb, inum, w) && TableOf(d, sb, inum, w) == TableOf(d, sb, inum, v)
    ensures Row(d, sb, inum, w, inum) == Row(d, sb, inum, v, inum)
  {
    forall k | 0 <= k < sb.ninodes
      ensures Row(d, sb, inum, w, k) == Row(d, sb, inum, v, k)
    {
    }
    assert TableOf(d, sb, inum, w) == TableOf(d, sb, inum, v);
  }

  lemma UpdatedBytes(d: Disk, sb: Superblock, inum: nat, v: Dinode)
    requires FsOk(d, sb, inum, v)
    ensures var e := Updated(d, sb, inum, v);
            sb.Laid(e) && Row(e, sb, inum, v, inum) == Row(d, sb, inum, v, inum)
            && SameBytes(d, Row(d, sb, inum, v, inum), e, Row(e, sb, inum, v, inum))
  {
    UpdatedOk(d, sb, inum, v);
    var e, row := Updated(d, sb, inum, v), Row(d, sb, inum, v, inum);
    assert TableOf(e, sb, inum, v)[inum] == Row(e, sb, inum, v, inum) && TableOf(d, sb, inum, v)[inum] == row;
    hide Owned, PutInode;
    forall o | 0 <= o < MAXFILE * BSIZE
      ensures FileByte(e, row, o) == FileByte(d, row, o)
    {
      RefFacts(d, sb, inum, v, inum, SlotOf(o / BSIZE));
    }
  }

  /** The last step of writei, as values: the inode with its new size goes to the disk. */
  lemma Concluded(d: Disk, sb: Superblock, inum: nat, v: Dinode, w: Dinode, st: Start, off: nat, src: seq<Byte>,
      tot: nat)
    requires FsOk(d, sb, inum, v) && w == v.(size := w.size) && SameOthers(st.d, d, sb, inum)
    requires |st.v.addrs| == NDIRECT + 1 && st.v.size <= MAXFILE * BSIZE && w.size <= MAXFILE * BSIZE
    requires off <= st.v.size
    requires st.row == Refs(st.d, st.v.addrs) && Wrote(st.d, st.row, d, Row(d, sb, inum, v, inum), off, src, tot)
    requires w.size == if off + tot > st.v.size then off + tot else st.v.size
    ensures var e := Updated(d, sb, inum, w);
            && FsOk(e, sb, inum, w) && DiskInode(e, sb, inum) == w && SameOthers(st.d, e, sb, inum)
            && Row(e, sb, inum, w, inum) == Row(d, sb, inum, v, inum)
            && Content(e, w) == Splice(Content(st.d, st.v), off, src[..tot])
  {
    hide Owned, Updated, FileByte, Content, SameInode;
    SizeDoesNotMatter(d, sb, inum, v, w);
    UpdatedOk(d, sb, inum, w);
    UpdatedBytes(d, sb, inum, w);
    var e := Updated(d, sb, inum, w);
    OthersTransitive(st.d, d, e, sb, inum);
    WroteSame(st.d, st.row, d, Row(d, sb, inum, v, inum), e, Row(e, sb, inum, w, inum), off, src, tot);
    SpliceContent(st.d, st.v, e, w, off, src, tot);
  }

  /** The inode block on top of the data, bitmap and indirect blocks. */
  lemma LoggedInAll(acct: Account, st: Start, row: seq<Word>, touched: set<nat>, off: nat, tot: nat, m: nat)
    requires |st.row| == SLOTS && |row| == SLOTS && acct.Covers(st, row, touched, off, tot) && st.touched == {}
    ensures |touched + {m}| <= 2 * Spanned(off, tot) + 3
    ensures off % BSIZE != 0 && tot > 0 && HoleFree(st.row, st.v.size) && off <= st.v.size ==>
            |touched + {m}| <= 2 * Spanned(off, tot) + 2
  {
    hide Spanned, SlotOf;
    var all := acct.data + acct.bms + Ind(row) + {m};
    SubsetCount(touched + {m}, all);
    UnionCount(acct.data, acct.bms);
    UnionCount(acct.data + acct.bms, Ind(row));
    UnionCount(acct.data + acct.bms + Ind(row), {m});
    if off % BSIZE != 0 && HoleFree(st.row, st.v.size) && off <= st.v.size {
      assert off / BSIZE < MAXFILE && off / BSIZE * BSIZE < st.v.size;
    }
  }

  // ----- readi

  lemma SameBytesTransitive(d: Disk, row: seq<Word>, e: Disk, row': seq<Word>, f: Disk, row'': seq<Word>)
    requires |row| == |row'| == |row''| == SLOTS && SameBytes(d, row, e, row') && SameBytes(e, row', f, row'')
    ensures SameBytes(d, row, f, row'')
  {
    hide FileByte;
    forall o | 0 <= o < MAXFILE * BSIZE
      ensures FileByte(f, row'', o) == FileByte(d, row, o)
    {
      assert FileByte(e, row', o) == FileByte(d, row, o);
    }
  }

  /** Bytes of one block are consecutive bytes of the file. */
  lemma PieceBytes(d: Disk, row: seq<Word>, pos: nat, m: nat, i: nat)
    requires |row| == SLOTS && pos + m <= MAXFILE * BSIZE && pos % BSIZE + m <= BSIZE && i < m
    requires 0 < row[SlotOf(pos / BSIZE)] < |d|
    ensures d[row[SlotOf(pos / BSIZE)]][pos % BSIZE..pos % BSIZE + m][i] == FileByte(d, row, pos + i)
  {
    assert (pos + i) / BSIZE == pos / BSIZE && (pos + i) % BSIZE == pos % BSIZE + i;
  }

  ghost predicate ReadFrom(d: Disk, row: seq<Word>, off: nat, dst: seq<Byte>) {
    |row| == SLOTS && off + |dst| <= MAXFILE * BSIZE && forall i :: 0 <= i < |dst| ==>
      dst[i] == FileByte(d, row, off + i)
  }

  lemma ReadMore(d: Disk, row: seq<Word>, e: Disk, row': seq<Word>, off: nat, dst: seq<Byte>, m: nat)
    requires ReadFrom(d, row, off, dst) && |row'| == SLOTS && SameBytes(d, row, e, row')
    requires off + |dst| + m <= MAXFILE * BSIZE && (off + |dst|) % BSIZE + m <= BSIZE && m > 0
    requires 0 < row'[SlotOf((off + |dst|) / BSIZE)] < |e|
    ensures var pos := off + |dst|;
            ReadFrom(d, row, off, dst + e[row'[SlotOf(pos / BSIZE)]][pos % BSIZE..pos % BSIZE + m])
  {
    hide FileByte, SlotOf;
    var pos := off + |dst|;
    var piece := e[row'[SlotOf(pos / BSIZE)]][pos % BSIZE..pos % BSIZE + m];
    forall i | 0 <= i < |dst| + m
      ensures (dst + piece)[i] == FileByte(d, row, off + i)
    {
      if i >= |dst| {
        PieceBytes(e, row', pos, m, i - |dst|);
      }
    }
  }

  // ----- itrunc

  /** Only bitmap blocks differ. */
  ghost predicate BitmapOnly(d: Disk, e: Disk, sb: Superblock) {
    |d| == |e| && forall b :: 0 <= b < |d| && !(sb.bmapstart <= b < sb.Meta()) ==> e[b] == d[b]
  }

  /** itrunc has freed some slots of inode inum: the bitmap agrees with the table in which those
      slots are empty, though the indirect block still names some of the freed blocks. */
  ghost predicate Truncating(st: Start, sb: Superblock, inum: nat, d: Disk, row: seq<Word>) {
    && FsOk(st.d, sb, inum, st.v) && st.row == Row(st.d, sb, inum, st.v, inum) && |row| == SLOTS
    && BitmapOnly(st.d, d, sb) && sb.Laid(d)
    && Owned(TableOf(st.d, sb, inum, st.v)[inum := row], Bitmap(d, sb), sb.Meta())
  }

  lemma StartTruncating(d: Disk, sb: Superblock, inum: nat, v: Dinode, touched: set<nat>)
    requires FsOk(d, sb, inum, v)
    ensures Truncating(Start(d, Row(d, sb, inum, v, inum), v, touched), sb, inum, d, Row(d, sb, inum, v, inum))
  {
    var t := TableOf(d, sb, inum, v);
    assert t[inum := t[inum]] == t;
  }

  /** Freeing one more slot: its bit is set, so bfree cannot panic. */
  lemma TruncateSlot(st: Start, sb: Superblock, inum: nat, d: Disk, row: seq<Word>, s: nat)
    requires Truncating(st, sb, inum, d, row) && s < SLOTS && row[s] != 0
    ensures sb.Meta() <= row[s] < sb.size && Used(d, sb, row[s])
    ensures Truncating(st, sb, inum, Freed(d, sb, row[s]), row[s := 0])
  {
    hide Used, PutBit;
    var t := TableOf(st.d, sb, inum, st.v)[inum := row];
    Release(t, Bitmap(d, sb), sb.Meta(), inum, s);
    assert Bitmap(d, sb)[row[s]] == Used(d, sb, row[s]);
    FreedBitmap(d, sb, row[s]);
    assert Put(t, inum, s, 0) == TableOf(st.d, sb, inum, st.v)[inum := row[s := 0]];
  }

  lemma FreedBitmap(d: Disk, sb: Superblock, b: nat)
    requires sb.Laid(d) && b < sb.size
    ensures sb.Laid(Freed(d, sb, b)) && Bitmap(Freed(d, sb, b), sb) == Bitmap(d, sb)[b := false]
    ensures BitmapOnly(d, Freed(d, sb, b), sb)
  {
    PutBitmap(d, sb, b, false);
  }

  /** Nothing left: the inode is empty, everybody else is as before, and exactly the blocks the
      inode held are free. */
  lemma Truncated(st: Start, sb: Superblock, inum: nat, d: Disk, row: seq<Word>, w: Dinode)
    requires Truncating(st, sb, inum, d, row) && |w.addrs| == NDIRECT + 1
    requires (forall s :: 0 <= s < SLOTS ==> row[s] == 0) && (forall s :: 0 <= s <= NDIRECT ==> w.addrs[s] == 0)
    ensures FsOk(d, sb, inum, w) && SameOthers(st.d, d, sb, inum)
    ensures forall b :: 0 < b < sb.size ==> (Used(d, sb, b) <==> Used(st.d, sb, b) && b !in st.row)
  {
    var t := TableOf(st.d, sb, inum, st.v);
    assert row == Zeros(SLOTS);
    forall k | 0 <= k < sb.ninodes && k != inum
      ensures SameInode(st.d, d, sb, inum, st.v, k)
    {
      TruncatedOther(st, sb, inum, d, k);
    }
    OthersOf(st.d, d, sb, inum, st.v);
    forall k | 0 <= k < sb.ninodes
      ensures Row(d, sb, inum, w, k) == t[inum := row][k]
    {
      if k == inum {
        assert Row(d, sb, inum, w, k) == Zeros(SLOTS);
      } else {
        SameRow(st.d, d, sb, inum, st.v, k);
        assert Row(d, sb, inum, w, k) == Row(d, sb, inum, st.v, k);
      }
    }
    assert TableOf(d, sb, inum, w) == t[inum := row];
    forall b | 0 < b < sb.size
      ensures Used(d, sb, b) <==> Used(st.d, sb, b) && b !in st.row
    {
      GaveUp(t, Bitmap(st.d, sb), t[inum := row], Bitmap(d, sb), sb.Meta(), inum, b);
      assert Bitmap(d, sb)[b] == Used(d, sb, b) && Bitmap(st.d, sb)[b] == Used(st.d, sb, b);
    }
  }

  lemma TruncatedOther(st: Start, sb: Superblock, inum: nat, d: Disk, k: nat)
    requires FsOk(st.d, sb, inum, st.v) && BitmapOnly(st.d, d, sb) && sb.Laid(d) && k < sb.ninodes
    ensures SameInode(st.d, d, sb, inum, st.v, k)
  {
    forall s | 0 <= s < SLOTS
      ensures var a := Row(st.d, sb, inum, st.v, k)[s]; 0 < a < |d| ==> d[a] == st.d[a]
    {
      RefFacts(st.d, sb, inum, st.v, k, s);
    }
  }
}
