/** mkfs/mkfs.c: the image the kernel starts from. While files are appended mkfs only counts
    `freeblock` up and writes the bitmap at the very end; `Finished` is the image it would leave
    if it stopped now, and that image satisfies the kernel's invariants at every point. */
module Mkfs {
  import opened Blocks
  import opened FsLayout
  import opened Ownership
  import opened FsState

  const FSSIZE := 2000
  const NINODES := 200
  const FSMAGIC := 0x10203040

  /** The geometry mkfs computes: 2 + 30 + 13 + 1 metadata blocks. */
  const IMAGE: Superblock := Superblock(FSSIZE, FSSIZE - 46, NINODES, 30, 2, 32, 45)

  /** A bitmap block whose first n bits are set. */
  function BitsBlock(n: nat): Block
    requires n <= BPB
  {
    if n == 0 then ZeroBlock else PutBit(BitsBlock(n - 1), n - 1, true)
  }

  lemma {:induction false} BitsBlockReads(n: nat, k: nat)
    requires n <= BPB && k < BPB
    ensures BlockBit(BitsBlock(n), k) <==> k < n
  {
    if n == 0 {
      ZeroBits(k % 8);
    } else {
      BitsBlockReads(n - 1, k);
      PutBitReads(BitsBlock(n - 1), n - 1, true, k);
    }
  }

  /** The image with the bitmap that `balloc(fb)` writes. */
  function Finished(d: Disk, fb: nat): (e: Disk)
    requires |d| == FSSIZE && fb <= FSSIZE
    ensures |e| == |d|
  {
    d[IMAGE.bmapstart := BitsBlock(fb)]
  }

  lemma ImageLaid(d: Disk)
    requires |d| == FSSIZE
    ensures IMAGE.Laid(d) && IMAGE.Meta() == 46
    ensures forall b :: 0 <= b < FSSIZE ==> IMAGE.BitmapBlock(b) == IMAGE.bmapstart
  {
  }

  lemma FinishedBits(d: Disk, fb: nat, b: nat)
    requires |d| == FSSIZE && fb <= FSSIZE && b < FSSIZE
    ensures IMAGE.Laid(Finished(d, fb)) && (Used(Finished(d, fb), IMAGE, b) <==> b < fb)
  {
    ImageLaid(d);
    BitsBlockReads(fb, b);
  }

  /** The blocks from fb on have never been written. */
  ghost predicate Untouched(d: Disk, fb: nat) {
    |d| == FSSIZE && IMAGE.Meta() <= fb <= FSSIZE && forall b :: fb <= b < FSSIZE ==> d[b] == ZeroBlock
  }

  /** Stopping now would leave a consistent image, with v as inode inum. */
  ghost predicate Good(d: Disk, fb: nat, inum: nat, v: Dinode) {
    Untouched(d, fb) && FsOk(Finished(d, fb), IMAGE, inum, v)
  }

  /** Counting freeblock up is what the kernel's balloc would do. */
  lemma NextBlock(d: Disk, fb: nat)
    requires Untouched(d, fb) && fb < FSSIZE
    ensures IMAGE.Laid(Finished(d, fb)) && !Used(Finished(d, fb), IMAGE, fb)
    ensures Finished(d, fb + 1) == Allocated(Finished(d, fb), IMAGE, fb) && Untouched(d, fb + 1)
  {
    ImageLaid(d);
    FinishedBits(d, fb, fb);
    hide PutBit, BlockBit;
    assert fb % BPB == fb;
    assert d[fb] == ZeroBlock;
  }

  /** Writing a data block or an inode block commutes with finishing. */
  lemma FinishedWrite(d: Disk, fb: nat, a: nat, x: Block)
    requires Untouched(d, fb) && a < FSSIZE && a != IMAGE.bmapstart && a < fb
    ensures Finished(d[a := x], fb) == Finished(d, fb)[a := x] && Untouched(d[a := x], fb)
  {
  }

  /** The block addresses of the file being written, as the finished image has them. */
  ghost function BuiltRow(d: Disk, fb: nat, inum: nat, v: Dinode): seq<Word>
    requires Good(d, fb, inum, v)
  {
    Row(Finished(d, fb), IMAGE, inum, v, inum)
  }

  /** Referenced blocks have been counted. */
  lemma BuiltRef(d: Disk, fb: nat, inum: nat, v: Dinode, s: nat)
    requires Good(d, fb, inum, v) && s < SLOTS && BuiltRow(d, fb, inum, v)[s] != 0
    ensures IMAGE.Meta() <= BuiltRow(d, fb, inum, v)[s] < fb
  {
    hide Used, Owned;
    var a := BuiltRow(d, fb, inum, v)[s];
    RefFacts(Finished(d, fb), IMAGE, inum, v, inum, s);
    FinishedBits(d, fb, a);
  }

  /** `indirect[j] = freeblock++` and its wsect are the kernel's way of entering a block. */
  lemma FinishedEntry(d: Disk, fb: nat, ind: nat, j: nat)
    requires Untouched(d, fb) && fb < FSSIZE && IMAGE.Meta() <= ind < fb && j < NINDIRECT
    ensures IMAGE.Laid(Finished(d, fb))
    ensures Finished(d[ind := PutWord(d[ind], j, fb)], fb + 1) == Entered(Finished(d, fb), IMAGE, ind, j, fb)
    ensures Untouched(d[ind := PutWord(d[ind], j, fb)], fb + 1)
  {
    hide PutWord, Used;
    NextBlock(d, fb);
    FinishedWrite(d, fb + 1, ind, PutWord(d[ind], j, fb));
  }

  /** The bytes a file's blocks have past its size are zero. */
  ghost predicate ZeroTail(e: Disk, row: seq<Word>, size: nat)
    requires |row| == SLOTS
  {
    forall o :: size <= o < MAXFILE * BSIZE ==> FileByte(e, row, o) == 0
  }

  /** No block has been given to the file past its size. */
  ghost predicate NoExtra(row: seq<Word>, size: nat) {
    && |row| == SLOTS && (size <= NDIRECT * BSIZE ==> row[NDIRECT] == 0)
    && (forall bn :: 0 <= bn < MAXFILE && bn * BSIZE >= size ==> row[SlotOf(bn)] == 0)
  }

  lemma NoExtraMore(e: Disk, row: seq<Word>, f: Disk, row': seq<Word>, size: nat, m: nat)
    requires NoExtra(row, size) && size < MAXFILE * BSIZE && m > 0 && Kept(e, row, f, row', SlotOf(size / BSIZE))
    requires size / BSIZE < NDIRECT ==> row'[NDIRECT] == row[NDIRECT]
    ensures NoExtra(row', size + m)
  {
    hide SlotOf;
    forall bn | 0 <= bn < MAXFILE && bn * BSIZE >= size + m
      ensures row'[SlotOf(bn)] == 0
    {
      SlotInjective(bn, size / BSIZE);
    }
  }

  // ----- how many blocks a file takes

  /** The data blocks of a file of the given size, and its indirect block if it has one. */
  function Need(size: nat): nat {
    var n := (size + BSIZE - 1) / BSIZE;
    n + if n > NDIRECT then 1 else 0
  }

  /** What the next byte of a file of the given size takes. */
  function Cost(size: nat): nat {
    (if size % BSIZE == 0 then 1 else 0) + (if size == NDIRECT * BSIZE then 1 else 0)
  }

  lemma NeedStep(size: nat, m: nat)
    requires m > 0 && size % BSIZE + m <= BSIZE
    ensures Need(size + m) == Need(size) + Cost(size)
  {
    assert (size + m + BSIZE - 1) / BSIZE == size / BSIZE + 1;
    assert (size + BSIZE - 1) / BSIZE == size / BSIZE + if size % BSIZE == 0 then 0 else 1;
  }

  lemma NeedMonotone(a: nat, b: nat)
    requires a <= b
    ensures Need(a) <= Need(b)
  {
    assert (a + BSIZE - 1) / BSIZE <= (b + BSIZE - 1) / BSIZE;
  }

  lemma NeedNothing()
    ensures Need(0) == 0 && Need(16) == 1 && Need(32) == 1
  {
  }

  /** The blocks in use once the given files are in place. */
  function Total(files: seq<Input>): nat {
    46 + Need(16 * (|files| + 2)) + FilesNeed(files)
  }

  function FilesNeed(files: seq<Input>): nat {
    if files == [] then 0 else FilesNeed(files[..|files| - 1]) + Need(|files[|files| - 1].bytes|)
  }

  /** mkfs can make the image: no file is too large for its inode, and all fit together. */
  ghost predicate Fits(files: seq<Input>) {
    (forall i :: 0 <= i < |files| ==> |files[i].bytes| <= MAXFILE * BSIZE) && Total(files) <= FSSIZE
  }

  /** Fewer files fit too. */
  lemma {:induction false} FitsPrefix(files: seq<Input>, i: nat)
    requires i <= |files| && Fits(files)
    ensures Fits(files[..i])
  {
    if i < |files| {
      var n := |files|;
      NeedMonotone(16 * (n + 1), 16 * (n + 2));
      assert forall k :: 0 <= k < n - 1 ==> files[..n - 1][k] == files[k];
      FitsPrefix(files[..n - 1], i);
      assert files[..n - 1][..i] == files[..i];
    } else {
      assert files[..i] == files;
    }
  }

  /** The slots of a file without holes and without spare blocks. */
  lemma SlotsUsed(e: Disk, inum: nat, v: Dinode, row: seq<Word>, size: nat)
    requires IMAGE.Laid(e) && inum < NINODES && |v.addrs| == NDIRECT + 1 && row == Row(e, IMAGE, inum, v, inum)
    requires HoleFree(row, size) && NoExtra(row, size) && size < MAXFILE * BSIZE
    ensures row[SlotOf(size / BSIZE)] == 0 <==> size % BSIZE == 0
    ensures row[NDIRECT] == 0 <==> size <= NDIRECT * BSIZE
  {
    if size % BSIZE != 0 {
      assert size / BSIZE * BSIZE < size;
    }
    if size > NDIRECT * BSIZE {
      assert row[SlotOf(NDIRECT)] != 0;
    }
  }

  /** The blocks iappend has to allocate for file block fbn. */
  function Missing(row: seq<Word>, fbn: nat): nat
    requires |row| == SLOTS && fbn < MAXFILE
  {
    (if row[SlotOf(fbn)] == 0 then 1 else 0) + (if fbn >= NDIRECT && row[NDIRECT] == 0 then 1 else 0)
  }

  lemma OnlySlot(e: Disk, row: seq<Word>, f: Disk, row': seq<Word>, s: nat)
    requires Kept(e, row, f, row', s)
    ensures |row| == |row'| == SLOTS && forall u :: 0 <= u < SLOTS && u != s && u != NDIRECT ==> row'[u] == row[u]
  {
  }

  /** The root is a directory, any other inode in use a plain file, and each has one link. */
  predicate Kind(v: Dinode, k: nat) {
    v.typ == (if k == 1 then T_DIR else T_FILE) && v.major == 0 && v.minor == 0 && v.nlink == 1
  }

  /** Inode k of image e is a file with contents c, without holes. */
  ghost predicate Holds(e: Disk, k: nat, c: seq<Byte>) {
    && |e| == FSSIZE && IMAGE.Laid(e) && k < NINODES && FsOk(e, IMAGE, k, DiskInode(e, IMAGE, k))
    && DiskInode(e, IMAGE, k).size == |c| <= MAXFILE * BSIZE && Kind(DiskInode(e, IMAGE, k), k)
    && Content(e, DiskInode(e, IMAGE, k)) == c
    && HoleFree(DiskRow(e, k), |c|) && NoExtra(DiskRow(e, k), |c|) && ZeroTail(e, DiskRow(e, k), |c|)
  }

  ghost function DiskRow(e: Disk, k: nat): (row: seq<Word>)
    requires IMAGE.Laid(e) && k < NINODES
    ensures |row| == SLOTS
  {
    Row(e, IMAGE, k, DiskInode(e, IMAGE, k), k)
  }

  /** Work on one file leaves the others what they were. */
  lemma OthersHold(e: Disk, f: Disk, inum: nat, k: nat, c: seq<Byte>)
    requires Holds(e, k, c) && SameOthers(e, f, IMAGE, inum) && k != inum && inum < NINODES && |f| == FSSIZE
    requires FsOk(f, IMAGE, inum, DiskInode(f, IMAGE, inum))
    ensures Holds(f, k, c)
  {
    hide Owned, Used;
    OthersContent(e, f, IMAGE, inum, k);
    var v := DiskInode(e, IMAGE, k);
    assert SameInode(e, f, IMAGE, k, v, k);
    SameRow(e, f, IMAGE, k, v, k);
    Refocus(f, IMAGE, inum, k);
    forall o | |c| <= o < MAXFILE * BSIZE
      ensures FileByte(f, DiskRow(f, k), o) == 0
    {
      assert FileByte(e, DiskRow(e, k), o) == 0;
    }
  }

  /** The super block is in place, and the log is empty. */
  ghost predicate Headed(d: Disk) {
    |d| == FSSIZE && d[1] == SuperImage() && d[IMAGE.logstart] == ZeroBlock
  }

  lemma UpdatedHead(d: Disk, v: Dinode)
    requires Headed(d) && IMAGE.Laid(d) && |v.addrs| == NDIRECT + 1
    ensures Headed(Updated(d, IMAGE, 1, v))
  {
    hide PutInode;
  }

  class Builder {
    var d: Disk
    var freeblock: nat
    var freeinode: nat

    /** The part iappend has twice: `if(addrs[s] == 0) addrs[s] = freeblock++`. A false result
        is the rsect of a block past the end of the image, at which mkfs dies. */
    method AddrAt(inum: nat, v: Dinode, s: nat) returns (ok: bool, w: Dinode)
      requires Good(d, freeblock, inum, v) && s <= NDIRECT
      modifies this`freeblock
      ensures |v.addrs| == NDIRECT + 1 && (ok <==> v.addrs[s] != 0 || old(freeblock) < FSSIZE)
      ensures freeblock == old(freeblock) + if ok && v.addrs[s] == 0 then 1 else 0
      ensures ok ==> Good(d, freeblock, inum, w) && w == v.(addrs := w.addrs) && w.addrs[s] != 0
      ensures ok ==> w.addrs == v.addrs[s := w.addrs[s]]
      ensures ok ==> SameOthers(Finished(d, old(freeblock)), Finished(d, freeblock), IMAGE, inum)
      ensures ok ==> Kept(Finished(d, old(freeblock)), old(BuiltRow(d, freeblock, inum, v)), Finished(d, freeblock),
                          BuiltRow(d, freeblock, inum, w), s)
    {
      hide Owned, Used, Finished, Kept, SameOthers, FsOk, Row;
      GoodAddrs(inum, v);
      if v.addrs[s] != 0 {
        Unchanged(Finished(d, freeblock), IMAGE, inum, v, s);
        return true, v;
      }
      if freeblock >= FSSIZE {
        return false, v;
      }
      NextBlock(d, freeblock);
      FillSlot(Finished(d, freeblock), IMAGE, inum, v, freeblock, s);
      w := v.(addrs := v.addrs[s := freeblock]);
      freeblock := freeblock + 1;
      ok := true;
    }

    /** The first slots of the row are the addresses in the inode; an entry needs an indirect block. */
    lemma GoodRow(inum: nat, v: Dinode)
      requires Good(d, freeblock, inum, v)
      ensures |v.addrs| == NDIRECT + 1 && freeblock <= FSSIZE
      ensures forall s :: 0 <= s <= NDIRECT ==> BuiltRow(d, freeblock, inum, v)[s] == v.addrs[s]
      ensures v.addrs[NDIRECT] == 0 ==> forall s :: NDIRECT < s < SLOTS ==> BuiltRow(d, freeblock, inum, v)[s] == 0
    {
    }

    lemma GoodAddrs(inum: nat, v: Dinode)
      requires Good(d, freeblock, inum, v)
      ensures |v.addrs| == NDIRECT + 1 && inum < NINODES && IMAGE.Laid(Finished(d, freeblock)) && |d| == FSSIZE
    {
    }

    /** The entry of the indirect block, counted up and written if it is empty. */
    method EntryAt(inum: nat, v: Dinode, j: nat) returns (ok: bool, x: Word)
      requires Good(d, freeblock, inum, v) && j < NINDIRECT && |v.addrs| == NDIRECT + 1 && v.addrs[NDIRECT] != 0
      modifies this`d, this`freeblock
      ensures ok <==> old(BuiltRow(d, freeblock, inum, v))[NDIRECT + 1 + j] != 0 || old(freeblock) < FSSIZE
      ensures ok ==>
              freeblock == old(freeblock) + if old(BuiltRow(d, freeblock, inum, v))[NDIRECT + 1 + j] == 0 then 1 else 0
      ensures ok ==> Good(d, freeblock, inum, v) && x == BuiltRow(d, freeblock, inum, v)[NDIRECT + 1 + j] != 0
      ensures ok ==> SameOthers(old(Finished(d, freeblock)), Finished(d, freeblock), IMAGE, inum)
      ensures ok ==> Kept(old(Finished(d, freeblock)), old(BuiltRow(d, freeblock, inum, v)), Finished(d, freeblock),
                          BuiltRow(d, freeblock, inum, v), NDIRECT + 1 + j)
      ensures Headed(old(d)) ==> Headed(d)
    {
      hide Owned, Used, Finished, Kept, SameOthers, FsOk, PutWord, WordAt, Row;
      GoodAddrs(inum, v);
      EntryWord(inum, v, j);
      var ind := v.addrs[NDIRECT];
      x := WordAt(d[ind], j);
      if x != 0 {
        Unchanged(Finished(d, freeblock), IMAGE, inum, v, NDIRECT + 1 + j);
        return true, x;
      }
      if freeblock >= FSSIZE {
        return false, 0;
      }
      NextBlock(d, freeblock);
      FinishedEntry(d, freeblock, ind, j);
      FillEntry(Finished(d, freeblock), IMAGE, inum, v, freeblock, j);
      x := freeblock;
      d := d[ind := PutWord(d[ind], j, freeblock)];
      freeblock := freeblock + 1;
      ok := true;
    }

    lemma EntryWord(inum: nat, v: Dinode, j: nat)
      requires Good(d, freeblock, inum, v) && j < NINDIRECT && v.addrs[NDIRECT] != 0
      ensures IMAGE.Meta() <= v.addrs[NDIRECT] < freeblock
      ensures WordAt(d[v.addrs[NDIRECT]], j) == BuiltRow(d, freeblock, inum, v)[NDIRECT + 1 + j]
    {
      RowAddr(Finished(d, freeblock), IMAGE, inum, v, NDIRECT);
      BuiltRef(d, freeblock, inum, v, NDIRECT);
    }

    /** The block of file block fbn, for `iappend`. */
    method MapBlock(inum: nat, v: Dinode, fbn: nat) returns (ok: bool, w: Dinode, x: Word)
      requires Good(d, freeblock, inum, v) && fbn < MAXFILE
      modifies this`d, this`freeblock
      ensures ok <==> old(freeblock) + Missing(old(BuiltRow(d, freeblock, inum, v)), fbn) <= FSSIZE
      ensures ok ==> freeblock == old(freeblock) + Missing(old(BuiltRow(d, freeblock, inum, v)), fbn)
      ensures ok ==> Good(d, freeblock, inum, w) && w == v.(addrs := w.addrs)
      ensures ok ==> x == BuiltRow(d, freeblock, inum, w)[SlotOf(fbn)] != 0
      ensures ok && fbn < NDIRECT ==>
              BuiltRow(d, freeblock, inum, w)[NDIRECT] == old(BuiltRow(d, freeblock, inum, v))[NDIRECT]
      ensures ok ==> SameOthers(old(Finished(d, freeblock)), Finished(d, freeblock), IMAGE, inum)
      ensures ok ==> Kept(old(Finished(d, freeblock)), old(BuiltRow(d, freeblock, inum, v)), Finished(d, freeblock),
                          BuiltRow(d, freeblock, inum, w), SlotOf(fbn))
      ensures Headed(old(d)) ==> Headed(d)
    {
      hide Owned, Used, Finished, Kept, SameOthers, FsOk, Row;
      ghost var e0, row0 := Finished(d, freeblock), BuiltRow(d, freeblock, inum, v);
      GoodRow(inum, v);
      if fbn < NDIRECT {
        ok, w := AddrAt(inum, v, fbn);
        x := 0;
        if ok {
          GoodRow(inum, w);
          GoodAddrs(inum, w);
          RowAddr(Finished(d, freeblock), IMAGE, inum, w, fbn);
          x := w.addrs[fbn];
        }
      } else {
        ok, w := AddrAt(inum, v, NDIRECT);
        if !ok {
          return false, w, 0;
        }
        ghost var e1, row1 := Finished(d, freeblock), BuiltRow(d, freeblock, inum, w);
        OnlySlot(e0, row0, e1, row1, NDIRECT);
        GoodAddrs(inum, w);
        ok, x := EntryAt(inum, w, fbn - NDIRECT);
        if ok {
          KeptThenKept(e0, row0, e1, row1, Finished(d, freeblock), BuiltRow(d, freeblock, inum, w), SlotOf(fbn));
          OthersTransitive(e0, e1, Finished(d, freeblock), IMAGE, inum);
        }
      }
    }

    /** iappend has appended the first tot of the given bytes. */
    ghost predicate Appending(inum: nat, v: Dinode, st: Start, off: nat, bytes: seq<Byte>, tot: nat)
      reads this
    {
      && Good(d, freeblock, inum, v) && |st.row| == SLOTS && v == st.v.(addrs := v.addrs)
      && tot <= |bytes| && off + tot <= MAXFILE * BSIZE && (tot == 0 || tot == |bytes| || (off + tot) % BSIZE == 0)
      && SameOthers(st.d, Finished(d, freeblock), IMAGE, inum)
      && Wrote(st.d, st.row, Finished(d, freeblock), BuiltRow(d, freeblock, inum, v), off, bytes, tot)
      && Filled(st.row, BuiltRow(d, freeblock, inum, v)) && Present(BuiltRow(d, freeblock, inum, v), off, tot)
      && NoExtra(BuiltRow(d, freeblock, inum, v), off + tot) && HoleFree(st.row, off)
    }

    /** One round of the loop of `iappend`. */
    method AppendNext(inum: nat, v: Dinode, off: nat, bytes: seq<Byte>, tot: nat, ghost st: Start) returns (ok: bool,
        w: Dinode, m: nat)
      requires Appending(inum, v, st, off, bytes, tot) && tot < |bytes|
      modifies this`d, this`freeblock
      ensures ok <==> off + tot < MAXFILE * BSIZE && old(freeblock) + Cost(off + tot) <= FSSIZE
      ensures ok ==> 0 < m && tot + m <= |bytes| && Appending(inum, w, st, off, bytes, tot + m)
      ensures ok ==> freeblock + Need(off + tot) == old(freeblock) + Need(off + tot + m)
      ensures Headed(old(d)) ==> Headed(d)
    {
      hide Owned, Used, Finished, Kept, SameOthers, FsOk, Row, Wrote, Filled, Present, NoExtra, SameBytes;
      hide SlotOf, PutBytes, Missing, Cost, Need, HoleFree;
      var fbn := (off + tot) / BSIZE;
      if fbn >= MAXFILE {
        return false, v, 0;
      }
      ghost var e0, row0 := Finished(d, freeblock), BuiltRow(d, freeblock, inum, v);
      MissingIs(inum, v, st, off, bytes, tot);
      var x;
      ok, w, x := MapBlock(inum, v, fbn);
      if !ok {
        return false, w, 0;
      }
      ghost var e1, row1 := Finished(d, freeblock), BuiltRow(d, freeblock, inum, w);
      OthersTransitive(st.d, e0, e1, IMAGE, inum);
      KeptBytes(e0, row0, e1, row1, SlotOf(fbn));
      KeptFilled(st.row, e0, row0, e1, row1, SlotOf(fbn));
      m := if |bytes| - tot < (fbn + 1) * BSIZE - (off + tot) then |bytes| - tot else (fbn + 1) * BSIZE - (off + tot);
      NeedStep(off + tot, m);
      BuiltRef(d, freeblock, inum, w, SlotOf(fbn));
      GoodAddrs(inum, w);
      var data := PutBytes(d[x], (off + tot) % BSIZE, bytes[tot..tot + m]);
      SameData(d, freeblock, x);
      BuiltDistinct(inum, w, SlotOf(fbn));
      WroteMore(st.d, st.row, e0, row0, e1, row1, off, bytes, tot, m);
      PresentMore(row0, row1, off, tot, m);
      NoExtraMore(e0, row0, e1, row1, off + tot, m);
      DataStep(inum, w, SlotOf(fbn), data, st.d);
      d := d[x := data];
    }

    lemma MissingIs(inum: nat, v: Dinode, st: Start, off: nat, bytes: seq<Byte>, tot: nat)
      requires Appending(inum, v, st, off, bytes, tot) && off + tot < MAXFILE * BSIZE
      ensures Missing(BuiltRow(d, freeblock, inum, v), (off + tot) / BSIZE) == Cost(off + tot)
    {
      hide Owned, Used, FsOk, SameOthers, Wrote, SlotOf, Refs, InodeAt;
      var row := BuiltRow(d, freeblock, inum, v);
      GoodAddrs(inum, v);
      StillHoleFree(st.row, off, row, off, tot);
      SlotsUsed(Finished(d, freeblock), inum, v, row, off + tot);
    }

    lemma BuiltDistinct(inum: nat, v: Dinode, s: nat)
      requires Good(d, freeblock, inum, v) && s < SLOTS && BuiltRow(d, freeblock, inum, v)[s] != 0
      ensures forall u :: 0 <= u < SLOTS && BuiltRow(d, freeblock, inum, v)[u] == BuiltRow(d, freeblock, inum, v)[s] ==>
              u == s
    {
      forall u | 0 <= u < SLOTS && BuiltRow(d, freeblock, inum, v)[u] == BuiltRow(d, freeblock, inum, v)[s]
        ensures u == s
      {
        RefDistinct(Finished(d, freeblock), IMAGE, inum, v, inum, u, inum, s);
      }
    }

    /** The wsect of one's own data block. */
    lemma DataStep(inum: nat, v: Dinode, s: nat, data: Block, start: Disk)
      requires Good(d, freeblock, inum, v) && s < SLOTS && s != NDIRECT && BuiltRow(d, freeblock, inum, v)[s] != 0
      requires SameOthers(start, Finished(d, freeblock), IMAGE, inum)
      ensures var x := BuiltRow(d, freeblock, inum, v)[s];
              && x < FSSIZE && Good(d[x := data], freeblock, inum, v)
              && Finished(d[x := data], freeblock) == Finished(d, freeblock)[x := data]
              && BuiltRow(d[x := data], freeblock, inum, v) == BuiltRow(d, freeblock, inum, v)
              && SameOthers(start, Finished(d[x := data], freeblock), IMAGE, inum)
    {
      hide Owned, Used, Row, Finished;
      var e, x := Finished(d, freeblock), BuiltRow(d, freeblock, inum, v)[s];
      BuiltRef(d, freeblock, inum, v, s);
      FinishedWrite(d, freeblock, x, data);
      WriteSlot(e, IMAGE, inum, v, s, data);
      OthersTransitive(start, e, e[x := data], IMAGE, inum);
      assert TableOf(e[x := data], IMAGE, inum, v)[inum] == Row(e[x := data], IMAGE, inum, v, inum);
      assert TableOf(e, IMAGE, inum, v)[inum] == BuiltRow(d, freeblock, inum, v);
    }

    /** `iappend`. A false result is one of mkfs's exits: the file is too large, or the image is
        full. */
    method Iappend(inum: nat, bytes: seq<Byte>, ghost c: seq<Byte>) returns (ok: bool)
      requires Untouched(d, freeblock) && Holds(Finished(d, freeblock), inum, c)
      modifies this`d, this`freeblock
      ensures ok <==> |c| + |bytes| <= MAXFILE * BSIZE && old(freeblock) + Need(|c| + |bytes|) <= FSSIZE + Need(|c|)
      ensures ok ==> freeblock + Need(|c|) == old(freeblock) + Need(|c| + |bytes|)
      ensures ok ==> Untouched(d, freeblock) && Holds(Finished(d, freeblock), inum, c + bytes)
      ensures ok ==> SameOthers(old(Finished(d, freeblock)), Finished(d, freeblock), IMAGE, inum)
      ensures Headed(old(d)) ==> Headed(d)
    {
      hide Appending, Finished, SameOthers, FsOk, Holds, Need, Cost;
      HoldsLaid(d, freeblock, inum, c);
      var v := DiskInode(d, IMAGE, inum);
      var off: nat := v.size;
      ghost var st := Start(Finished(d, freeblock), DiskRow(Finished(d, freeblock), inum), v, {});
      StartAppending(inum, bytes, c);
      var tot, m := 0, 0;
      while tot < |bytes|
        invariant 0 <= tot <= |bytes| && Appending(inum, v, st, off, bytes, tot)
        invariant freeblock + Need(off) == old(freeblock) + Need(off + tot)
        invariant Headed(old(d)) ==> Headed(d)
      {
        NeedStep(off + tot, 1);
        NeedMonotone(off + tot + 1, off + |bytes|);
        ok, v, m := AppendNext(inum, v, off, bytes, tot, st);
        if !ok {
          return false;
        }
        tot := tot + m;
      }
      EndAppending(inum, v, st, off, bytes, c);
      v := v.(size := off + |bytes|);
      d := Updated(d, IMAGE, inum, v);
      ok := true;
    }

    lemma HoldsLaid(d: Disk, fb: nat, inum: nat, c: seq<Byte>)
      requires Untouched(d, fb) && Holds(Finished(d, fb), inum, c)
      ensures inum < NINODES && |d| == FSSIZE && IMAGE.Laid(d) && IMAGE.Laid(Finished(d, fb))
      ensures DiskInode(Finished(d, fb), IMAGE, inum) == DiskInode(d, IMAGE, inum)
      ensures |c| == DiskInode(d, IMAGE, inum).size <= MAXFILE * BSIZE
    {
      ImageLaid(d);
      hide InodeAt, BitsBlock;
    }

    lemma StartAppending(inum: nat, bytes: seq<Byte>, c: seq<Byte>)
      requires Untouched(d, freeblock) && Holds(Finished(d, freeblock), inum, c)
      ensures var e := Finished(d, freeblock);
              var v := DiskInode(e, IMAGE, inum);
              Appending(inum, v, Start(e, DiskRow(e, inum), v, {}), v.size, bytes, 0)
    {
      hide InodeAt, BitsBlock, Owned;
      var e := Finished(d, freeblock);
      Unchanged(e, IMAGE, inum, DiskInode(e, IMAGE, inum), 0);
    }

    /** The winode at the end of `iappend`. */
    lemma EndAppending(inum: nat, v: Dinode, st: Start, off: nat, bytes: seq<Byte>, c: seq<Byte>)
      requires Appending(inum, v, st, off, bytes, |bytes|) && Holds(st.d, inum, c)
      requires st.v == DiskInode(st.d, IMAGE, inum) && st.row == DiskRow(st.d, inum) && off == |c|
      ensures |v.addrs| == NDIRECT + 1 && off + |bytes| <= MAXFILE * BSIZE && IMAGE.Laid(d)
      ensures var f := Updated(d, IMAGE, inum, v.(size := off + |bytes|));
              && Untouched(f, freeblock) && Holds(Finished(f, freeblock), inum, c + bytes)
              && SameOthers(st.d, Finished(f, freeblock), IMAGE, inum)
    {
      hide Owned, Used, FileByte, PutInode, BitsBlock, Refs, InodeAt;
      var w := v.(size := off + |bytes|);
      var e := Finished(d, freeblock);
      ImageLaid(d);
      RowRefs(st.d, inum, st.v);
      Concluded(e, IMAGE, inum, v, w, st, off, bytes, |bytes|);
      FinishedUpdate(d, freeblock, inum, w);
      var f := Updated(e, IMAGE, inum, w);
      StillHoleFree(st.row, |c|, BuiltRow(d, freeblock, inum, v), off, |bytes|);
      SizeDoesNotMatter(e, IMAGE, inum, v, w);
      UpdatedBytes(e, IMAGE, inum, w);
      assert bytes[..|bytes|] == bytes && Splice(c, off, bytes) == c + bytes;
      forall o | off + |bytes| <= o < MAXFILE * BSIZE
        ensures FileByte(f, DiskRow(f, inum), o) == 0
      {
        assert FileByte(f, DiskRow(f, inum), o) == FileByte(e, BuiltRow(d, freeblock, inum, v), o);
        assert FileByte(e, BuiltRow(d, freeblock, inum, v), o) == FileByte(st.d, st.row, o);
      }
    }

    /** `ialloc`. */
    method Ialloc(typ: Half, ghost contents: seq<seq<Byte>>) returns (inum: nat)
      requires Untouched(d, freeblock) && FilesIn(Finished(d, freeblock), contents) && freeinode == |contents| < NINODES
      modifies this`d, this`freeinode
      ensures Untouched(d, freeblock) && inum == old(freeinode) && freeinode == inum + 1
      ensures typ == (if inum == 1 then T_DIR else T_FILE) ==> FilesIn(Finished(d, freeblock), contents + [[]])
      ensures Headed(old(d)) ==> Headed(d)
    {
      inum := freeinode;
      freeinode := freeinode + 1;
      var v := Dinode(typ, 0, 0, 1, 0, seq(NDIRECT + 1, _ => 0));
      FinishedUpdate(d, freeblock, inum, v);
      if Kind(v, inum) {
        NewFile(Finished(d, freeblock), contents, v);
      }
      d := Updated(d, IMAGE, inum, v);
    }

    /** iappend to file inum of those built so far. */
    method AppendTo(inum: nat, bytes: seq<Byte>, ghost contents: seq<seq<Byte>>) returns (ok: bool)
      requires Untouched(d, freeblock) && FilesIn(Finished(d, freeblock), contents) && 0 < inum < |contents|
      modifies this`d, this`freeblock
      ensures ok <==> var c := |contents[inum]|;
                      c + |bytes| <= MAXFILE * BSIZE && old(freeblock) + Need(c + |bytes|) <= FSSIZE + Need(c)
      ensures ok ==> freeblock + Need(|contents[inum]|) == old(freeblock) + Need(|contents[inum]| + |bytes|)
      ensures ok ==> Untouched(d, freeblock)
      ensures ok ==> FilesIn(Finished(d, freeblock), contents[inum := contents[inum] + bytes])
      ensures Headed(old(d)) ==> Headed(d)
    {
      hide Holds, Blank, SameOthers, FsOk, BitsBlock, Need;
      ok := Iappend(inum, bytes, contents[inum]);
      if ok {
        FilesStep(old(Finished(d, freeblock)), Finished(d, freeblock), contents, inum, contents[inum] + bytes);
      }
    }

    /** The image before any file: zeros, and the super block. */
    constructor ()
      ensures Untouched(d, freeblock) && FilesIn(Finished(d, freeblock), [[]]) && freeinode == 1
      ensures Headed(d) && freeblock == 46 && forall b :: 0 <= b < FSSIZE && b != 1 ==> d[b] == ZeroBlock
    {
      d := seq(FSSIZE, _ => ZeroBlock)[1 := SuperImage()];
      freeblock := IMAGE.Meta();
      freeinode := 1;
      new;
      EmptyImage(d);
    }

    /** The bitmap: `balloc`. */
    method Balloc()
      requires |d| == FSSIZE && freeblock <= FSSIZE
      modifies this`d
      ensures d == Finished(old(d), freeblock)
      ensures Headed(old(d)) ==> Headed(d)
    {
      var buf := ZeroBlock;
      for i := 0 to freeblock
        invariant buf == BitsBlock(i)
      {
        buf := PutBit(buf, i, true);
      }
      d := d[IMAGE.bmapstart := buf];
    }

    /** The root directory grows to the next block boundary, by one whole block if its
        size is on a boundary already. */
    method FixRoot(ghost contents: seq<seq<Byte>>)
      requires Untouched(d, freeblock) && FilesIn(Finished(d, freeblock), contents) && |contents| > 1
      requires |contents[1]| < MAXFILE * BSIZE
      modifies this`d
      ensures Untouched(d, freeblock) && Rooted(Finished(d, freeblock), contents)
      ensures Headed(old(d)) ==> Headed(d)
    {
      hide Holds, Blank, FsOk, BitsBlock, NoExtra, Rooted, Updated;
      HoldsLaid(d, freeblock, 1, contents[1]);
      var v := DiskInode(d, IMAGE, 1);
      v := v.(size := (v.size / BSIZE + 1) * BSIZE);
      FinishedUpdate(d, freeblock, 1, v);
      RoundUp(Finished(d, freeblock), contents);
      if Headed(d) {
        UpdatedHead(d, v);
      }
      d := Updated(d, IMAGE, 1, v);
    }

    /** A file's contents, in pieces of at most one block as they are read. */
    method AppendAll(inum: nat, bytes: seq<Byte>, ghost contents: seq<seq<Byte>>) returns (ok: bool)
      requires Untouched(d, freeblock) && FilesIn(Finished(d, freeblock), contents) && 0 < inum < |contents|
      requires contents[inum] == []
      modifies this`d, this`freeblock
      ensures ok <==> |bytes| <= MAXFILE * BSIZE && old(freeblock) + Need(|bytes|) <= FSSIZE
      ensures ok ==> freeblock == old(freeblock) + Need(|bytes|)
      ensures ok ==> Untouched(d, freeblock) && FilesIn(Finished(d, freeblock), contents[inum := bytes])
      ensures Headed(old(d)) ==> Headed(d)
    {
      hide FilesIn, BitsBlock, Need;
      NeedNothing();
      var i := 0;
      assert contents[inum := bytes[..0]] == contents;
      while i < |bytes|
        invariant 0 <= i <= |bytes| && Untouched(d, freeblock) && (Headed(old(d)) ==> Headed(d))
        invariant FilesIn(Finished(d, freeblock), contents[inum := bytes[..i]])
        invariant i <= MAXFILE * BSIZE && freeblock == old(freeblock) + Need(i)
      {
        var cc := if |bytes| - i < BSIZE then |bytes| - i else BSIZE;
        NeedMonotone(i + cc, |bytes|);
        ok := AppendTo(inum, bytes[i..i + cc], contents[inum := bytes[..i]]);
        if !ok {
          return false;
        }
        assert bytes[..i] + bytes[i..i + cc] == bytes[..i + cc];
        assert contents[inum := bytes[..i]][inum := bytes[..i + cc]] == contents[inum := bytes[..i + cc]];
        i := i + cc;
      }
      assert bytes[..i] == bytes;
      ok := true;
    }

    /** The files so far are in place, and the image could be finished. */
    ghost predicate Built(files: seq<Input>)
      reads this
    {
      && |files| + 2 <= NINODES && freeinode == |files| + 2 && Headed(d) && freeblock == Total(files)
      && Untouched(d, freeblock) && FilesIn(Finished(d, freeblock), Contents(files))
    }

    method MakeRoot() returns (ok: bool)
      requires Untouched(d, freeblock) && FilesIn(Finished(d, freeblock), [[]]) && freeinode == 1 && Headed(d)
      requires freeblock == 46
      modifies this
      ensures ok && Built([])
    {
      hide FilesIn, BitsBlock, Need;
      NeedNothing();
      ghost var none: seq<Byte> := [];
      var root := Ialloc(T_DIR, [none]);
      ok := AppendTo(root, Dirent(root, [46]), [none] + [none]);
      if ok {
        ghost var c := [none, Dirent(root, [46])];
        assert none + Dirent(root, [46]) == Dirent(root, [46]);
        assert ([none] + [none])[1 := Dirent(root, [46])] == c;
        ok := AppendTo(root, Dirent(root, [46, 46]), c);
        assert c[1 := c[1] + Dirent(root, [46, 46])] == Contents([]);
      }
    }

    /** One round of main's loop, for the last of the given files. */
    method AddFile(files: seq<Input>) returns (ok: bool)
      requires 0 < |files| && |files| + 2 <= NINODES && Built(files[..|files| - 1])
      modifies this
      ensures ok <==> |files[|files| - 1].bytes| <= MAXFILE * BSIZE && Total(files) <= FSSIZE
      ensures ok ==> Built(files)
    {
      hide FilesIn, BitsBlock, Dirent, Need;
      var n := |files|;
      ghost var c := Contents(files[..n - 1]);
      var inum := Ialloc(T_FILE, c);
      ok := AppendTo(1, Dirent(inum, files[n - 1].name), c + [[]]);
      if ok {
        ghost var e := (c + [[]])[1 := Entries(files)];
        ok := AppendAll(inum, files[n - 1].bytes, e);
        assert e[inum := files[n - 1].bytes] == Contents(files);
      }
    }

    method FinishImage(files: seq<Input>)
      requires Built(files)
      modifies this
      ensures Rooted(d, Contents(files)) && Headed(d) && freeblock == Total(files)
      ensures IMAGE.Laid(d) && forall b :: 0 <= b < FSSIZE ==> (Used(d, IMAGE, b) <==> b < freeblock)
    {
      hide FilesIn, BitsBlock, Rooted, Entries, Total, Used;
      FixRoot(Contents(files));
      ghost var d1 := d;
      Balloc();
      ImageLaid(d);
      forall b | 0 <= b < FSSIZE
        ensures Used(d, IMAGE, b) <==> b < freeblock
      {
        FinishedBits(d1, freeblock, b);
      }
    }
  }

  /** A file named on the command line: its short name and what is read from it. */
  datatype Input = Input(name: seq<Byte>, bytes: seq<Byte>)

  /** A directory entry: two bytes of inode number and fourteen of name, cut off or zero filled. */
  function Dirent(inum: nat, name: seq<Byte>): (de: seq<Byte>)
    requires inum < NINODES
    ensures |de| == DIRENT
  {
    [inum, 0] + (if |name| < DIRSIZ then name + ZeroBytes(DIRSIZ - |name|) else name[..DIRSIZ])
  }

  const DIRSIZ := 14
  const DIRENT := 16

  /** The root directory: ".", ".." and the files in the order given. */
  function Entries(files: seq<Input>): (c: seq<Byte>)
    requires |files| + 2 <= NINODES
    ensures |c| == 16 * (|files| + 2)
  {
    var n := |files|;
    if n == 0 then Dirent(1, [46]) + Dirent(1, [46, 46]) else Entries(files[..n - 1]) + Dirent(n + 1, files[n - 1].name)
  }

  /** Entry i + 2 of the root directory leads to file i. */
  lemma {:induction false} EntryOf(files: seq<Input>, i: nat)
    requires |files| + 2 <= NINODES && i < |files|
    ensures Entries(files)[16 * (i + 2)..16 * (i + 3)] == Dirent(i + 2, files[i].name)
  {
    hide Dirent;
    var n := |files|;
    var before, last := Entries(files[..n - 1]), Dirent(n + 1, files[n - 1].name);
    if i < n - 1 {
      EntryOf(files[..n - 1], i);
      assert (before + last)[16 * (i + 2)..16 * (i + 3)] == before[16 * (i + 2)..16 * (i + 3)];
    } else {
      assert (before + last)[16 * (i + 2)..16 * (i + 3)] == last;
    }
  }

  /** What each inode is to hold; inode 0 is never used. */
  function Contents(files: seq<Input>): (c: seq<seq<Byte>>)
    requires |files| + 2 <= NINODES
    ensures |c| == |files| + 2 && c[1] == Entries(files) && forall i :: 0 <= i < |files| ==> c[i + 2] == files[i].bytes
  {
    var n := |files|;
    if n == 0 then [[], Entries([])] else Contents(files[..n - 1])[1 := Entries(files)] + [files[n - 1].bytes]
  }

  /** mkfs as a whole. A false result is one of its exits: a file is too large, or every block is
      used. Otherwise the image holds the kernel's invariants for every inode, the contents of every
      file, and the root directory, padded with zeros; the root has a hole exactly when its entries
      filled whole blocks. */
  method Build(files: seq<Input>) returns (ok: bool, d: Disk, used: nat)
    requires |files| + 2 <= NINODES
    ensures ok <==> Fits(files)
    ensures ok ==> Rooted(d, Contents(files)) && Headed(d) && used == Total(files)
    ensures ok ==> IMAGE.Laid(d) && used <= FSSIZE && forall b :: 0 <= b < FSSIZE ==> (Used(d, IMAGE, b) <==> b < used)
  {
    hide FilesIn, Finished, Rooted, Untouched, Entries, Contents, SuperImage, Total, Used;
    var b := new Builder();
    ok := b.MakeRoot();
    TotalNothing();
    var i := 0;
    while i < |files|
      invariant 0 <= i <= |files| && b.Built(files[..i]) && Fits(files[..i])
    {
      assert files[..i + 1][..i] == files[..i];
      ok := b.AddFile(files[..i + 1]);
      d, used := b.d, b.freeblock;
      if !ok {
        Unfit(files, i);
        return;
      }
      assert forall k :: 0 <= k < i ==> files[..i + 1][k] == files[..i][k];
      i := i + 1;
    }
    assert files[..i] == files;
    b.FinishImage(files);
    d, used := b.d, b.freeblock;
  }

  lemma TotalNothing()
    ensures Fits([]) && Total([]) == 47
  {
  }

  lemma Unfit(files: seq<Input>, i: nat)
    requires i < |files| && !(|files[i].bytes| <= MAXFILE * BSIZE && Total(files[..i + 1]) <= FSSIZE)
    ensures !Fits(files)
  {
    if Fits(files) {
      FitsPrefix(files, i + 1);
    }
  }

  /** The super block on disk. */
  function SuperImage(): Block {
    PutWords(ZeroBlock, 0, [FSMAGIC, IMAGE.size, IMAGE.nblocks, IMAGE.ninodes, IMAGE.nlog, IMAGE.logstart,
        IMAGE.inodestart, IMAGE.bmapstart])
  }

  /** What readsb makes of a block. */
  function ReadSuper(b: Block): Superblock {
    Superblock(WordAt(b, 1), WordAt(b, 2), WordAt(b, 3), WordAt(b, 4), WordAt(b, 5), WordAt(b, 6), WordAt(b, 7))
  }

  /** The kernel finds the magic number and the geometry that mkfs has used. */
  lemma SuperReads()
    ensures WordAt(SuperImage(), 0) == FSMAGIC && ReadSuper(SuperImage()) == IMAGE
  {
    hide WordAt, PutWords;
    var ws: seq<Word> := [FSMAGIC, IMAGE.size, IMAGE.nblocks, IMAGE.ninodes, IMAGE.nlog, IMAGE.logstart,
        IMAGE.inodestart, IMAGE.bmapstart];
    forall j: nat | j < 8
      ensures WordAt(SuperImage(), j) == ws[j]
    {
      PutWordsReads(ZeroBlock, 0, ws, j);
    }
  }

  /** The image without files: every inode is empty and exactly the metadata is in use. */
  lemma EmptyImage(d: Disk)
    requires |d| == FSSIZE && forall b :: 0 <= b < FSSIZE && b != 1 ==> d[b] == ZeroBlock
    ensures Untouched(d, IMAGE.Meta()) && FilesIn(Finished(d, IMAGE.Meta()), [[]])
  {
    hide BitsBlock, SuperImage;
    ImageLaid(d);
    var e := Finished(d, IMAGE.Meta());
    forall k | 0 <= k < NINODES
      ensures Blank(e, k)
    {
      ZeroInode(e, k);
    }
    EmptyOwned(e);
  }

  lemma ZeroInode(e: Disk, k: nat)
    requires IMAGE.Laid(e) && k < NINODES && e[IMAGE.InodeBlock(k)] == ZeroBlock
    ensures Blank(e, k)
  {
    forall s | 0 <= s <= NDIRECT
      ensures DiskInode(e, IMAGE, k).addrs[s] == 0
    {
      ZeroWords(16 * (k % IPB) + 3 + s);
    }
    ZeroWords(16 * (k % IPB));
    ZeroWords(16 * (k % IPB) + 2);
  }

  lemma EmptyOwned(e: Disk)
    requires |e| == FSSIZE && IMAGE.Laid(e) && (forall k :: 0 <= k < NINODES ==> Blank(e, k))
    requires e == Finished(e, IMAGE.Meta())
    ensures FsOk(e, IMAGE, 0, DiskInode(e, IMAGE, 0))
  {
    hide BitsBlock, InodeAt, BlockBit;
    var v := DiskInode(e, IMAGE, 0);
    var t := TableOf(e, IMAGE, 0, v);
    forall k, s | 0 <= k < NINODES && 0 <= s < SLOTS
      ensures t[k][s] == 0
    {
      assert Blank(e, k) && t[k] == Row(e, IMAGE, 0, v, k);
    }
    forall b | 0 <= b < FSSIZE
      ensures Bitmap(e, IMAGE)[b] <==> b < IMAGE.Meta() || Referenced(t, b)
    {
      FinishedBits(e, IMAGE.Meta(), b);
    }
  }

  function ZeroPad(c: seq<Byte>): seq<Byte> {
    c + ZeroBytes((|c| / BSIZE + 1) * BSIZE - |c|)
  }

  /** The image once the size of the root directory has been rounded up: its contents are padded
      with zeros, its blocks are those of its entries, and so it has a hole exactly if its size was
      on a block boundary. */
  ghost predicate Rooted(e: Disk, contents: seq<seq<Byte>>) {
    && |e| == FSSIZE && IMAGE.Laid(e) && 1 < |contents| <= NINODES && |contents[1]| < MAXFILE * BSIZE
    && (forall k :: 0 <= k < NINODES ==> FsOk(e, IMAGE, k, DiskInode(e, IMAGE, k)))
    && (forall k :: 2 <= k < |contents| ==> Holds(e, k, contents[k]))
    && (forall k :: 0 <= k < NINODES && (k == 0 || |contents| <= k) ==> Blank(e, k))
    && DiskInode(e, IMAGE, 1).size <= MAXFILE * BSIZE && Kind(DiskInode(e, IMAGE, 1), 1)
    && Content(e, DiskInode(e, IMAGE, 1)) == ZeroPad(contents[1])
    && HoleFree(DiskRow(e, 1), |contents[1]|) && NoExtra(DiskRow(e, 1), |contents[1]|)
    && (HoleFree(DiskRow(e, 1), DiskInode(e, IMAGE, 1).size) <==> |contents[1]| % BSIZE != 0)
  }

  lemma RoundUp(e: Disk, contents: seq<seq<Byte>>)
    requires FilesIn(e, contents) && |contents| > 1 && |contents[1]| < MAXFILE * BSIZE
    ensures var v := DiskInode(e, IMAGE, 1);
            v.size == |contents[1]| && Rooted(Updated(e, IMAGE, 1, v.(size := (v.size / BSIZE + 1) * BSIZE)), contents)
  {
    hide Owned, Blank, PutInode, InodeAt;
    var c, v := contents[1], DiskInode(e, IMAGE, 1);
    assert Holds(e, 1, c);
    var w := v.(size := (v.size / BSIZE + 1) * BSIZE);
    SizeDoesNotMatter(e, IMAGE, 1, v, w);
    UpdatedOk(e, IMAGE, 1, w);
    var f := Updated(e, IMAGE, 1, w);
    forall k | 0 <= k < NINODES
      ensures FsOk(f, IMAGE, k, DiskInode(f, IMAGE, k))
    {
      Refocus(f, IMAGE, 1, k);
    }
    forall k | 2 <= k < |contents|
      ensures Holds(f, k, contents[k])
    {
      OthersHold(e, f, 1, k, contents[k]);
    }
    forall k | 0 <= k < NINODES && (k == 0 || |contents| <= k)
      ensures Blank(f, k)
    {
      assert SameInode(e, f, IMAGE, k, DiskInode(e, IMAGE, k), k) && Blank(e, k);
      StillBlank(e, f, k);
    }
    PaddedRoot(e, c);
  }

  lemma StillBlank(e: Disk, f: Disk, k: nat)
    requires IMAGE.Laid(e) && IMAGE.Laid(f) && k < NINODES && Blank(e, k)
    requires DiskInode(f, IMAGE, k) == DiskInode(e, IMAGE, k)
    ensures Blank(f, k)
  {
  }

  lemma PaddedRoot(e: Disk, c: seq<Byte>)
    requires Holds(e, 1, c) && |c| < MAXFILE * BSIZE
    ensures var w := DiskInode(e, IMAGE, 1).(size := (|c| / BSIZE + 1) * BSIZE);
            var f := Updated(e, IMAGE, 1, w);
            && IMAGE.Laid(f) && DiskInode(f, IMAGE, 1) == w && w.size <= MAXFILE * BSIZE && Content(f, w) == ZeroPad(c)
            && HoleFree(DiskRow(f, 1), |c|) && NoExtra(DiskRow(f, 1), |c|)
            && (HoleFree(DiskRow(f, 1), w.size) <==> |c| % BSIZE != 0)
  {
    hide Owned, Updated, InodeAt, Refs, FileByte, SlotOf;
    var v := DiskInode(e, IMAGE, 1);
    var w := v.(size := (|c| / BSIZE + 1) * BSIZE);
    var f := Updated(e, IMAGE, 1, w);
    SizeDoesNotMatter(e, IMAGE, 1, v, w);
    UpdatedOk(e, IMAGE, 1, w);
    UpdatedBytes(e, IMAGE, 1, w);
    RowRefs(e, 1, v);
    RowRefs(f, 1, w);
    var row := DiskRow(e, 1);
    assert DiskRow(f, 1) == row;
    forall o | 0 <= o < w.size
      ensures Content(f, w)[o] == ZeroPad(c)[o]
    {
      assert FileByte(f, row, o) == FileByte(e, row, o);
    }
    HoleAtBoundary(row, |c|);
  }

  lemma HoleAtBoundary(row: seq<Word>, size: nat)
    requires |row| == SLOTS && size < MAXFILE * BSIZE && HoleFree(row, size) && NoExtra(row, size)
    ensures HoleFree(row, (size / BSIZE + 1) * BSIZE) <==> size % BSIZE != 0
  {
    hide SlotOf;
    var up := (size / BSIZE + 1) * BSIZE;
    if size % BSIZE != 0 {
      forall bn | 0 <= bn < MAXFILE && bn * BSIZE < up
        ensures row[SlotOf(bn)] != 0
      {
        assert bn * BSIZE < size;
      }
    } else {
      assert row[SlotOf(size / BSIZE)] == 0;
    }
  }

  /** The size of every inode of the image. */
  lemma SizesIn(e: Disk, contents: seq<seq<Byte>>, k: nat)
    requires Rooted(e, contents) && k < NINODES
    ensures IMAGE.Laid(e) && FsOk(e, IMAGE, k, DiskInode(e, IMAGE, k))
    ensures DiskInode(e, IMAGE, k).size <= MAXFILE * BSIZE
    ensures k == 1 ==> DiskInode(e, IMAGE, k).size == (|contents[1]| / BSIZE + 1) * BSIZE
  {
    hide FsOk, HoleFree, NoExtra, ZeroTail, InodeAt;
    if k == 1 {
      assert |Content(e, DiskInode(e, IMAGE, 1))| == |ZeroPad(contents[1])|;
    } else if 2 <= k < |contents| {
      assert Holds(e, k, contents[k]);
    } else {
      assert Blank(e, k);
    }
  }

  /** The block after the last entry is missing if the entries fill whole blocks. */
  lemma RootHoleAt(e: Disk, contents: seq<seq<Byte>>)
    requires Rooted(e, contents) && |contents[1]| % BSIZE == 0
    ensures DiskRow(e, 1)[SlotOf(|contents[1]| / BSIZE)] == 0
  {
    hide FsOk, HoleFree, ZeroTail, InodeAt, SlotOf, Row, Content;
  }

  /** An inode that has not been allocated. */
  ghost predicate Blank(e: Disk, k: nat)
    requires IMAGE.Laid(e) && k < NINODES
  {
    var v := DiskInode(e, IMAGE, k);
    v.typ == 0 && v.size == 0 && forall s :: 0 <= s <= NDIRECT ==> v.addrs[s] == 0
  }

  /** Image e holds the files `contents` in inodes 1, 2, ... and nothing else. */
  ghost predicate FilesIn(e: Disk, contents: seq<seq<Byte>>) {
    && |e| == FSSIZE && IMAGE.Laid(e) && 1 <= |contents| <= NINODES
    && (forall k :: 1 <= k < |contents| ==> Holds(e, k, contents[k]))
    && (forall k :: 0 <= k < NINODES && (k == 0 || |contents| <= k) ==> Blank(e, k))
    && FsOk(e, IMAGE, 0, DiskInode(e, IMAGE, 0))
  }

  lemma FilesStep(e: Disk, f: Disk, contents: seq<seq<Byte>>, inum: nat, c: seq<Byte>)
    requires FilesIn(e, contents) && 0 < inum < |contents| && SameOthers(e, f, IMAGE, inum) && Holds(f, inum, c)
    ensures FilesIn(f, contents[inum := c])
  {
    hide Owned, Holds, NoExtra, Content;
    HoldsOk(f, inum, c);
    forall k | 1 <= k < |contents| && k != inum
      ensures Holds(f, k, contents[k])
    {
      OthersHold(e, f, inum, k, contents[k]);
    }
    forall k | 0 <= k < NINODES && (k == 0 || |contents| <= k)
      ensures Blank(f, k)
    {
      assert SameInode(e, f, IMAGE, k, DiskInode(e, IMAGE, k), k) && Blank(e, k);
    }
    Refocus(f, IMAGE, inum, 0);
  }

  lemma HoldsOk(e: Disk, k: nat, c: seq<Byte>)
    requires Holds(e, k, c)
    ensures |e| == FSSIZE && IMAGE.Laid(e) && k < NINODES && FsOk(e, IMAGE, k, DiskInode(e, IMAGE, k))
  {
  }

  /** A freshly allocated inode is an empty file. */
  lemma NewFile(e: Disk, contents: seq<seq<Byte>>, v: Dinode)
    requires FilesIn(e, contents) && |contents| < NINODES && v.size == 0 && v.addrs == seq(NDIRECT + 1, _ => 0)
    requires Kind(v, |contents|)
    ensures FilesIn(Updated(e, IMAGE, |contents|, v), contents + [[]])
  {
    hide Owned, Holds, Content, Updated;
    var inum := |contents|;
    var f := Updated(e, IMAGE, inum, v);
    BlankOk(e, inum, v);
    UpdatedOk(e, IMAGE, inum, v);
    EmptyFile(f, inum, v);
    forall k | 1 <= k < |contents|
      ensures Holds(f, k, contents[k])
    {
      OthersHold(e, f, inum, k, contents[k]);
    }
    forall k | 0 <= k < NINODES && (k == 0 || inum < k)
      ensures Blank(f, k)
    {
      assert SameInode(e, f, IMAGE, k, DiskInode(e, IMAGE, k), k) && Blank(e, k);
    }
    Refocus(f, IMAGE, inum, 0);
  }

  lemma BlankOk(e: Disk, inum: nat, v: Dinode)
    requires IMAGE.Laid(e) && inum < NINODES && Blank(e, inum) && FsOk(e, IMAGE, 0, DiskInode(e, IMAGE, 0))
    requires v.addrs == seq(NDIRECT + 1, _ => 0)
    ensures FsOk(e, IMAGE, inum, v)
  {
    hide Owned;
    Refocus(e, IMAGE, 0, inum);
    assert v.addrs == DiskInode(e, IMAGE, inum).addrs;
    SizeDoesNotMatter(e, IMAGE, inum, DiskInode(e, IMAGE, inum), v);
  }

  lemma EmptyFile(f: Disk, inum: nat, v: Dinode)
    requires |f| == FSSIZE && IMAGE.Laid(f) && inum < NINODES && FsOk(f, IMAGE, inum, v)
    requires DiskInode(f, IMAGE, inum) == v
    requires v.size == 0 && v.addrs == seq(NDIRECT + 1, _ => 0) && Kind(v, inum)
    ensures Holds(f, inum, [])
  {
    hide Owned;
    var row := DiskRow(f, inum);
    assert forall s :: 0 <= s < SLOTS ==> row[s] == 0;
  }

  lemma RowRefs(e: Disk, inum: nat, v: Dinode)
    requires IMAGE.Laid(e) && inum < NINODES && |v.addrs| == NDIRECT + 1
    ensures Row(e, IMAGE, inum, v, inum) == Refs(e, v.addrs)
  {
  }

  /** winode commutes with finishing. */
  lemma FinishedUpdate(d: Disk, fb: nat, inum: nat, v: Dinode)
    requires Untouched(d, fb) && inum < NINODES && |v.addrs| == NDIRECT + 1
    ensures IMAGE.Laid(d) && IMAGE.Laid(Finished(d, fb))
    ensures Finished(Updated(d, IMAGE, inum, v), fb) == Updated(Finished(d, fb), IMAGE, inum, v)
    ensures Untouched(Updated(d, IMAGE, inum, v), fb)
  {
    ImageLaid(d);
    hide PutInode, BitsBlock;
    var m := IMAGE.InodeBlock(inum);
    FinishedWrite(d, fb, m, PutInode(d[m], inum % IPB, v));
  }

  lemma SameData(d: Disk, fb: nat, x: nat)
    requires Untouched(d, fb) && IMAGE.Meta() <= x < FSSIZE
    ensures Finished(d, fb)[x] == d[x]
  {
  }
}
