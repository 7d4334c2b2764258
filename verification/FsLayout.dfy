/** The on-disk layout of kernel/fs.h: super block geometry, inodes packed sixteen to a block,
    direct and indirect block addresses, and the free bitmap. */
module FsLayout {
  import opened Blocks

  const NDIRECT := 12
  const NINDIRECT := 256
  const MAXFILE := 268
  const IPB := 16
  const BPB := 8192
  /** The places where an inode names a block: 12 direct addresses, the address of the
      indirect block, the 256 entries of the indirect block. */
  const SLOTS := 269

  type Half = x: int | 0 <= x < 0x1_0000

  datatype Superblock = Superblock(
    size: nat, nblocks: nat, ninodes: nat, nlog: nat, logstart: nat, inodestart: nat, bmapstart: nat) {

    /** Blocks before the data blocks. */
    function Meta(): int {
      size - nblocks
    }

    function InodeBlock(i: nat): nat {
      i / IPB + inodestart
    }

    function BitmapBlock(b: nat): nat {
      b / BPB + bmapstart
    }

    /** Log, inode blocks, bitmap and data blocks lie one after the other on the disk. */
    predicate Laid(d: Disk) {
      && 0 < size <= |d| && size < 0x1_0000_0000
      && 0 < ninodes && logstart + nlog <= inodestart
      && InodeBlock(ninodes - 1) < bmapstart
      && BitmapBlock(size - 1) < Meta() <= size
    }
  }

  const T_DIR: Half := 1
  const T_FILE: Half := 2

  datatype Dinode = Dinode(typ: Half, major: Half, minor: Half, nlink: Half, size: Word, addrs: seq<Word>)

  function ToWords(v: Dinode): (ws: seq<Word>)
    requires |v.addrs| == NDIRECT + 1
  {
    var (t: int, ma: int, mi: int, nl: int) := (v.typ, v.major, v.minor, v.nlink);
    [t + 0x1_0000 * ma, mi + 0x1_0000 * nl, v.size] + v.addrs
  }

  function FromWords(ws: seq<Word>): (v: Dinode)
    requires |ws| == 16
    ensures |v.addrs| == NDIRECT + 1
  {
    Dinode(ws[0] % 0x1_0000, ws[0] / 0x1_0000, ws[1] % 0x1_0000, ws[1] / 0x1_0000, ws[2], ws[3..])
  }

  lemma WordsRoundTrip(v: Dinode)
    requires |v.addrs| == NDIRECT + 1
    ensures |ToWords(v)| == 16 && FromWords(ToWords(v)) == v
  {
    assert ToWords(v)[3..] == v.addrs;
  }

  /** The words of inode i in its block. */
  function InodeWords(b: Block, i: nat): (ws: seq<Word>)
    requires i < IPB
    ensures |ws| == 16
  {
    WordsFrom(b, 16 * i, 16)
  }

  function InodeAt(b: Block, i: nat): (v: Dinode)
    requires i < IPB
    ensures |v.addrs| == NDIRECT + 1
  {
    FromWords(InodeWords(b, i))
  }

  function PutInode(b: Block, i: nat, v: Dinode): Block
    requires i < IPB && |v.addrs| == NDIRECT + 1
  {
    PutWords(b, 16 * i, ToWords(v))
  }

  lemma PutInodeReads(b: Block, i: nat, v: Dinode, j: nat)
    requires i < IPB && j < IPB && |v.addrs| == NDIRECT + 1
    ensures InodeAt(PutInode(b, i, v), j) == if i == j then v else InodeAt(b, j)
  {
    WordsRoundTrip(v);
    if i == j {
      PutWordsSame(b, 16 * i, ToWords(v));
    } else {
      PutWordsApart(b, 16 * i, ToWords(v), 16 * j, 16);
    }
  }

  function DiskInode(d: Disk, sb: Superblock, k: nat): (v: Dinode)
    requires sb.Laid(d) && k < sb.ninodes
    ensures |v.addrs| == NDIRECT + 1
  {
    InodeAt(d[sb.InodeBlock(k)], k % IPB)
  }

  function WordsOf(b: Block): (ws: seq<Word>)
    ensures |ws| == NINDIRECT
  {
    WordsFrom(b, 0, NINDIRECT)
  }

  /** Every block address an inode holds, by slot; zero is no block. */
  function Refs(d: Disk, addrs: seq<Word>): (r: seq<Word>)
    requires |addrs| == NDIRECT + 1
    ensures |r| == SLOTS
  {
    addrs + if 0 < addrs[NDIRECT] < |d| then WordsOf(d[addrs[NDIRECT]]) else seq(NINDIRECT, _ => 0)
  }

  /** The slot of file block bn. */
  function SlotOf(bn: nat): (s: nat)
    ensures bn < MAXFILE ==> s < SLOTS && s != NDIRECT
  {
    if bn < NDIRECT then bn else bn + 1
  }

  /** The bit of block b in the free bitmap. */
  predicate Used(d: Disk, sb: Superblock, b: nat)
    requires sb.Laid(d) && b < sb.size
  {
    BlockBit(d[sb.BitmapBlock(b)], b % BPB)
  }

  function Bitmap(d: Disk, sb: Superblock): (bits: seq<bool>)
    requires sb.Laid(d)
    ensures |bits| == sb.size
  {
    seq(sb.size, b requires 0 <= b < sb.size => Used(d, sb, b))
  }

  /** Setting or clearing one bit on disk does so in the bitmap. */
  lemma PutBitmap(d: Disk, sb: Superblock, b: nat, on: bool)
    requires sb.Laid(d) && b < sb.size
    ensures var m := sb.BitmapBlock(b);
            var e := d[m := PutBit(d[m], b % BPB, on)];
            sb.Laid(e) && Bitmap(e, sb) == Bitmap(d, sb)[b := on]
  {
    var m := sb.BitmapBlock(b);
    var e := d[m := PutBit(d[m], b % BPB, on)];
    forall c | 0 <= c < sb.size
      ensures Used(e, sb, c) == if c == b then on else Used(d, sb, c)
    {
      PutBitReads(d[m], b % BPB, on, c % BPB);
    }
  }
}
