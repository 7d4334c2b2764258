/** Disk blocks as bytes, with the little-endian 32-bit words and the bitmap bits
    that the kernel reads out of them by casting `b->data`. */
module Blocks {
  const BSIZE := 1024
  const WORDS := 256  // 32-bit words in a block

  type Byte = x: int | 0 <= x < 256
  type Word = x: int | 0 <= x < 0x1_0000_0000
  type Block = b: seq<Byte> | |b| == BSIZE witness ZeroBytes(BSIZE)
  type Disk = seq<Block>

  function ZeroBytes(n: nat): seq<Byte> {
    seq(n, _ => 0)
  }

  const ZeroBlock: Block := ZeroBytes(BSIZE)

  /** Word i of a block. */
  function WordAt(b: Block, i: nat): Word
    requires i < WORDS
  {
    var (b0: int, b1: int, b2: int, b3: int) := (b[4 * i], b[4 * i + 1], b[4 * i + 2], b[4 * i + 3]);
    b0 + 0x100 * b1 + 0x1_0000 * b2 + 0x100_0000 * b3
  }

  /** The block with word i overwritten. */
  function PutWord(b: Block, i: nat, w: Word): Block
    requires i < WORDS
  {
    b[4 * i := w % 0x100][4 * i + 1 := w / 0x100 % 0x100]
     [4 * i + 2 := w / 0x1_0000 % 0x100][4 * i + 3 := w / 0x100_0000]
  }

  lemma PutWordReads(b: Block, i: nat, w: Word, j: nat)
    requires i < WORDS && j < WORDS
    ensures WordAt(PutWord(b, i, w), j) == if i == j then w else WordAt(b, j)
  {
    var c := PutWord(b, i, w);
    if i == j {
      assert c[4 * i] == w % 0x100 && c[4 * i + 1] == w / 0x100 % 0x100;
      assert c[4 * i + 2] == w / 0x1_0000 % 0x100 && c[4 * i + 3] == w / 0x100_0000;
      LittleEndian(w);
    }
  }

  lemma LittleEndian(w: Word)
    ensures w % 0x100 + 0x100 * (w / 0x100 % 0x100) + 0x1_0000 * (w / 0x1_0000 % 0x100) +
            0x100_0000 * (w / 0x100_0000) == w
  {
    assert w / 0x1_0000 == w / 0x100 / 0x100;
    assert w / 0x100_0000 == w / 0x1_0000 / 0x100;
  }

  lemma ZeroWords(i: nat)
    requires i < WORDS
    ensures WordAt(ZeroBlock, i) == 0
  {
  }

  /** Consecutive words from word `base` on. */
  function PutWords(b: Block, base: nat, ws: seq<Word>): Block
    requires base + |ws| <= WORDS
  {
    if ws == [] then b
    else PutWord(PutWords(b, base, ws[..|ws| - 1]), base + |ws| - 1, ws[|ws| - 1])
  }

  lemma {:induction false} PutWordsReads(b: Block, base: nat, ws: seq<Word>, j: nat)
    requires base + |ws| <= WORDS && j < WORDS
    ensures WordAt(PutWords(b, base, ws), j) == if base <= j < base + |ws| then ws[j - base] else WordAt(b, j)
  {
    if ws != [] {
      var front := ws[..|ws| - 1];
      PutWordsReads(b, base, front, j);
      PutWordReads(PutWords(b, base, front), base + |ws| - 1, ws[|ws| - 1], j);
    }
  }

  /** The n words from word `base` on. */
  function WordsFrom(b: Block, base: nat, n: nat): (ws: seq<Word>)
    requires base + n <= WORDS
    ensures |ws| == n && forall k :: 0 <= k < n ==> ws[k] == WordAt(b, base + k)
  {
    if n == 0 then [] else WordsFrom(b, base, n - 1) + [WordAt(b, base + n - 1)]
  }

  lemma PutWordsSame(b: Block, base: nat, ws: seq<Word>)
    requires base + |ws| <= WORDS
    ensures WordsFrom(PutWords(b, base, ws), base, |ws|) == ws
  {
    var got := WordsFrom(PutWords(b, base, ws), base, |ws|);
    forall k | 0 <= k < |ws|
      ensures got[k] == ws[k]
    {
      PutWordsReads(b, base, ws, base + k);
    }
  }

  lemma PutWordsApart(b: Block, base: nat, ws: seq<Word>, at: nat, n: nat)
    requires base + |ws| <= WORDS && at + n <= WORDS && (at + n <= base || base + |ws| <= at)
    ensures WordsFrom(PutWords(b, base, ws), at, n) == WordsFrom(b, at, n)
  {
    var got := WordsFrom(PutWords(b, base, ws), at, n);
    forall k | 0 <= k < n
      ensures got[k] == WordsFrom(b, at, n)[k]
    {
      PutWordsReads(b, base, ws, at + k);
    }
  }

  // ----- single bits of a byte

  function Pow2(w: nat): nat {
    if w == 0 then 1 else 2 * Pow2(w - 1)
  }

  /** `x & (1 << k)` is non-zero. */
  predicate Bit(x: nat, k: nat) {
    if k == 0 then x % 2 == 1 else Bit(x / 2, k - 1)
  }

  /** `x | (1 << k)`. */
  function SetBit(x: nat, k: nat): nat {
    if k == 0 then x / 2 * 2 + 1 else 2 * SetBit(x / 2, k - 1) + x % 2
  }

  /** `x & ~(1 << k)`. */
  function ClearBit(x: nat, k: nat): nat {
    if k == 0 then x / 2 * 2 else 2 * ClearBit(x / 2, k - 1) + x % 2
  }

  lemma {:induction false} BitsInRange(x: nat, k: nat, w: nat)
    requires x < Pow2(w) && k < w
    ensures SetBit(x, k) < Pow2(w) && ClearBit(x, k) < Pow2(w)
  {
    if k > 0 {
      BitsInRange(x / 2, k - 1, w - 1);
    }
  }

  lemma {:induction false} SetBitReads(x: nat, k: nat, j: nat)
    ensures Bit(SetBit(x, k), j) == (j == k || Bit(x, j))
  {
    var r := SetBit(x, k);
    if k == 0 {
      assert r / 2 == x / 2;
    } else {
      assert r / 2 == SetBit(x / 2, k - 1) && r % 2 == x % 2;
      if j > 0 {
        SetBitReads(x / 2, k - 1, j - 1);
      }
    }
  }

  lemma {:induction false} ClearBitReads(x: nat, k: nat, j: nat)
    ensures Bit(ClearBit(x, k), j) == (j != k && Bit(x, j))
  {
    var r := ClearBit(x, k);
    if k == 0 {
      assert r / 2 == x / 2;
    } else {
      assert r / 2 == ClearBit(x / 2, k - 1) && r % 2 == x % 2;
      if j > 0 {
        ClearBitReads(x / 2, k - 1, j - 1);
      }
    }
  }

  lemma {:induction false} ZeroBits(j: nat)
    ensures !Bit(0, j)
  {
    if j > 0 {
      ZeroBits(j - 1);
    }
  }

  // ----- bit i of a bitmap block

  predicate BlockBit(b: Block, i: nat)
    requires i < 8 * BSIZE
  {
    Bit(b[i / 8], i % 8)
  }

  /** The block with bit i set, or cleared. */
  function PutBit(b: Block, i: nat, on: bool): Block
    requires i < 8 * BSIZE
  {
    assert b[i / 8] < Pow2(8) == 256;
    BitsInRange(b[i / 8], i % 8, 8);
    b[i / 8 := if on then SetBit(b[i / 8], i % 8) else ClearBit(b[i / 8], i % 8)]
  }

  lemma PutBitReads(b: Block, i: nat, on: bool, j: nat)
    requires i < 8 * BSIZE && j < 8 * BSIZE
    ensures BlockBit(PutBit(b, i, on), j) == if i == j then on else BlockBit(b, j)
  {
    SetBitReads(b[i / 8], i % 8, j % 8);
    ClearBitReads(b[i / 8], i % 8, j % 8);
  }
}
