/** kernel/pipe.c: a ring of PIPESIZE bytes between two 32-bit counters. What happens between two
    sleeps is one call here, so a run of the system is any sequence of calls. */
module Pipe {
  const PIPESIZE := 512
  const WRAP: nat := 0x1_0000_0000

  /** unsigned 32-bit subtraction. */
  function Minus(a: nat, b: nat): (d: nat)
    requires a < WRAP && b < WRAP
    ensures d < WRAP && (b + d) % WRAP == a
  {
    if a >= b then a - b else a + WRAP - b
  }

  function Plus(a: nat, n: nat): (s: nat)
    requires a < WRAP && n < WRAP
    ensures s < WRAP && s == (a + n) % WRAP
  {
    if a + n < WRAP then a + n else a + n - WRAP
  }

  lemma PlusMinus(a: nat, b: nat)
    requires a < WRAP && b < WRAP
    ensures Plus(b, Minus(a, b)) == a
  {
  }

  /** The slots of bytes that are fewer than PIPESIZE apart differ, wherever the counters wrap. */
  lemma SlotsDiffer(start: nat, j: nat, k: nat)
    requires start < WRAP && j < k < 512
    ensures Plus(start, j) % 512 != Plus(start, k) % 512
  {
    SlotOf(start, j);
    SlotOf(start, k);
  }

  lemma SlotOf(start: nat, k: nat)
    requires start < WRAP && k < 512
    ensures Plus(start, k) % 512 == (start + k) % 512
  {
    assert WRAP == 512 * 0x80_0000;
    if start + k >= WRAP {
      assert start + k == 512 * 0x80_0000 + Plus(start, k);
    }
  }

  /** The n bytes from counter value `start` on. */
  function Bytes(data: seq<int>, start: nat, n: nat): (s: seq<int>)
    requires |data| == PIPESIZE && start < WRAP && n <= PIPESIZE
    ensures |s| == n
  {
    seq(n, k requires 0 <= k < n => data[Plus(start, k) % 512])
  }

  /** A byte put behind n others, where there is room. */
  lemma BytesPut(data: seq<int>, start: nat, n: nat, x: int)
    requires |data| == PIPESIZE && start < WRAP && n < PIPESIZE
    ensures Bytes(data[Plus(start, n) % 512 := x], start, n + 1) == Bytes(data, start, n) + [x]
  {
    var d := data[Plus(start, n) % 512 := x];
    forall k | 0 <= k < n
      ensures d[Plus(start, k) % 512] == data[Plus(start, k) % 512]
    {
      SlotsDiffer(start, k, n);
    }
  }

  lemma BytesGet(data: seq<int>, start: nat, n: nat)
    requires |data| == PIPESIZE && start < WRAP && 0 < n <= PIPESIZE
    ensures Bytes(data, start, n) == [data[start % 512]] + Bytes(data, Plus(start, 1), n - 1)
  {
    forall k: nat | k < n - 1
      ensures Plus(start, k + 1) == Plus(Plus(start, 1), k)
    {
    }
  }

  /** How a stretch of pipewrite ends, with the bytes written by then: the process is killed or there
      is no reader, it sleeps, its memory cannot be read, or all is written. */
  datatype WriteResult = Killed(i: nat) | Full(i: nat) | Faulted(i: nat) | Done(i: nat)

  /** And of piperead: killed, asleep, or returning bytes, perhaps because its memory cannot be
      written. */
  datatype ReadResult = KilledReader | Empty | Got(bytes: seq<int>, faulted: bool)

  class Pipe {
    const data: array<int>
    var nread: nat
    var nwrite: nat
    var readopen: bool
    var writeopen: bool
    /** Every byte ever accepted from a writer, and every byte ever taken out for a reader. */
    ghost var accepted: seq<int>
    ghost var taken: seq<int>

    ghost predicate Shaped()
      reads this
    {
      data.Length == PIPESIZE && nread < WRAP && nwrite < WRAP && Minus(nwrite, nread) <= PIPESIZE
    }

    ghost function Buffered(): (s: seq<int>)
      reads this, data
      requires Shaped()
      ensures |s| <= PIPESIZE
    {
      Bytes(data[..], nread, Minus(nwrite, nread))
    }

    /** First in, first out: what was taken out and then what is buffered is what was accepted. */
    ghost predicate Valid()
      reads this, data
    {
      Shaped() && taken + Buffered() == accepted
    }

    /** How the code tells that the pipe is empty or full, wherever the counters have wrapped. */
    lemma EmptyOrFull()
      requires Shaped()
      ensures Buffered() == [] <==> nread == nwrite
      ensures |Buffered()| == PIPESIZE <==> nwrite == Plus(nread, 512)
    {
      PlusMinus(nwrite, nread);
    }

    /** `pipealloc`. */
    constructor ()
      ensures Valid() && accepted == [] && readopen && writeopen && fresh(data)
    {
      data := new int[512];
      nread, nwrite, readopen, writeopen := 0, 0, true, true;
      accepted, taken := [], [];
    }

    /** `pi->data[pi->nwrite++ % PIPESIZE] = ch`. */
    method Put(ch: int)
      requires Valid() && nwrite != Plus(nread, 512)
      modifies this`nwrite, this`accepted, data
      ensures Valid() && accepted == old(accepted) + [ch] && Buffered() == old(Buffered()) + [ch]
    {
      ghost var n := Minus(nwrite, nread);
      PlusMinus(nwrite, nread);
      BytesPut(data[..], nread, n, ch);
      data[nwrite % 512] := ch;
      assert data[..] == old(data[..])[nwrite % 512 := ch];
      nwrite := Plus(nwrite, 1);
      assert Minus(nwrite, nread) == n + 1;
      accepted := accepted + [ch];
      assert taken + (old(Buffered()) + [ch]) == accepted;
    }

    /** `ch = pi->data[pi->nread++ % PIPESIZE]`. */
    method Get() returns (ch: int)
      requires Valid() && nread != nwrite
      modifies this`nread, this`taken
      ensures Valid() && taken == old(taken) + [ch] && old(Buffered()) == [ch] + Buffered()
    {
      ghost var n := Minus(nwrite, nread);
      BytesGet(data[..], nread, n);
      ch := data[nread % 512];
      nread := Plus(nread, 1);
      assert Minus(nwrite, nread) == n - 1;
      taken := taken + [ch];
      assert old(taken) + ([ch] + Buffered()) == taken + Buffered();
    }

    /** `pipewrite` of src from byte i on, until it returns or has to sleep. The process is found to
        be killed from byte killAt on, and copyin fails for the bytes in `bad`. */
    method WriteSome(src: seq<int>, i: nat, killAt: nat, bad: set<nat>) returns (r: WriteResult)
      requires Valid() && i <= |src|
      modifies this`nwrite, this`accepted, data
      ensures Valid() && taken == old(taken)
      ensures i <= r.i <= |src| && accepted == old(accepted) + src[i..r.i]
      ensures Buffered() == old(Buffered()) + src[i..r.i]
      ensures (r.i > i ==> readopen && r.i <= killAt) && forall j :: i <= j < r.i ==> j !in bad
      ensures r.Done? <==> r.i == |src|
      ensures r.Killed? <==> r.i < |src| && (!readopen || r.i >= killAt)
      ensures r.Full? <==> r.i < |src| && readopen && r.i < killAt && |Buffered()| == PIPESIZE
      ensures r.Faulted? ==> r.i in bad
    {
      hide Buffered, Plus;
      var j := i;
      while j < |src|
        invariant i <= j <= |src| && Valid() && taken == old(taken) && accepted == old(accepted) + src[i..j]
        invariant Buffered() == old(Buffered()) + src[i..j]
        invariant (j > i ==> readopen && j <= killAt) && forall k :: i <= k < j ==> k !in bad
      {
        if !readopen || j >= killAt {
          return Killed(j);
        }
        EmptyOrFull();
        if nwrite == Plus(nread, 512) {
          return Full(j);
        }
        if j in bad {
          return Faulted(j);
        }
        Put(src[j]);
        assert src[i..j] + [src[j]] == src[i..j + 1];
        assert old(Buffered()) + src[i..j] + [src[j]] == old(Buffered()) + src[i..j + 1];
        j := j + 1;
      }
      r := Done(j);
    }

    /** `piperead` of up to n bytes, until it returns or has to sleep; copyout fails for the bytes in
        `bad`. The reader gets the oldest bytes in order. A byte that cannot be copied out is taken
        from the pipe and lost, and it is the only one. */
    method ReadSome(n: nat, killed: bool, bad: set<nat>) returns (r: ReadResult)
      requires Valid()
      modifies this`nread, this`taken
      ensures Valid() && accepted == old(accepted)
      ensures r.Got? <==> old(Buffered()) != [] || !writeopen
      ensures r.KilledReader? <==> killed && old(Buffered()) == [] && writeopen
      ensures !r.Got? ==> taken == old(taken)
      ensures r.Got? ==> |r.bytes| <= n && forall j :: 0 <= j < |r.bytes| ==> j !in bad
      ensures r.Got? && !r.faulted ==> taken == old(taken) + r.bytes && old(Buffered()) == r.bytes + Buffered()
      ensures r.Got? && !r.faulted ==> |r.bytes| == if n < |old(Buffered())| then n else |old(Buffered())|
      ensures r.Got? && r.faulted ==> |r.bytes| < n && |r.bytes| in bad && |r.bytes| < |old(Buffered())|
      ensures r.Got? && r.faulted ==> old(Buffered()) == r.bytes + [old(Buffered())[|r.bytes|]] + Buffered()
    {
      hide Buffered, Shaped;
      EmptyOrFull();
      if nread == nwrite && writeopen {
        return if killed then KilledReader else Empty;
      }
      var bytes: seq<int> := [];
      while |bytes| < n
        invariant |bytes| <= n && Valid() && taken == old(taken) + bytes
        invariant old(Buffered()) == bytes + Buffered()
        invariant forall j :: 0 <= j < |bytes| ==> j !in bad
      {
        EmptyOrFull();
        if nread == nwrite {
          break;
        }
        var ch := Get();
        assert bytes + ([ch] + Buffered()) == bytes + [ch] + Buffered();
        if |bytes| in bad {
          return Got(bytes, true);
        }
        bytes := bytes + [ch];
      }
      r := Got(bytes, false);
    }

    /** `pipeclose`. */
    method Close(writable: bool) returns (gone: bool)
      requires Valid()
      modifies this`readopen, this`writeopen
      ensures Valid() && readopen == (old(readopen) && writable) && writeopen == (old(writeopen) && !writable)
      ensures gone <==> !readopen && !writeopen
    {
      if writable {
        writeopen := false;
      } else {
        readopen := false;
      }
      gone := !readopen && !writeopen;
    }
  }

  /** One byte is written to a new pipe and read into memory that cannot be written: the reader gets
      nothing, and the byte is gone. */
  method LoseByte(ch: int) returns (pi: Pipe, r: ReadResult)
    ensures r == Got([], true) && pi.Valid() && pi.accepted == [ch] && pi.Buffered() == []
  {
    hide Pipe.Buffered;
    pi := new Pipe();
    var w := pi.WriteSome([ch], 0, 1, {});
    assert w.i == 1;
    r := pi.ReadSome(1, false, {0});
  }
}
