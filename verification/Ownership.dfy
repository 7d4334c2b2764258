/** Who owns which block, away from bytes and words: a table of block references, one row per
    inode and one column per slot, against the free bitmap. */
module Ownership {
  import opened Blocks
  import opened FsLayout

  type Table = seq<seq<Word>>

  ghost predicate Shaped(t: Table, n: nat) {
    |t| == n && forall i :: 0 <= i < n ==> |t[i]| == SLOTS
  }

  /** Block b is what slot s of inode i refers to. */
  predicate At(t: Table, i: nat, s: nat, b: nat)
    requires i < |t| && s < |t[i]|
  {
    t[i][s] == b
  }

  ghost predicate Referenced(t: Table, b: nat) {
    exists i: nat, s: nat :: i < |t| && s < |t[i]| && At(t, i, s, b)
  }

  /** References are to data blocks. */
  ghost predicate InRange(t: Table, meta: int, size: nat) {
    forall i: nat, s: nat :: i < |t| && s < |t[i]| && t[i][s] != 0 ==> meta <= t[i][s] < size
  }

  /** No block is referred to twice. */
  ghost predicate Unshared(t: Table) {
    forall i: nat, s: nat, j: nat, u: nat {:trigger t[i][s], t[j][u]} ::
      i < |t| && s < |t[i]| && j < |t| && u < |t[j]| && t[i][s] == t[j][u] != 0 ==> i == j && s == u
  }

  /** A bit is set exactly for metadata and for blocks that are referred to. */
  ghost predicate Accounted(t: Table, used: seq<bool>, meta: int) {
    forall b :: 0 <= b < |used| ==> (used[b] <==> b < meta || Referenced(t, b))
  }

  ghost predicate Owned(t: Table, used: seq<bool>, meta: int) {
    0 < meta && InRange(t, meta, |used|) && Unshared(t) && Accounted(t, used, meta)
  }

  function Put(t: Table, i: nat, s: nat, b: Word): Table
    requires i < |t| && s < |t[i]|
  {
    var row: seq<Word> := t[i][s := b];
    t[i := row]
  }

  /** A free block given to an empty slot. */
  lemma Allocate(t: Table, used: seq<bool>, meta: int, i: nat, s: nat, b: Word)
    requires Owned(t, used, meta) && i < |t| && s < |t[i]| && t[i][s] == 0 && b < |used| && !used[b]
    ensures Owned(Put(t, i, s, b), used[b := true], meta) && meta <= b
  {
    var t', used' := Put(t, i, s, b), used[b := true];
    forall c | 0 <= c < |used|
      ensures used'[c] <==> c < meta || Referenced(t', c)
    {
      if c != 0 {
        PutReferenced(t, i, s, b, c);
      }
    }
    assert !Referenced(t, b);
    forall j: nat, u: nat | j < |t| && u < |t[j]| && t[j][u] == b
      ensures false
    {
      assert At(t, j, u, b);
    }
  }

  /** A block taken from the slot that holds it. */
  lemma Release(t: Table, used: seq<bool>, meta: int, i: nat, s: nat)
    requires Owned(t, used, meta) && i < |t| && s < |t[i]| && t[i][s] != 0
    ensures t[i][s] < |used| && used[t[i][s]] && meta <= t[i][s]
    ensures Owned(Put(t, i, s, 0), used[t[i][s] := false], meta)
  {
    var b := t[i][s];
    assert At(t, i, s, b);
    var t', used' := Put(t, i, s, 0), used[b := false];
    forall c | 0 <= c < |used|
      ensures used'[c] <==> c < meta || Referenced(t', c)
    {
      if c != 0 {
        ClearReferenced(t, i, s, c);
      }
    }
  }

  lemma PutReferenced(t: Table, i: nat, s: nat, b: Word, c: nat)
    requires i < |t| && s < |t[i]| && t[i][s] == 0 && (c != 0 || b == 0)
    ensures Referenced(Put(t, i, s, b), c) <==> c == b || Referenced(t, c)
  {
    var t' := Put(t, i, s, b);
    if c == b {
      assert At(t', i, s, b);
    } else if Referenced(t, c) {
      var j: nat, u: nat :| j < |t| && u < |t[j]| && At(t, j, u, c);
      assert At(t', j, u, c);
    } else if Referenced(t', c) {
      var j: nat, u: nat :| j < |t'| && u < |t'[j]| && At(t', j, u, c);
      assert At(t, j, u, c);
    }
  }

  lemma ClearReferenced(t: Table, i: nat, s: nat, c: nat)
    requires Unshared(t) && i < |t| && s < |t[i]| && t[i][s] != 0 && c != 0
    ensures Referenced(Put(t, i, s, 0), c) <==> c != t[i][s] && Referenced(t, c)
  {
    var t' := Put(t, i, s, 0);
    if Referenced(t', c) {
      var j: nat, u: nat :| j < |t'| && u < |t'[j]| && At(t', j, u, c);
      assert At(t, j, u, c);
    } else if c != t[i][s] && Referenced(t, c) {
      var j: nat, u: nat :| j < |t| && u < |t[j]| && At(t, j, u, c);
      assert At(t', j, u, c);
    }
  }

  function Zeros(n: nat): seq<Word> {
    seq(n, _ => 0)
  }

  /** Giving up everything one inode holds clears exactly its bits. */
  lemma GaveUp(t: Table, used: seq<bool>, t': Table, used': seq<bool>, meta: int, i: nat, b: nat)
    requires Owned(t, used, meta) && Owned(t', used', meta) && |used| == |used'| && i < |t| == |t'|
    requires t' == t[i := Zeros(|t[i]|)] && 0 < b < |used|
    ensures used'[b] <==> used[b] && b !in t[i]
  {
    if b in t[i] {
      var s :| 0 <= s < |t[i]| && t[i][s] == b;
      assert At(t, i, s, b);
      forall j: nat, u: nat | j < |t'| && u < |t'[j]|
        ensures !At(t', j, u, b)
      {
        assert j != i ==> t'[j][u] == t[j][u];
      }
    } else if Referenced(t, b) {
      var j: nat, u: nat :| j < |t| && u < |t[j]| && At(t, j, u, b);
      assert At(t', j, u, b);
    } else if Referenced(t', b) {
      var j: nat, u: nat :| j < |t'| && u < |t'[j]| && At(t', j, u, b);
      assert At(t, j, u, b);
    }
  }
}
