/** Directories of kernel/fs.c: `dirlookup` and `dirlink` on top of readi and writei. A directory is a file
    of entries, sixteen bytes each: an inode number, zero for a free entry, and a name. */
module Directory {
  import opened Blocks
  import opened FsLayout
  import opened FsState
  import F = Fs

  const DIRSIZ := 14
  const DIRENT := 16

  // ----- names

  /** A C string has no NUL in it. */
  predicate IsName(name: seq<Byte>) {
    forall i :: 0 <= i < |name| ==> name[i] != 0
  }

  /** What of a name counts. */
  function Cut(name: seq<Byte>): seq<Byte> {
    if |name| < DIRSIZ then name else name[..DIRSIZ]
  }

  /** The text in a name field: up to the first NUL, if there is one. */
  function Text(field: seq<Byte>): seq<Byte> {
    if field == [] || field[0] == 0 then [] else [field[0]] + Text(field[1..])
  }

  lemma {:induction false} TextAfter(field: seq<Byte>, i: nat)
    requires i <= |field| && forall k :: 0 <= k < i ==> field[k] != 0
    ensures Text(field) == field[..i] + Text(field[i..])
  {
    if i > 0 {
      TextAfter(field[1..], i - 1);
      assert field[1..][i - 1..] == field[i..] && field[..i] == [field[0]] + field[1..][..i - 1];
    }
  }

  /** `namecmp`, that is strncmp with the size of a name field. */
  method Namecmp(name: seq<Byte>, field: seq<Byte>) returns (same: bool)
    requires IsName(name) && |field| == DIRSIZ
    ensures same <==> Text(field) == Cut(name)
  {
    var i := 0;
    while i < DIRSIZ && i < |name| && name[i] == field[i]
      invariant 0 <= i <= DIRSIZ && i <= |name| && name[..i] == field[..i]
    {
      i := i + 1;
    }
    forall k | 0 <= k < i
      ensures field[k] == name[k] != 0
    {
      assert field[..i][k] == name[..i][k];
    }
    TextAfter(field, i);
    if i == DIRSIZ {
      return true;
    }
    same := (if i < |name| then name[i] else 0) == field[i];
    SameFrom(name, field, i);
  }

  lemma SameFrom(name: seq<Byte>, field: seq<Byte>, i: nat)
    requires IsName(name) && |field| == DIRSIZ && i < DIRSIZ && i <= |name| && name[..i] == field[..i]
    requires Text(field) == field[..i] + Text(field[i..]) && (i < |name| ==> name[i] != field[i])
    ensures Text(field) == Cut(name) <==> i == |name| && field[i] == 0
  {
    var rest := Text(field[i..]);
    assert |Text(field)| == i + |rest|;
    assert rest != [] ==> rest[0] == field[i] == Text(field)[i];
    if i < |name| {
      assert Cut(name)[i] == name[i];
    } else {
      assert Cut(name) == field[..i];
    }
  }

  // ----- entries

  /** strncpy into a name field. */
  function Field(name: seq<Byte>): (field: seq<Byte>)
    ensures |field| == DIRSIZ
  {
    Cut(name) + ZeroBytes(DIRSIZ - |Cut(name)|)
  }

  lemma FieldReads(name: seq<Byte>)
    requires IsName(name)
    ensures Text(Field(name)) == Cut(name)
  {
    var n := |Cut(name)|;
    TextAfter(Field(name), n);
    assert Field(name)[..n] == Cut(name);
  }

  function Entry(inum: Half, name: seq<Byte>): (de: seq<Byte>)
    ensures |de| == DIRENT
  {
    [inum % 256, inum / 256] + Field(name)
  }

  function InumAt(c: seq<Byte>, k: nat): nat
    requires 16 * (k + 1) <= |c|
  {
    var (lo: int, hi: int) := (c[16 * k], c[16 * k + 1]);
    lo + 256 * hi
  }

  function NameAt(c: seq<Byte>, k: nat): seq<Byte>
    requires 16 * (k + 1) <= |c|
  {
    c[16 * k + 2..16 * (k + 1)]
  }

  /** Entry k is in use for the name. */
  predicate Hit(c: seq<Byte>, name: seq<Byte>, k: nat)
    requires 16 * (k + 1) <= |c|
  {
    InumAt(c, k) != 0 && Text(NameAt(c, k)) == Cut(name)
  }

  ghost predicate NoHit(c: seq<Byte>, name: seq<Byte>, n: nat) {
    forall k :: 0 <= k < n && 16 * (k + 1) <= |c| ==> !Hit(c, name, k)
  }

  /** The name stands for inode inum, at byte off, in a directory with contents c: the first entry in use
      for it; inum is zero if there is none. */
  ghost predicate Finds(c: seq<Byte>, name: seq<Byte>, inum: nat, off: nat) {
    if inum == 0 then NoHit(c, name, |c|)
    else
      && off % 16 == 0 && off + 16 <= |c| && inum == InumAt(c, off / 16)
      && Hit(c, name, off / 16) && NoHit(c, name, off / 16)
  }

  /** Entry k of c' is the new one, the others are those of c. */
  ghost predicate Linked(c: seq<Byte>, c': seq<Byte>, k: nat, inum: Half, name: seq<Byte>) {
    && |c| % 16 == 0 && 16 * k <= |c| && (16 * (k + 1) <= |c| ==> InumAt(c, k) == 0)
    && c' == Splice(c, 16 * k, Entry(inum, name))
  }

  lemma SplicedEntry(c: seq<Byte>, k: nat, de: seq<Byte>, j: nat)
    requires |c| % 16 == 0 && 16 * k <= |c| && |de| == DIRENT && 16 * (j + 1) <= |Splice(c, 16 * k, de)|
    ensures j == k || 16 * (j + 1) <= |c|
    ensures Splice(c, 16 * k, de)[16 * j..16 * (j + 1)] == if j == k then de else c[16 * j..16 * (j + 1)]
  {
    var s := Splice(c, 16 * k, de);
    assert |s| == if 16 * (k + 1) <= |c| then |c| else 16 * (k + 1);
    if j == k {
      assert s[16 * j..16 * (j + 1)] == de;
    } else {
      assert forall i :: 16 * j <= i < 16 * (j + 1) ==> s[i] == c[i];
    }
  }

  /** An entry is its sixteen bytes. */
  lemma EntryBytes(c: seq<Byte>, j: nat, de: seq<Byte>)
    requires 16 * (j + 1) <= |c| && c[16 * j..16 * (j + 1)] == de
    ensures |de| == 16 && InumAt(c, j) == de[0] as int + 256 * de[1] as int && NameAt(c, j) == de[2..]
  {
    assert c[16 * j] == de[0] && c[16 * j + 1] == de[1];
  }

  lemma LinkedAt(c: seq<Byte>, c': seq<Byte>, k: nat, inum: Half, name: seq<Byte>, j: nat)
    requires Linked(c, c', k, inum, name) && IsName(name) && 16 * (j + 1) <= |c'|
    ensures j == k ==> InumAt(c', j) == inum && Text(NameAt(c', j)) == Cut(name)
    ensures j != k ==> 16 * (j + 1) <= |c| && InumAt(c', j) == InumAt(c, j) && NameAt(c', j) == NameAt(c, j)
  {
    hide Text, Cut, Splice;
    var de := Entry(inum, name);
    SplicedEntry(c, k, de, j);
    EntryBytes(c', j, c'[16 * j..16 * (j + 1)]);
    if j == k {
      FieldReads(name);
      assert de[2..] == Field(name);
    } else {
      EntryBytes(c, j, c[16 * j..16 * (j + 1)]);
    }
  }

  lemma LinkedSize(c: seq<Byte>, c': seq<Byte>, k: nat, inum: Half, name: seq<Byte>)
    requires Linked(c, c', k, inum, name)
    ensures |c| <= |c'| && 16 * (k + 1) <= |c'| && (|c'| == |c| || |c'| == 16 * (k + 1)) && |c'| % 16 == 0
  {
  }

  /** What dirlink has entered dirlookup finds, and every other name stands for what it did. */
  lemma LinkLookup(c: seq<Byte>, c': seq<Byte>, k: nat, inum: Half, name: seq<Byte>, other: seq<Byte>, i: nat, off: nat)
    requires Linked(c, c', k, inum, name) && IsName(name) && inum != 0 && NoHit(c, name, |c|)
    ensures Finds(c', name, inum, 16 * k)
    ensures Cut(other) != Cut(name) ==> (Finds(c', other, i, off) <==> Finds(c, other, i, off))
  {
    hide Text, Cut, Linked, InumAt, NameAt;
    LinkedSize(c, c', k, inum, name);
    NewIsFree(c, c', k, inum, name);
    LinkedAt(c, c', k, inum, name, k);
    assert 16 * k / 16 == k;
    forall j: nat | 16 * (j + 1) <= |c'|
      ensures Hit(c', name, j) <==> j == k
      ensures j != k ==> 16 * (j + 1) <= |c| && InumAt(c', j) == InumAt(c, j)
      ensures Cut(other) != Cut(name) ==>
              (Hit(c', other, j) <==> 16 * (j + 1) <= |c| && Hit(c, other, j))
    {
      LinkedAt(c, c', k, inum, name, j);
      assert 16 * (j + 1) <= |c| ==> !Hit(c, name, j);
    }
  }

  lemma NewIsFree(c: seq<Byte>, c': seq<Byte>, k: nat, inum: Half, name: seq<Byte>)
    requires Linked(c, c', k, inum, name)
    ensures 16 * (k + 1) <= |c| ==> InumAt(c, k) == 0
  {
  }

  // ----- dirlookup

  /** Reading has not changed what the directory says, nor any other file; and nothing at all if the
      directory has no holes. */
  ghost predicate Intact(fs: F.Fs, dp: F.Inode, st: Start)
    reads fs, dp
  {
    && fs.Inv(dp) && |dp.addrs| == |st.v.addrs| == NDIRECT + 1 && st.v.size <= MAXFILE * BSIZE
    && dp.Value() == st.v.(addrs := dp.addrs) && SameOthers(st.d, fs.d, fs.sb, dp.inum)
    && Content(fs.d, dp.Value()) == Content(st.d, st.v) && |st.row| == SLOTS
    && (HoleFree(st.row, st.v.size) ==> fs.d == st.d && dp.addrs == st.v.addrs && fs.RowOf(dp) == st.row)
  }

  lemma StartsIntact(fs: F.Fs, dp: F.Inode)
    requires fs.Inv(dp) && dp.size <= MAXFILE * BSIZE
    ensures Intact(fs, dp, Start(fs.d, fs.RowOf(dp), dp.Value(), {}))
  {
    hide FsOk, Content, HoleFree, SameOthers, Row;
    fs.RowFacts(dp);
    Unchanged(fs.d, fs.sb, dp.inum, dp.Value(), 0);
  }

  /** readi of one entry. A false result is one of the panics "dirlookup read" and "dirlink read". */
  method ReadEntry(fs: F.Fs, dp: F.Inode, off: Word, ghost st: Start) returns (ok: bool, de: seq<Byte>)
    requires Intact(fs, dp, st) && fs.outstanding > 0 && off < dp.size
    modifies fs`d, fs`writes, dp`addrs
    ensures Intact(fs, dp, st)
    ensures ok ==> off + 16 <= st.v.size && |de| == 16 && de == Content(st.d, st.v)[off..off + 16]
    ensures !ok ==> off + 16 > st.v.size || (!HoleFree(st.row, st.v.size) && Full(fs.d, fs.sb))
  {
    hide FsOk, Content, HoleFree, SameOthers, Row, Full, F.Fs.Logged, Filled, F.MeetsHole, F.MeetsBare, F.Reach;
    ghost var d1, v1 := fs.d, dp.Value();
    var done, failed;
    done, failed, de := fs.Readi(dp, off, 16, 16);
    fs.RowFacts(dp);
    OthersTransitive(st.d, d1, fs.d, fs.sb, dp.inum);
    ok := |de| == 16;
  }

  lemma EntryRead(c: seq<Byte>, off: nat, de: seq<Byte>)
    requires off % 16 == 0 && off + 16 <= |c| && de == c[off..off + 16]
    ensures InumAt(c, off / 16) == de[0] as int + 256 * de[1] as int && NameAt(c, off / 16) == de[2..]
  {
    EntryBytes(c, off / 16, de);
  }

  /** `dirlookup` in an operation, up to the iget. It finds what the name stands for, and it panics only if
      the directory ends inside an entry, or has a hole and the disk is full. */
  method Dirlookup(fs: F.Fs, dp: F.Inode, name: seq<Byte>, ghost st: Start) returns (ok: bool, inum: nat, off: Word)
    requires Intact(fs, dp, st) && dp.typ == T_DIR && fs.outstanding > 0 && IsName(name)
    modifies fs`d, fs`writes, dp`addrs
    ensures Intact(fs, dp, st)
    ensures ok ==> Finds(Content(st.d, st.v), name, inum, off) && (inum == 0 ==> st.v.size % 16 == 0)
    ensures !ok ==> st.v.size % 16 != 0 || (!HoleFree(st.row, st.v.size) && Full(fs.d, fs.sb))
  {
    hide Intact, Content, HoleFree, Full, InumAt, NameAt, Text, Cut;
    IntactSize(fs, dp, st);
    ghost var c := Content(st.d, st.v);
    off := 0;
    while off < dp.size
      invariant Intact(fs, dp, st) && dp.size == |c| <= MAXFILE * BSIZE && off % 16 == 0 && off <= dp.size
      invariant NoHit(c, name, off / 16)
    {
      var de;
      ok, de := ReadEntry(fs, dp, off, st);
      if !ok {
        inum := 0;
        return;
      }
      EntryRead(c, off, de);
      var lo: int, hi: int := de[0], de[1];
      var i := lo + 256 * hi;
      if i != 0 {
        var same := Namecmp(name, de[2..]);
        if same {
          return true, i, off;
        }
      }
      IntactSize(fs, dp, st);
      off := off + 16;
    }
    return true, 0, 0;
  }

  lemma IntactSize(fs: F.Fs, dp: F.Inode, st: Start)
    requires Intact(fs, dp, st)
    ensures |st.v.addrs| == NDIRECT + 1 && st.v.size <= MAXFILE * BSIZE && dp.size == st.v.size
    ensures |Content(st.d, st.v)| == dp.size && dp.typ == st.v.typ && |st.row| == SLOTS
  {
  }

  /** The second loop of `dirlink`: the first free entry, or the end. */
  method FreeEntry(fs: F.Fs, dp: F.Inode, ghost st: Start) returns (ok: bool, off: Word)
    requires Intact(fs, dp, st) && fs.outstanding > 0 && dp.size % 16 == 0
    modifies fs`d, fs`writes, dp`addrs
    ensures Intact(fs, dp, st)
    ensures ok ==> off % 16 == 0 && off <= st.v.size && (off < st.v.size ==> InumAt(Content(st.d, st.v), off / 16) == 0)
    ensures ok ==> forall k :: 0 <= k < off / 16 ==> InumAt(Content(st.d, st.v), k) != 0
    ensures !ok ==> !HoleFree(st.row, st.v.size) && Full(fs.d, fs.sb)
  {
    hide Intact, Content, HoleFree, Full, InumAt, NameAt;
    IntactSize(fs, dp, st);
    ghost var c := Content(st.d, st.v);
    off, ok := 0, true;
    while off < dp.size
      invariant Intact(fs, dp, st) && dp.size == |c| <= MAXFILE * BSIZE && off % 16 == 0 && off <= dp.size && ok
      invariant forall k :: 0 <= k < off / 16 ==> InumAt(c, k) != 0
    {
      var de;
      ok, de := ReadEntry(fs, dp, off, st);
      if !ok {
        return;
      }
      EntryRead(c, off, de);
      IntactSize(fs, dp, st);
      if de[0] == 0 && de[1] == 0 {
        return;
      }
      off := off + 16;
    }
  }

  /** The directory, written back, now reads c. */
  ghost predicate Reads(fs: F.Fs, dp: F.Inode, st: Start, c: seq<Byte>)
    reads fs, dp
  {
    && fs.Inv(dp) && |dp.addrs| == |st.v.addrs| == NDIRECT + 1 && dp.size == |c| <= MAXFILE * BSIZE
    && DiskInode(fs.d, fs.sb, dp.inum) == dp.Value() && dp.Value() == st.v.(addrs := dp.addrs, size := dp.size)
    && SameOthers(st.d, fs.d, fs.sb, dp.inum) && Content(fs.d, dp.Value()) == c
  }

  /** writei of one entry: all of it, or nothing. */
  method WriteEntry(fs: F.Fs, dp: F.Inode, off: Word, de: seq<Byte>, ghost st: Start) returns (done: bool)
    requires Intact(fs, dp, st) && fs.outstanding > 0 && off % 16 == 0 && off <= st.v.size && |de| == 16
    modifies fs`d, fs`writes, dp`addrs, dp`size
    ensures done ==> Reads(fs, dp, st, Splice(Content(st.d, st.v), off, de))
    ensures !done ==> |dp.addrs| == NDIRECT + 1 && dp.size == st.v.size <= MAXFILE * BSIZE
    ensures !done ==> Content(fs.d, dp.Value()) == Content(st.d, st.v)
    ensures !done ==> Full(fs.d, fs.sb) || off == st.v.size == MAXFILE * BSIZE
  {
    hide FsOk, Content, HoleFree, SameOthers, Row, Full, F.Fs.Logged, F.HoleAt, F.Unlogged, F.Refused, Spanned;
    ghost var d1, v1 := fs.d, dp.Value();
    fs.RowFacts(dp);
    var w, left := fs.Writei(dp, off, de, 16, 0);
    assert w == -1 || w == 0 || w == 16;
    fs.RowFacts(dp);
    done := w == 16;
    if w != -1 {
      OthersTransitive(st.d, d1, fs.d, fs.sb, dp.inum);
      SpliceAll(Content(st.d, st.v), off, de);
    }
  }

  lemma SpliceAll(c: seq<Byte>, off: nat, de: seq<Byte>)
    requires off <= |c|
    ensures Splice(c, off, de[..0]) == c && de[..|de|] == de
  {
  }

  lemma IntactContent(fs: F.Fs, dp: F.Inode, st: Start)
    requires Intact(fs, dp, st)
    ensures |dp.addrs| == |st.v.addrs| == NDIRECT + 1 && dp.size == st.v.size <= MAXFILE * BSIZE
    ensures Content(fs.d, dp.Value()) == Content(st.d, st.v)
  {
  }

  lemma FoundHit(c: seq<Byte>, name: seq<Byte>, inum: nat, off: nat)
    requires Finds(c, name, inum, off) && inum != 0
    ensures !NoHit(c, name, |c|)
  {
  }

  /** What `dirlink` has done when it returns 0: the name was new, and it now has the first free entry. */
  ghost predicate Entered(fs: F.Fs, dp: F.Inode, st: Start, name: seq<Byte>, inum: Half, k: nat)
    reads fs, dp
  {
    && |st.v.addrs| == NDIRECT + 1 && st.v.size <= MAXFILE * BSIZE
    && var c := Content(st.d, st.v);
       && NoHit(c, name, |c|) && 16 * k <= |c| && Reads(fs, dp, st, Splice(c, 16 * k, Entry(inum, name)))
       && Linked(c, Splice(c, 16 * k, Entry(inum, name)), k, inum, name)
       && forall j :: 0 <= j < k && 16 * (j + 1) <= |c| ==> InumAt(c, j) != 0
  }

  /** `dirlink` in an operation. It panics as dirlookup does. It returns -1 if the name is there, if the
      disk is full, or if the directory cannot grow; then the directory says what it did. */
  method Dirlink(fs: F.Fs, dp: F.Inode, name: seq<Byte>, inum: Half, ghost st: Start)
      returns (ok: bool, r: int, ghost k: nat)
    requires Intact(fs, dp, st) && dp.typ == T_DIR && fs.outstanding > 0 && IsName(name)
    modifies fs`d, fs`writes, dp`addrs, dp`size
    ensures !ok ==> st.v.size % 16 != 0 || (!HoleFree(st.row, st.v.size) && Full(fs.d, fs.sb))
    ensures ok ==> r == 0 || r == -1
    ensures ok && r == 0 ==> Entered(fs, dp, st, name, inum, k)
    ensures ok && r == -1 ==> |dp.addrs| == |st.v.addrs| == NDIRECT + 1 && dp.size == st.v.size <= MAXFILE * BSIZE
    ensures ok && r == -1 ==> Content(fs.d, dp.Value()) == Content(st.d, st.v)
    ensures ok && r == -1 ==>
            !NoHit(Content(st.d, st.v), name, st.v.size) || Full(fs.d, fs.sb) || st.v.size == MAXFILE * BSIZE
  {
    hide Intact, Reads, Content, HoleFree, Full, InumAt, NameAt, Text, Cut, NoHit;
    IntactSize(fs, dp, st);
    r, k := -1, 0;
    var i, off;
    ok, i, off := Dirlookup(fs, dp, name, st);
    if !ok || i != 0 {
      IntactContent(fs, dp, st);
      if ok {
        FoundHit(Content(st.d, st.v), name, i, off);
      }
      return;
    }
    IntactSize(fs, dp, st);
    ok, off := FreeEntry(fs, dp, st);
    if !ok {
      return;
    }
    var done := WriteEntry(fs, dp, off, Entry(inum, name), st);
    k := off / 16;
    r := if done then 0 else -1;
  }
}
