/** The block and inode layer of kernel/fs.c. `d` is what bread returns for each block, and
    every log_write of the operation in progress is recorded in `writes`. A result `ok` that is
    false is the panic "log_write outside of trans", unless something else is said. */
module Fs {
  import opened Blocks
  import opened RedoLog
  import opened FsLayout
  import opened Ownership
  import opened FsState

  /** An in-memory inode that its caller has locked. */
  class Inode {
    const inum: nat
    var typ: Half
    var major: Half
    var minor: Half
    var nlink: Half
    var size: Word
    var addrs: seq<Word>

    /** `ilock` of an inode that is not yet valid: the disk's copy. */
    constructor (inum: nat, v: Dinode)
      ensures this.inum == inum && Value() == v
    {
      this.inum := inum;
      typ, major, minor, nlink, size, addrs := v.typ, v.major, v.minor, v.nlink, v.size, v.addrs;
    }

    function Value(): Dinode
      reads this
    {
      Dinode(typ, major, minor, nlink, size, addrs)
    }
  }

  class Fs {
    const sb: Superblock
    var d: Disk
    /** The log_writes of the operation in progress, and the disk when it began. */
    var writes: seq<Write>
    ghost var base: Disk
    /** log.outstanding: the operations in progress, of this process and of others. */
    var outstanding: nat

    constructor (sb: Superblock, d: Disk)
      ensures this.sb == sb && this.d == d && writes == [] && base == d && outstanding == 0
    {
      this.sb, this.d, this.writes, this.base, this.outstanding := sb, d, [], d, 0;
    }

    /** The log_writes, in order, are all that has happened to the disk, and none of them is
        to the boot block, the super block or the log. */
    ghost predicate Logged()
      reads this
    {
      && d == Apply(base, writes)
      && (forall k :: 0 <= k < |writes| ==> sb.inodestart <= writes[k].at < sb.size)
    }

    /** Block ownership holds with `ip` as it is in memory. */
    ghost predicate Inv(ip: Inode)
      reads this, ip
    {
      FsOk(d, sb, ip.inum, ip.Value()) && Logged()
    }

    /** A new operation begins. */
    method Begin()
      modifies this`writes, this`base, this`outstanding
      ensures writes == [] && base == d && Logged() && outstanding == old(outstanding) + 1
    {
      writes, base := [], d;
      outstanding := outstanding + 1;
    }

    /** It ends. */
    method End()
      requires outstanding > 0
      modifies this`outstanding
      ensures outstanding == old(outstanding) - 1 && (old(Logged()) ==> Logged())
    {
      outstanding := outstanding - 1;
    }

    /** log_write of a modified buffer. */
    method LogWrite(b: nat, x: Block) returns (ok: bool)
      requires b < |d|
      modifies this`d, this`writes
      ensures ok <==> outstanding > 0
      ensures !ok ==> d == old(d) && writes == old(writes)
      ensures ok ==> d == old(d)[b := x] && writes == old(writes) + [Write(b, x)]
      ensures old(Logged()) && sb.inodestart <= b < sb.size ==> Logged()
    {
      if outstanding < 1 {
        return false;
      }
      d := d[b := x];
      assert writes == (writes + [Write(b, x)])[..|writes|];
      writes := writes + [Write(b, x)];
      ok := true;
    }

    // ----- blocks

    /** The inner loop of `balloc`: the first clear bit of a bitmap block, of those that stand
        for blocks on the disk; BPB or more if there is none. */
    method FindClear(bp: Block, base: nat) returns (bi: nat)
      requires base < sb.size
      ensures forall k :: 0 <= k < bi && k < BPB && base + k < sb.size ==> BlockBit(bp, k)
      ensures bi <= BPB && base + bi <= sb.size
      ensures bi < BPB && base + bi < sb.size ==> !BlockBit(bp, bi)
    {
      bi := 0;
      while bi < BPB && base + bi < sb.size && BlockBit(bp, bi)
        invariant bi <= BPB && base + bi <= sb.size
        invariant forall k :: 0 <= k < bi ==> BlockBit(bp, k)
      {
        bi := bi + 1;
      }
    }

    /** `balloc`. Zero means that every block is in use. */
    method Balloc() returns (ok: bool, b: Word)
      requires sb.Laid(d) && Used(d, sb, 0)
      modifies this`d, this`writes
      ensures ok <==> outstanding > 0 || Full(old(d), sb)
      ensures b == 0 || !ok ==> d == old(d) && writes == old(writes)
      ensures old(Logged()) && (b == 0 || sb.inodestart <= b) ==> Logged()
      ensures ok ==> (b == 0 <==> Full(old(d), sb))
      ensures b != 0 ==> b < sb.size && !Used(old(d), sb, b) && forall c :: 0 <= c < b ==> Used(old(d), sb, c)
      ensures ok && b != 0 ==> d == Allocated(old(d), sb, b)
      ensures ok && b != 0 ==> Touched(writes) == old(Touched(writes)) + {sb.BitmapBlock(b)} + {b as nat}
    {
      hide PutBit, BlockBit, Touched;
      var base := 0;
      while base < sb.size
        invariant base % BPB == 0 && d == old(d) && writes == old(writes)
        invariant forall c :: 0 <= c < base && c < sb.size ==> Used(d, sb, c)
      {
        var m := sb.BitmapBlock(base);
        var bi := FindClear(d[m], base);
        SameBitmapBlock(base, bi);
        if bi < BPB && base + bi < sb.size {
          b := base + bi;
          assert !Used(d, sb, b);
          ok := LogWrite(m, PutBit(d[m], bi, true));
          if ok {
            ok := LogWrite(b, ZeroBlock);
            TouchedTwo(old(writes), writes);
          }
          return;
        }
        base := base + BPB;
      }
      ok, b := true, 0;
    }

    /** The bits of BPB consecutive blocks are in one bitmap block. */
    lemma SameBitmapBlock(base: nat, bi: nat)
      requires sb.Laid(d) && base % BPB == 0 && base < sb.size && bi <= BPB
      ensures base + bi < sb.size && bi < BPB ==> sb.BitmapBlock(base + bi) == sb.BitmapBlock(base)
      ensures base + bi < sb.size && bi < BPB ==> (base + bi) % BPB == bi
      ensures (forall k :: 0 <= k < bi && k < BPB && base + k < sb.size ==> BlockBit(d[sb.BitmapBlock(base)], k))
              ==> forall c :: base <= c < base + bi && c < sb.size ==> Used(d, sb, c)
    {
      forall c | base <= c < base + BPB && c < sb.size
        ensures sb.BitmapBlock(c) == sb.BitmapBlock(base) && c % BPB == c - base
      {
      }
    }

    /** `bfree`. A false result is the panic "freeing free block". */
    method Bfree(b: nat) returns (ok: bool)
      requires sb.Laid(d) && b < sb.size && outstanding > 0
      modifies this`d, this`writes
      ensures ok == Used(old(d), sb, b)
      ensures old(Logged()) ==> Logged()
      ensures !ok ==> d == old(d) && writes == old(writes)
      ensures ok ==> d == Freed(old(d), sb, b) && Touched(writes) == old(Touched(writes)) + {sb.BitmapBlock(b)}
    {
      var m := sb.BitmapBlock(b);
      if !BlockBit(d[m], b % BPB) {
        return false;
      }
      ok := LogWrite(m, PutBit(d[m], b % BPB, false));
      TouchedAppend(old(writes), Write(m, PutBit(old(d)[m], b % BPB, false)));
    }

    /** `iupdate`. */
    method Iupdate(ip: Inode)
      requires sb.Laid(d) && ip.inum < sb.ninodes && |ip.addrs| == NDIRECT + 1 && outstanding > 0
      modifies this`d, this`writes
      ensures d == Updated(old(d), sb, ip.inum, ip.Value())
      ensures old(Logged()) ==> Logged()
      ensures Touched(writes) == old(Touched(writes)) + {sb.InodeBlock(ip.inum)}
      ensures old(Inv(ip)) ==> Inv(ip) && DiskInode(d, sb, ip.inum) == ip.Value()
    {
      hide FsOk, Updated;
      if Inv(ip) {
        UpdatedOk(d, sb, ip.inum, ip.Value());
      }
      UpdatedIs(d, sb, ip.inum, ip.Value());
      var m := sb.InodeBlock(ip.inum);
      var x := PutInode(d[m], ip.inum % IPB, ip.Value());
      var ok := LogWrite(m, x);
      TouchedAppend(old(writes), Write(m, x));
    }

    // ----- the blocks of a file

    ghost function RowOf(ip: Inode): seq<Word>
      reads this, ip
      requires Inv(ip)
    {
      Row(d, sb, ip.inum, ip.Value(), ip.inum)
    }

    /** Nothing has been written, to the disk or to the inode's addresses. */
    ghost predicate Untouched(ip: Inode, d0: Disk, writes0: seq<Write>, addrs0: seq<Word>)
      reads this, ip
    {
      d == d0 && writes == writes0 && ip.addrs == addrs0
    }

    /** The part that bmap has twice: take the address in `ip->addrs[s]`, allocating a block if
        there is none. `bms` are the bitmap blocks this has logged. */
    method AddrAt(ip: Inode, s: nat) returns (ok: bool, addr: Word, ghost bms: set<nat>)
      requires Inv(ip) && s <= NDIRECT
      modifies this`d, this`writes, ip`addrs
      ensures ok <==> outstanding > 0 || old(ip.addrs)[s] != 0 || Full(old(d), sb)
      ensures Inv(ip) && SameOthers(old(d), d, sb, ip.inum) && Kept(old(d), old(RowOf(ip)), d, RowOf(ip), s)
      ensures |ip.addrs| == NDIRECT + 1 && (ok ==> addr == ip.addrs[s]) && (addr == 0 || addr < sb.size)
      ensures !ok || old(ip.addrs)[s] != 0 || addr == 0 || outstanding == 0 || Full(old(d), sb) ==>
              Untouched(ip, old(d), old(writes), old(ip.addrs))
      ensures ok ==> ip.addrs == old(ip.addrs)[s := addr]
      ensures ip.addrs != old(ip.addrs) <==> outstanding > 0 && !Full(old(d), sb) && old(ip.addrs)[s] == 0
      ensures DiskInode(d, sb, ip.inum) == old(DiskInode(d, sb, ip.inum))
      ensures ok && addr == 0 ==> Full(d, sb)
      ensures |bms| <= if ok && old(ip.addrs)[s] == 0 && addr != 0 then 1 else 0
      ensures ok ==> Touched(writes) <= old(Touched(writes)) + bms + (if addr == 0 then {} else {addr as nat})
    {
      hide Logged, Owned, Used, Allocated, Bitmap, Touched, Kept, SameOthers, Full;
      bms := {};
      addr := ip.addrs[s];
      ghost var v := ip.Value();
      if addr != 0 {
        Unchanged(d, sb, ip.inum, v, s);
        AddrFacts(ip, s);
        return true, addr, {};
      }
      BlockZeroUsed(d, sb, ip.inum, v);
      ok, addr := Balloc();
      if addr == 0 || !ok {
        Unchanged(d, sb, ip.inum, v, s);
        return;
      }
      FreeBlock(old(d), sb, ip.inum, v, addr);
      FillSlot(old(d), sb, ip.inum, v, addr, s);
      AllocatedInodes(old(d), sb, addr, ip.inum);
      bms := {sb.BitmapBlock(addr)};
      ip.addrs := ip.addrs[s := addr];
    }

    /** The first slots of the row are the addresses in the inode; an entry needs an indirect
        block. */
    lemma RowFacts(ip: Inode)
      requires Inv(ip)
      ensures |ip.addrs| == NDIRECT + 1 && |RowOf(ip)| == SLOTS && sb.Laid(d) && ip.inum < sb.ninodes
      ensures forall s :: 0 <= s <= NDIRECT ==> RowOf(ip)[s] == ip.addrs[s]
      ensures RowOf(ip)[NDIRECT] == 0 ==> forall s :: NDIRECT < s < SLOTS ==> RowOf(ip)[s] == 0
    {
    }

    lemma AddrFacts(ip: Inode, s: nat)
      requires Inv(ip) && s <= NDIRECT
      ensures ip.addrs[s] == 0 || sb.Meta() <= ip.addrs[s] < sb.size
    {
      RefFacts(d, sb, ip.inum, ip.Value(), ip.inum, s);
    }

    /** The entry part of bmap: index j of the indirect block, allocating a block if there is
        none. */
    method EntryAt(ip: Inode, j: nat) returns (ok: bool, addr: Word, ghost bms: set<nat>)
      requires Inv(ip) && j < NINDIRECT && ip.addrs[NDIRECT] != 0
      modifies this`d, this`writes
      ensures ok <==> outstanding > 0 || old(RowOf(ip))[NDIRECT + 1 + j] != 0 || Full(old(d), sb)
      ensures Inv(ip) && SameOthers(old(d), d, sb, ip.inum)
      ensures Kept(old(d), old(RowOf(ip)), d, RowOf(ip), NDIRECT + 1 + j)
      ensures DiskInode(d, sb, ip.inum) == old(DiskInode(d, sb, ip.inum))
      ensures (ok ==> addr == RowOf(ip)[NDIRECT + 1 + j]) && (addr == 0 || addr < sb.size)
      ensures !ok || old(RowOf(ip))[NDIRECT + 1 + j] != 0 || addr == 0 || outstanding == 0 || Full(old(d), sb) ==>
              d == old(d) && writes == old(writes)
      ensures ok && addr == 0 ==> Full(d, sb)
      ensures |bms| <= if ok && old(RowOf(ip))[NDIRECT + 1 + j] == 0 && addr != 0 then 1 else 0
      ensures ok ==> Touched(writes) <=
                     old(Touched(writes)) + bms + (if addr == 0 then {} else {addr as nat}) + {ip.addrs[NDIRECT] as nat}
    {
      hide Logged, Owned, Used, Allocated, Bitmap, Touched, Kept, SameOthers, Full;
      bms := {};
      ghost var v := ip.Value();
      var ind := ip.addrs[NDIRECT];
      AddrFacts(ip, NDIRECT);
      var bp := d[ind];
      addr := WordAt(bp, j);
      EntryFacts(ip, j);
      if addr != 0 {
        Unchanged(d, sb, ip.inum, v, NDIRECT + 1 + j);
        return true, addr, {};
      }
      ok, addr, bms := NewEntry(ip, j, bp);
    }

    /** bmap finds entry j of the indirect block missing. */
    method NewEntry(ip: Inode, j: nat, bp: Block) returns (ok: bool, addr: Word, ghost bms: set<nat>)
      requires Inv(ip) && j < NINDIRECT && 0 < ip.addrs[NDIRECT] < |d| && RowOf(ip)[NDIRECT + 1 + j] == 0
      requires bp == d[ip.addrs[NDIRECT]] && sb.inodestart <= sb.Meta() <= ip.addrs[NDIRECT] < sb.size
      modifies this`d, this`writes
      ensures ok <==> outstanding > 0 || Full(old(d), sb)
      ensures Inv(ip) && SameOthers(old(d), d, sb, ip.inum)
      ensures Kept(old(d), old(RowOf(ip)), d, RowOf(ip), NDIRECT + 1 + j)
      ensures DiskInode(d, sb, ip.inum) == old(DiskInode(d, sb, ip.inum))
      ensures (ok ==> addr == RowOf(ip)[NDIRECT + 1 + j]) && (addr == 0 || addr < sb.size)
      ensures !ok || addr == 0 || outstanding == 0 || Full(old(d), sb) ==> d == old(d) && writes == old(writes)
      ensures ok && addr == 0 ==> Full(d, sb)
      ensures |bms| <= if ok && addr != 0 then 1 else 0
      ensures ok ==> Touched(writes) <=
                     old(Touched(writes)) + bms + (if addr == 0 then {} else {addr as nat}) + {ip.addrs[NDIRECT] as nat}
    {
      hide Logged, Owned, Used, Allocated, Bitmap, Touched, Kept, SameOthers, Full, PutWord, FsOk, Row;
      RowFacts(ip);
      bms := {};
      ghost var v := ip.Value();
      var ind := ip.addrs[NDIRECT];
      BlockZeroUsed(d, sb, ip.inum, v);
      ok, addr := Balloc();
      if addr == 0 || !ok {
        Unchanged(d, sb, ip.inum, v, NDIRECT + 1 + j);
        return;
      }
      FreeBlock(old(d), sb, ip.inum, v, addr);
      AllocatedKeeps(old(d), sb, ip.inum, v, addr);
      AllocatedInodes(old(d), sb, addr, ip.inum);
      DataInodes(d, sb, ind, PutWord(bp, j, addr), ip.inum);
      TouchedAppend(writes, Write(ind, PutWord(bp, j, addr)));
      ok := LogWrite(ind, PutWord(bp, j, addr));
      FillEntry(old(d), sb, ip.inum, v, addr, j);
      bms := {sb.BitmapBlock(addr)};
    }

    lemma EntryFacts(ip: Inode, j: nat)
      requires Inv(ip) && j < NINDIRECT && ip.addrs[NDIRECT] != 0
      ensures ip.addrs[NDIRECT] < |d| && WordAt(d[ip.addrs[NDIRECT]], j) == RowOf(ip)[NDIRECT + 1 + j]
      ensures RowOf(ip)[NDIRECT + 1 + j] == 0 || RowOf(ip)[NDIRECT + 1 + j] < sb.size
    {
      AddrFacts(ip, NDIRECT);
      RefFacts(d, sb, ip.inum, ip.Value(), ip.inum, NDIRECT + 1 + j);
    }

    /** `bmap`: the block of the file's block bn, allocating it, and the indirect block, if they
        are missing. Zero means that the disk is full. */
    method Bmap(ip: Inode, bn: nat) returns (ok: bool, addr: Word, ghost bms: set<nat>)
      requires Inv(ip) && bn < MAXFILE
      modifies this`d, this`writes, ip`addrs
      ensures ok <==> outstanding > 0 || old(RowOf(ip))[SlotOf(bn)] != 0 || Full(old(d), sb)
      ensures Inv(ip) && SameOthers(old(d), d, sb, ip.inum) && Kept(old(d), old(RowOf(ip)), d, RowOf(ip), SlotOf(bn))
      ensures |ip.addrs| == NDIRECT + 1 && (addr == 0 || addr < sb.size) && (ok ==> addr == RowOf(ip)[SlotOf(bn)])
      ensures outstanding == 0 || old(RowOf(ip))[SlotOf(bn)] != 0 || Full(old(d), sb) ==>
              Untouched(ip, old(d), old(writes), old(ip.addrs))
      ensures ok && addr == 0 && ip.addrs == old(ip.addrs) ==> d == old(d)
      ensures ip.addrs != old(ip.addrs) <==> outstanding > 0 && !Full(old(d), sb) && Bare(old(RowOf(ip)), bn)
      ensures DiskInode(d, sb, ip.inum) == old(DiskInode(d, sb, ip.inum))
      ensures ok && addr == 0 ==> Full(d, sb)
      ensures ok ==> |bms| <= (if old(RowOf(ip))[SlotOf(bn)] == 0 && addr != 0 then 1 else 0) +
                              IndNew(old(RowOf(ip)), RowOf(ip))
      ensures ok ==>
              Touched(writes) <= old(Touched(writes)) + bms + (if addr == 0 then {} else {addr as nat}) + Ind(RowOf(ip))
    {
      hide Logged, Owned, Used, Allocated, Bitmap, Touched, SameOthers, Kept, FsOk, Refs, Full, Row, InodeAt;
      RowFacts(ip);
      if bn < NDIRECT {
        ok, addr, bms := AddrAt(ip, bn);
        RowFacts(ip);
      } else {
        ghost var row0 := RowOf(ip);
        var ind;
        ok, ind, bms := AddrAt(ip, NDIRECT);
        RowFacts(ip);
        if ind == 0 || !ok {
          KeptMore(old(d), row0, d, RowOf(ip), SlotOf(bn));
          return ok, 0, {};
        }
        ghost var d1, row1, b1 := d, RowOf(ip), bms;
        ok, addr, bms := EntryAt(ip, bn - NDIRECT);
        RowFacts(ip);
        KeptThenKept(old(d), row0, d1, row1, d, RowOf(ip), SlotOf(bn));
        OthersTransitive(old(d), d1, d, sb, ip.inum);
        bms := bms + b1;
      }
    }

    // ----- writei

    /** writei has written the first tot bytes: the file reads as it did before with those bytes
        in place, the blocks are there, all other files are untouched, and the log writes are
        accounted for, as those of `seen` bytes. */
    ghost predicate Writing(ip: Inode, st: Start, off: nat, src: seq<Byte>, tot: nat, seen: nat, acct: Account)
      reads this, ip
    {
      && Inv(ip) && ip.Value() == st.v.(addrs := ip.addrs) && |st.row| == SLOTS
      && off + |src| <= MAXFILE * BSIZE && (tot == 0 || tot == |src| || (off + tot) % BSIZE == 0)
      && SameOthers(st.d, d, sb, ip.inum)
      && Wrote(st.d, st.row, d, RowOf(ip), off, src, tot)
      && Filled(st.row, RowOf(ip)) && Present(RowOf(ip), off, tot)
      && tot <= seen <= |src| && acct.Covers(st, RowOf(ip), Touched(writes), off, seen)
    }

    /** bmap has returned for the next byte of a write. */
    ghost predicate Mapped(ip: Inode, st: Start, off: nat, src: seq<Byte>, tot: nat, acct: Account,
                           d0: Disk, row0: seq<Word>, t0: set<nat>, bms: set<nat>, addr: Word)
      reads this, ip
    {
      && Inv(ip) && ip.Value() == st.v.(addrs := ip.addrs) && |st.row| == SLOTS && |row0| == SLOTS
      && off + |src| <= MAXFILE * BSIZE && (tot == 0 || (off + tot) % BSIZE == 0) && tot < |src|
      && SameOthers(st.d, d, sb, ip.inum) && Wrote(st.d, st.row, d0, row0, off, src, tot)
      && SameBytes(d0, row0, d, RowOf(ip))
      && Filled(st.row, row0) && Filled(row0, RowOf(ip)) && Present(row0, off, tot)
      && acct.Covers(st, row0, t0, off, tot) && addr == RowOf(ip)[SlotOf((off + tot) / BSIZE)]
      && (addr == 0 || addr < sb.size)
      && |bms| <= (if row0[SlotOf((off + tot) / BSIZE)] == 0 && addr != 0 then 1 else 0) + IndNew(row0, RowOf(ip))
      && Touched(writes) <= t0 + bms + (if addr == 0 then {} else {addr as nat}) + Ind(RowOf(ip))
    }

    /** The rest of a round: copy a piece into the block and log it. */
    method WritePiece(ip: Inode, off: nat, src: seq<Byte>, tot: nat, addr: Word, ghost st: Start, ghost acct: Account,
                      ghost d0: Disk, ghost row0: seq<Word>, ghost t0: set<nat>, ghost bms: set<nat>)
        returns (m: nat, ghost acct': Account)
      requires Mapped(ip, st, off, src, tot, acct, d0, row0, t0, bms, addr) && addr != 0 && outstanding > 0
      modifies this`d, this`writes
      ensures m == PieceAt(off, tot, |src|) && Writing(ip, st, off, src, tot + m, tot + m, acct')
    {
      hide Logged, Owned, Touched, SameOthers, FsOk, Row, Wrote, Filled, Present, SameBytes, Account.Covers;
      hide SlotOf, PutBytes, Ind, IndNew;
      ghost var row1 := RowOf(ip);
      RowFacts(ip);
      SlotsDiffer(ip, SlotOf((off + tot) / BSIZE));
      DataBlock(ip, SlotOf((off + tot) / BSIZE));
      m := PieceAt(off, tot, |src|);
      var x := PutBytes(d[addr], (off + tot) % BSIZE, src[tot..tot + m]);
      WroteMore(st.d, st.row, d0, row0, d, row1, off, src, tot, m);
      PresentMore(row0, row1, off, tot, m);
      FilledThenFilled(st.row, row0, row1);
      WriteSlotAll(st.d, ip, SlotOf((off + tot) / BSIZE), x);
      TouchedAppend(writes, Write(addr, x));
      acct' := acct.Next(addr, bms, row0[SlotOf((off + tot) / BSIZE)] == 0);
      AccountNext(acct, st, row0, row1, t0, Touched(writes) + {addr as nat}, bms, off, tot, m, addr);
      var ok := LogWrite(addr, x);
    }

    /** The rest of a round in which copyin fails: `moved` bytes of the piece are in the buffer, which
        is released as it is, without a log_write. */
    method DropPiece(ip: Inode, off: nat, src: seq<Byte>, tot: nat, moved: nat, addr: Word, ghost st: Start,
                     ghost acct: Account, ghost d0: Disk, ghost row0: seq<Word>, ghost t0: set<nat>,
                     ghost bms: set<nat>)
        returns (left: seq<Write>, ghost acct': Account, ghost seen: nat)
      requires Mapped(ip, st, off, src, tot, acct, d0, row0, t0, bms, addr) && addr != 0
      ensures Writing(ip, st, off, src, tot, seen, acct') && Unlogged(d, RowOf(ip), off, src, tot, moved, left)
    {
      hide Logged, Owned, Touched, SameOthers, FsOk, Row, Wrote, Filled, Present, SameBytes, Account.Covers;
      hide SlotOf, PutBytes, Ind, IndNew;
      ghost var row1 := RowOf(ip);
      RowFacts(ip);
      var m := PieceAt(off, tot, |src|);
      var k := if moved < m then moved else m;
      left := [Write(addr, PutBytes(d[addr], (off + tot) % BSIZE, src[tot..tot + k]))];
      WroteSame(st.d, st.row, d0, row0, d, row1, off, src, tot);
      PresentSame(row0, row1, off, tot);
      FilledThenFilled(st.row, row0, row1);
      acct' := acct.Next(addr, bms, row0[SlotOf((off + tot) / BSIZE)] == 0);
      AccountNext(acct, st, row0, row1, t0, Touched(writes), bms, off, tot, m, addr);
      seen := tot + m;
    }

    /** One round of the loop of `writei`. Zero bytes means that bmap found the disk full, or that the
        copy of a piece that ends after the first `good` bytes has failed. */
    method WriteNext(ip: Inode, off: nat, src: seq<Byte>, tot: nat, good: nat, moved: nat, ghost st: Start,
                     ghost acct: Account)
        returns (m: nat, left: seq<Write>, ghost acct': Account, ghost seen: nat)
      requires Writing(ip, st, off, src, tot, tot, acct) && tot < |src| && outstanding > 0
      modifies this`d, this`writes, ip`addrs
      ensures tot + m <= |src| && Writing(ip, st, off, src, tot + m, seen, acct') && (left == [] ==> seen == tot + m)
      ensures m == 0 && left == [] ==> Full(d, sb) && HoleAt(RowOf(ip), off + tot)
      ensures m != 0 ==> left == [] && tot + m <= good
      ensures left != [] ==> Unlogged(d, RowOf(ip), off, src, tot, moved, left) && good < tot + PieceAt(off, tot, |src|)
    {
      hide Full, Logged, Owned, Used, Bitmap, Touched, Kept, SameOthers, FsOk, Row, Wrote, Filled, Present;
      hide SameBytes, Account.Covers, SlotOf, Ind, IndNew;
      ghost var d0, row0, t0 := d, RowOf(ip), Touched(writes);
      var ok, addr;
      ghost var bms;
      ok, addr, bms := Bmap(ip, (off + tot) / BSIZE);
      ghost var row1 := RowOf(ip);
      OthersTransitive(st.d, d0, d, sb, ip.inum);
      KeptBytes(d0, row0, d, row1, SlotOf((off + tot) / BSIZE));
      KeptFilled(st.row, d0, row0, d, row1, SlotOf((off + tot) / BSIZE));
      left, seen := [], tot;
      if addr == 0 {
        WroteSame(st.d, st.row, d0, row0, d, row1, off, src, tot);
        PresentSame(row0, row1, off, tot);
        acct' := acct.Fail(bms);
        AccountFail(acct, st, row0, row1, t0, Touched(writes), bms, off, tot);
        return 0, [], acct', tot;
      }
      if tot + PieceAt(off, tot, |src|) > good {
        left, acct', seen := DropPiece(ip, off, src, tot, moved, addr, st, acct, d0, row0, t0, bms);
        return 0, left, acct', seen;
      }
      m, acct' := WritePiece(ip, off, src, tot, addr, st, acct, d0, row0, t0, bms);
      seen := tot + m;
    }

    lemma DataBlock(ip: Inode, s: nat)
      requires Inv(ip) && s < SLOTS && RowOf(ip)[s] != 0
      ensures sb.inodestart <= sb.Meta() <= RowOf(ip)[s] < sb.size
    {
      RefFacts(d, sb, ip.inum, ip.Value(), ip.inum, s);
    }

    lemma SlotsDiffer(ip: Inode, s: nat)
      requires Inv(ip) && s < SLOTS && RowOf(ip)[s] != 0
      ensures forall u :: 0 <= u < SLOTS && RowOf(ip)[u] == RowOf(ip)[s] ==> u == s
    {
      forall u | 0 <= u < SLOTS && RowOf(ip)[u] == RowOf(ip)[s]
        ensures u == s
      {
        RefDistinct(d, sb, ip.inum, ip.Value(), ip.inum, u, ip.inum, s);
      }
    }

    /** What the log_write of one's own data block will do. */
    lemma WriteSlotAll(d0: Disk, ip: Inode, s: nat, x: Block)
      requires Inv(ip) && s < SLOTS && s != NDIRECT && RowOf(ip)[s] != 0 && SameOthers(d0, d, sb, ip.inum)
      ensures var e := d[RowOf(ip)[s] := x];
              && FsOk(e, sb, ip.inum, ip.Value()) && SameOthers(d0, e, sb, ip.inum)
              && Row(e, sb, ip.inum, ip.Value(), ip.inum) == RowOf(ip)
    {
      var a, v := RowOf(ip)[s], ip.Value();
      WriteSlot(d, sb, ip.inum, v, s, x);
      OthersTransitive(d0, d, d[a := x], sb, ip.inum);
      assert TableOf(d[a := x], sb, ip.inum, v)[ip.inum] == Row(d[a := x], sb, ip.inum, v, ip.inum);
      assert TableOf(d, sb, ip.inum, v)[ip.inum] == RowOf(ip);
    }

    /** Before the first byte. */
    lemma StartWriting(ip: Inode, off: nat, src: seq<Byte>)
      requires Inv(ip) && off + |src| <= MAXFILE * BSIZE
      ensures Writing(ip, Start(d, RowOf(ip), ip.Value(), Touched(writes)), off, src, 0, 0, Account({}, {}, 0))
    {
      Unchanged(d, sb, ip.inum, ip.Value(), 0);
    }

    /** `writei` in an operation. copyin fails for a piece that ends after the first `good` bytes, with
        `moved` bytes of it moved; then the buffer in `left` keeps them, and the log does not have
        them. What the log has is the file with the first r bytes of src, whatever the reason for
        stopping there. */
    method Writei(ip: Inode, off: Word, src: seq<Byte>, good: nat, moved: nat) returns (r: int, left: seq<Write>)
      requires Inv(ip) && ip.size <= MAXFILE * BSIZE && |src| < 0x1_0000_0000 && outstanding > 0
      modifies this`d, this`writes, ip`addrs, ip`size
      ensures r == -1 <==> Refused(old(ip.size), off, |src|)
      ensures r >= 0 <==> off <= old(ip.size) && off + |src| <= MAXFILE * BSIZE
      ensures r == -1 ==> d == old(d) && writes == old(writes) && ip.Value() == old(ip.Value()) && left == []
      ensures r != -1 ==> 0 <= r <= |src| && r <= good
      ensures r != -1 ==>
              exists seen :: r <= seen <= |src| && (left == [] ==> seen == r)
                             && Written(ip, old(Start(d, RowOf(ip), ip.Value(), Touched(writes))), off, src, r, seen)
      ensures 0 < r < |src| ==> (off + r) % BSIZE == 0
      ensures 0 <= r < |src| && left == [] ==> Full(d, sb) && HoleAt(RowOf(ip), off + r)
      ensures left != [] ==> Unlogged(d, RowOf(ip), off, src, r, moved, left) && good < r + PieceAt(off, r, |src|)
    {
      hide Full, Logged, Owned, Used, Bitmap, Touched, SameOthers, FsOk, Row, Writing, Written, Stopped, Refs;
      left := [];
      if off > ip.size || (off + |src|) % 0x1_0000_0000 < off {
        return -1, left;
      }
      if (off + |src|) % 0x1_0000_0000 > MAXFILE * BSIZE {
        return -1, left;
      }
      ghost var st := Start(d, RowOf(ip), ip.Value(), Touched(writes));
      RowIsRefs(ip);
      var tot;
      ghost var acct, seen;
      tot, left, acct, seen := WriteLoop(ip, off, src, good, moved, st);
      ghost var d1, row1 := d, RowOf(ip);
      LeftBlock(ip, off, src, tot, good, moved, left);
      FinishWrite(ip, off, src, tot, seen, st, acct);
      StoppedStill(d1, d, sb, row1, off, src, tot, good, moved, left);
      r := tot;
    }

    /** The loop of `writei`. */
    method WriteLoop(ip: Inode, off: nat, src: seq<Byte>, good: nat, moved: nat, ghost st: Start)
        returns (tot: nat, left: seq<Write>, ghost acct: Account, ghost seen: nat)
      requires Inv(ip) && off + |src| <= MAXFILE * BSIZE && outstanding > 0
      requires st == Start(d, RowOf(ip), ip.Value(), Touched(writes))
      modifies this`d, this`writes, ip`addrs
      ensures Writing(ip, st, off, src, tot, seen, acct) && Inv(ip)
      ensures Stopped(d, sb, RowOf(ip), off, src, tot, good, moved, left)
      ensures tot <= seen <= |src| && (left == [] ==> seen == tot)
    {
      hide Full, Logged, Owned, Used, Bitmap, Touched, SameOthers, FsOk, Row, Writing, Unlogged, HoleAt, PieceAt;
      tot, left, acct, seen := 0, [], Account({}, {}, 0), 0;
      StartWriting(ip, off, src);
      while tot < |src|
        invariant tot <= |src| && tot <= good && seen == tot && left == [] && Inv(ip)
        invariant Writing(ip, st, off, src, tot, tot, acct)
        decreases |src| - tot
      {
        var m;
        m, left, acct, seen := WriteNext(ip, off, src, tot, good, moved, st, acct);
        SeenFacts(ip, st, off, src, tot + m, seen, acct);
        if m == 0 {
          return;
        }
        tot := tot + m;
      }
      SeenFacts(ip, st, off, src, tot, seen, acct);
    }

    lemma LeftBlock(ip: Inode, off: nat, src: seq<Byte>, tot: nat, good: nat, moved: nat, left: seq<Write>)
      requires Inv(ip) && Stopped(d, sb, RowOf(ip), off, src, tot, good, moved, left)
      ensures left != [] ==>
              off + tot < MAXFILE * BSIZE && sb.Meta() <= RowOf(ip)[SlotOf((off + tot) / BSIZE)] < sb.size
    {
      hide FsOk;
      if left != [] {
        DataBlock(ip, SlotOf((off + tot) / BSIZE));
      }
    }

    lemma SeenFacts(ip: Inode, st: Start, off: nat, src: seq<Byte>, tot: nat, seen: nat, acct: Account)
      requires Writing(ip, st, off, src, tot, seen, acct)
      ensures tot <= seen <= |src| && Inv(ip) && (0 < tot < |src| ==> (off + tot) % BSIZE == 0)
    {
    }

    lemma RowIsRefs(ip: Inode)
      requires Inv(ip)
      ensures |ip.addrs| == NDIRECT + 1 && RowOf(ip) == Refs(d, ip.addrs)
    {
    }

    /** What a completed writei has done: r bytes of src are in the file at off and no other
        file has changed; the disk has the inode; a file without holes still has none; and
        the blocks logged are few, no more than `seen` bytes may take. */
    ghost predicate Written(ip: Inode, st: Start, off: nat, src: seq<Byte>, r: nat, seen: nat)
      reads this, ip
    {
      && Inv(ip) && |st.row| == SLOTS && |st.v.addrs| == NDIRECT + 1 && st.v.size <= MAXFILE * BSIZE && off <= st.v.size
      && r <= |src|
      && ip.size == (if off + r > st.v.size then off + r else st.v.size)
      && ip.Value() == st.v.(addrs := ip.addrs, size := ip.size)
      && ip.size <= MAXFILE * BSIZE && DiskInode(d, sb, ip.inum) == ip.Value()
      && Content(d, ip.Value()) == Splice(Content(st.d, st.v), off, src[..r])
      && SameOthers(st.d, d, sb, ip.inum)
      && (HoleFree(st.row, st.v.size) ==> HoleFree(RowOf(ip), ip.size))
      && (st.touched == {} ==> |Touched(writes)| <= 2 * Spanned(off, seen) + 3)
      && (st.touched == {} && HoleFree(st.row, st.v.size) && off % BSIZE != 0 && seen > 0 ==>
         |Touched(writes)| <= 2 * Spanned(off, seen) + 2)
    }

    /** The end of writei: the new size, and iupdate. */
    method FinishWrite(ip: Inode, off: nat, src: seq<Byte>, tot: nat, ghost seen: nat, ghost st: Start,
                       ghost acct: Account)
      requires Writing(ip, st, off, src, tot, seen, acct) && off <= st.v.size <= MAXFILE * BSIZE
      requires |st.v.addrs| == NDIRECT + 1 && st.row == Refs(st.d, st.v.addrs) && outstanding > 0
      modifies this`d, this`writes, ip`size
      ensures Written(ip, st, off, src, tot, seen)
      ensures Full(old(d), sb) ==> Full(d, sb)
      ensures RowOf(ip) == old(RowOf(ip)) && DataKept(old(d), d, sb)
    {
      hide Full, Logged, Owned, Used, Bitmap, Touched, SameOthers, FsOk, Wrote, Filled, Present;
      hide Account.Covers, HoleFree, Content, Updated, Splice, Spanned;
      ghost var v, row, touched := ip.Value(), RowOf(ip), Touched(writes);
      RowFacts(ip);
      if off + tot > ip.size {
        ip.size := off + tot;
      }
      Concluded(d, sb, ip.inum, v, ip.Value(), st, off, src, tot);
      UpdatedFull(d, sb, ip.inum, ip.Value());
      UpdatedData(d, sb, ip.inum, ip.Value());
      Iupdate(ip);
      if HoleFree(st.row, st.v.size) {
        StillHoleFree(st.row, st.v.size, row, off, tot);
      }
      if st.touched == {} {
        LoggedInAll(acct, st, row, touched, off, seen, sb.InodeBlock(ip.inum));
      }
    }

    // ----- readi

    /** readi has read `dst`: the file reads as before, and if nothing was missing nothing has
        been written. */
    ghost predicate Reading(ip: Inode, st: Start, off: nat, dst: seq<Byte>)
      reads this, ip
    {
      && Inv(ip) && |st.v.addrs| == NDIRECT + 1 && st.row == Refs(st.d, st.v.addrs)
      && ip.Value() == st.v.(addrs := ip.addrs) && ip.size <= MAXFILE * BSIZE && SameOthers(st.d, d, sb, ip.inum)
      && SameBytes(st.d, st.row, d, RowOf(ip))
      && ReadFrom(st.d, st.row, off, dst)
      && (HoleFree(st.row, ip.size) ==> d == st.d && ip.Value() == st.v && Touched(writes) == st.touched)
    }

    /** One round of the loop of `readi`: at most n bytes from off + |dst| on, all of one block. No
        bytes means that bmap found the disk full. */
    method ReadNext(ip: Inode, off: nat, dst: seq<Byte>, n: nat, ghost st: Start) returns (ok: bool, piece: seq<Byte>)
      requires Reading(ip, st, off, dst) && 0 < n && off + |dst| + n <= ip.size
      modifies this`d, this`writes, ip`addrs
      ensures ok <==> outstanding > 0 || !HoleAt(old(RowOf(ip)), off + |dst|) || Full(old(d), sb)
      ensures outstanding == 0 ==> Untouched(ip, old(d), old(writes), old(ip.addrs))
      ensures Reading(ip, st, off, dst + piece) && |piece| <= PieceAt(off, |dst|, |dst| + n)
      ensures piece != [] ==> |piece| == PieceAt(off, |dst|, |dst| + n)
      ensures ok && piece == [] ==> HoleAt(old(RowOf(ip)), off + |dst|) && Full(d, sb)
      ensures ok && piece == [] ==> !HoleFree(st.row, ip.size)
      ensures outstanding == 0 && piece != [] ==> !HoleAt(old(RowOf(ip)), off + |dst|)
      ensures Filled(old(RowOf(ip)), RowOf(ip)) && (piece != [] ==> !HoleAt(RowOf(ip), off + |dst|))
      ensures ip.addrs != old(ip.addrs) <==>
              outstanding > 0 && !Full(old(d), sb) && Bare(old(RowOf(ip)), (off + |dst|) / BSIZE)
      ensures outstanding == 0 || Full(old(d), sb) || !HoleAt(old(RowOf(ip)), off + |dst|) ==>
              Untouched(ip, old(d), old(writes), old(ip.addrs))
      ensures DiskInode(d, sb, ip.inum) == old(DiskInode(d, sb, ip.inum))
    {
      hide Full, Logged, Owned, Used, Bitmap, Touched, Kept, SameOthers, FsOk, Row, SlotOf, SameBytes, Refs, ReadFrom;
      hide Filled, Bare;
      ghost var d0, row0 := d, RowOf(ip);
      var pos := off + |dst|;
      RowIsRefs(ip);
      assert HoleFree(st.row, ip.size) ==> row0 == st.row && row0[SlotOf(pos / BSIZE)] != 0 by {
        assert pos / BSIZE * BSIZE <= pos;
      }
      var addr;
      ghost var bms;
      ok, addr, bms := Bmap(ip, pos / BSIZE);
      RowFacts(ip);
      OthersTransitive(st.d, d0, d, sb, ip.inum);
      KeptBytes(d0, row0, d, RowOf(ip), SlotOf(pos / BSIZE));
      FilledSelf(row0);
      KeptFilled(row0, d0, row0, d, RowOf(ip), SlotOf(pos / BSIZE));
      SameBytesTransitive(st.d, st.row, d0, row0, d, RowOf(ip));
      if addr == 0 || !ok {
        assert dst + [] == dst;
        return ok, [];
      }
      var m := PieceAt(off, |dst|, |dst| + n);
      piece := d[addr][pos % BSIZE..pos % BSIZE + m];
      ReadMore(st.d, st.row, d, RowOf(ip), off, dst, m);
    }

    /** `readi`: the slice of the file, clipped to its end. copyout fails for a piece that ends after the
        first `good` bytes; then readi returns -1, here `failed`. Reading a file without holes changes
        nothing. In an operation a hole gets a block of zeros, and the read stops short only if there
        is no block left for it. fileread and the page fault handler call readi outside an operation:
        then it panics exactly if it meets a hole, a block is free for it, and no other process is in
        an operation either. The blocks it has read are there afterwards. A hole that is filled
        through the inode's own addresses is not on disk, since readi does not call iupdate: that
        happens exactly if an operation is in progress, a block is free, and it meets such a hole. Then
        the disk by itself is not consistent, for the block is in use and no inode on disk has it. */
    method Readi(ip: Inode, off: Word, n: Word, good: nat) returns (ok: bool, failed: bool, dst: seq<Byte>)
      requires Inv(ip) && ip.size <= MAXFILE * BSIZE
      modifies this`d, this`writes, ip`addrs
      ensures var reach := Reach(off, Clip(ip.size, off, n), good);
              ok <==> outstanding > 0 || Full(old(d), sb) || !MeetsHole(old(RowOf(ip)), off, reach)
      ensures Inv(ip) && ip.Value() == old(ip.Value()).(addrs := ip.addrs) && SameOthers(old(d), d, sb, ip.inum)
      ensures Content(d, ip.Value()) == old(Content(d, ip.Value()))
      ensures |dst| <= Clip(ip.size, off, n) && |dst| <= good
      ensures off > ip.size || off + n >= 0x1_0000_0000 ==> ok && !failed && dst == []
      ensures off <= ip.size && off + n < 0x1_0000_0000 && ok && !failed ==>
              |dst| == n || off + |dst| == ip.size || (!HoleFree(old(RowOf(ip)), ip.size) && Full(d, sb))
      ensures (dst == [] || (off + |dst| <= ip.size && dst == Content(d, ip.Value())[off..off + |dst|]))
      ensures failed ==> ok && good < Clip(ip.size, off, n)
      ensures ok && !failed && |dst| < Clip(ip.size, off, n) ==> !HoleFree(old(RowOf(ip)), ip.size) && Full(d, sb)
      ensures HoleFree(old(RowOf(ip)), ip.size) ==> d == old(d) && ip.addrs == old(ip.addrs)
      ensures HoleFree(old(RowOf(ip)), ip.size) ==> Touched(writes) == old(Touched(writes))
      ensures outstanding == 0 ==> Untouched(ip, old(d), old(writes), old(ip.addrs))
      ensures !MeetsHole(RowOf(ip), off, |dst|) && Filled(old(RowOf(ip)), RowOf(ip))
      ensures DiskInode(d, sb, ip.inum) == old(DiskInode(d, sb, ip.inum))
      ensures var reach := Reach(off, Clip(ip.size, off, n), good);
              ip.addrs != old(ip.addrs) <==>
                outstanding > 0 && !Full(old(d), sb) && MeetsBare(old(RowOf(ip)), off, reach)
      ensures old(DiskInode(d, sb, ip.inum) == ip.Value()) ==>
              (FsOk(d, sb, ip.inum, DiskInode(d, sb, ip.inum)) <==> ip.addrs == old(ip.addrs))
    {
      hide Full, Logged, Owned, Used, Bitmap, Touched, SameOthers, FsOk, Reading, HoleFree, Content, Row;
      hide MeetsHole, Reach, MeetsBare, Filled;
      ghost var st := Start(d, RowOf(ip), ip.Value(), Touched(writes));
      ok, failed, dst := true, false, [];
      RowIsRefs(ip);
      RowFacts(ip);
      StartReading(ip, off);
      NoHoleIn(RowOf(ip), off, good);
      FilledSelf(RowOf(ip));
      if off > ip.size || (off + n) % 0x1_0000_0000 < off {
        return;
      }
      var len: nat := if off + n > ip.size then ip.size - off else n;
      ok, failed, dst := ReadLoop(ip, off, len, good, st);
      EndReading(ip, st, off, dst);
      OnDiskOnly(ip, st.v, st.row);
    }

    lemma OnDiskOnly(ip: Inode, v0: Dinode, row0: seq<Word>)
      requires Inv(ip) && |v0.addrs| == NDIRECT + 1 && Filled(row0, RowOf(ip))
      requires forall s :: 0 <= s <= NDIRECT ==> row0[s] == v0.addrs[s]
      ensures FsOk(d, sb, ip.inum, v0) <==> ip.addrs == v0.addrs
    {
      hide FsOk;
      RowFacts(ip);
      DiskBehind(d, sb, ip.inum, ip.Value(), v0);
    }

    /** The loop of `readi` goes on with dst read: as many bytes as its pieces have, no hole among them
        any more, and none met outside an operation. */
    ghost predicate Underway(ip: Inode, st: Start, off: nat, dst: seq<Byte>, len: nat, good: nat, writes0: seq<Write>)
      reads this, ip
    {
      && Reading(ip, st, off, dst) && |dst| <= len && |dst| <= good && off + len <= ip.size && |st.row| == SLOTS
      && Inv(ip) && SameOnDisk(ip, st.d) && Trail(st, sb, d, RowOf(ip), ip.addrs, off, |dst|, outstanding > 0)
      && (outstanding == 0 ==> Untouched(ip, st.d, writes0, st.v.addrs) && !MeetsHole(st.row, off, |dst|))
    }

    /** What the loop of `readi` has done when it ends. */
    ghost predicate ReadDone(ip: Inode, st: Start, off: nat, len: nat, good: nat, writes0: seq<Write>,
                             ok: bool, failed: bool, dst: seq<Byte>)
      reads this, ip
    {
      && Reading(ip, st, off, dst) && |dst| <= len && |dst| <= good && |st.row| == SLOTS
      && (ok <==> outstanding > 0 || Full(st.d, sb) || !MeetsHole(st.row, off, Reach(off, len, good)))
      && (failed ==> ok && good < len)
      && (ok && !failed && |dst| < len ==> !HoleFree(st.row, ip.size) && Full(d, sb))
      && (outstanding == 0 ==> Untouched(ip, st.d, writes0, st.v.addrs))
      && Inv(ip) && SameOnDisk(ip, st.d) && !MeetsHole(RowOf(ip), off, |dst|) && Filled(st.row, RowOf(ip))
      && Settled(st, sb, ip.addrs, off, Reach(off, len, good), outstanding > 0)
    }

    /** The loop of `readi`. */
    method ReadLoop(ip: Inode, off: nat, len: nat, good: nat, ghost st: Start)
        returns (ok: bool, failed: bool, dst: seq<Byte>)
      requires Reading(ip, st, off, []) && st == Start(d, RowOf(ip), ip.Value(), Touched(writes))
      requires off + len <= ip.size
      modifies this`d, this`writes, ip`addrs
      ensures ReadDone(ip, st, off, len, good, old(writes), ok, failed, dst)
    {
      hide Underway, ReadDone, Reading, Inv, RowOf;
      ok, failed, dst := true, false, [];
      StartUnderway(ip, off, len, good, st);
      while |dst| < len
        invariant Underway(ip, st, off, dst, len, good, old(writes)) && |dst| <= len && ok && !failed
        decreases len - |dst|
      {
        var more, piece;
        ok, failed, more, piece := ReadRound(ip, off, dst, len, good, st, old(writes));
        if !more {
          return;
        }
        dst := dst + piece;
      }
      AllRead(ip, st, off, dst, len, good, old(writes));
    }

    lemma StartUnderway(ip: Inode, off: nat, len: nat, good: nat, st: Start)
      requires Reading(ip, st, off, []) && st == Start(d, RowOf(ip), ip.Value(), Touched(writes))
      requires off + len <= ip.size
      ensures Underway(ip, st, off, [], len, good, writes)
    {
      hide Reading, FsOk, Logged, Row, Trail, MeetsHole;
      ReadingShape(ip, st, off, []);
      OnDiskSelf(ip);
      TrailStart(st, sb, ip.addrs, off, outstanding > 0);
    }

    lemma AllRead(ip: Inode, st: Start, off: nat, dst: seq<Byte>, len: nat, good: nat, writes0: seq<Write>)
      requires Underway(ip, st, off, dst, len, good, writes0) && |dst| == len
      ensures ReadDone(ip, st, off, len, good, writes0, true, false, dst)
    {
      hide Reading, FsOk, Logged, Row, Trail, MeetsHole, Reach, Settled, Full, HoleFree, Filled;
      NoHoleBefore(st.row, off, |dst|, len, good);
      TrailSettled(st, sb, d, RowOf(ip), ip.addrs, off, |dst|, outstanding > 0);
    }

    /** A round of the loop of `readi`. */
    method ReadRound(ip: Inode, off: nat, dst: seq<Byte>, len: nat, good: nat, ghost st: Start,
                     ghost writes0: seq<Write>)
        returns (ok: bool, failed: bool, more: bool, piece: seq<Byte>)
      requires Underway(ip, st, off, dst, len, good, writes0) && |dst| < len
      modifies this`d, this`writes, ip`addrs
      ensures more ==> piece != [] && |dst + piece| <= len && ok && !failed
      ensures more ==> Underway(ip, st, off, dst + piece, len, good, writes0)
      ensures !more ==> ReadDone(ip, st, off, len, good, writes0, ok, failed, dst)
    {
      hide Full, Logged, Owned, Used, Bitmap, Touched, SameOthers, FsOk, Reading, HoleFree, Row, HoleAt;
      hide MeetsHole, Reach, PieceAt, Trail, Settled, Filled;
      ghost var d1 := d;
      var k := |dst|;
      ReadingShape(ip, st, off, dst);
      ok, piece := ReadStep(ip, off, dst, len, good, st);
      ReadingShape(ip, st, off, dst + piece);
      OnDiskStill(ip, st.d, d1);
      ReachSteps(off, k, |piece|, len, good);
      HoleSteps(st.row, off, k, |piece|, Reach(off, len, good));
      failed := ok && k + |piece| > good;
      more := ok && !failed && piece != [];
      if !more {
        ReadingPrefix(ip, st, off, dst, piece);
        FewerHoles(RowOf(ip), off, k, k + |piece|);
        if piece != [] || !ok {
          TrailSettled(st, sb, d, RowOf(ip), ip.addrs, off, k + |piece|, outstanding > 0);
          SettledOutside(st, sb, ip.addrs, off, k + |piece|, Reach(off, len, good), outstanding > 0);
        }
      }
    }

    /** A round of the loop, and what it means for the disk's own inode. */
    method ReadStep(ip: Inode, off: nat, dst: seq<Byte>, len: nat, good: nat, ghost st: Start)
        returns (ok: bool, piece: seq<Byte>)
      requires Reading(ip, st, off, dst) && |dst| < len && |dst| <= good && off + len <= ip.size
      requires Inv(ip) && Trail(st, sb, d, RowOf(ip), ip.addrs, off, |dst|, outstanding > 0)
      modifies this`d, this`writes, ip`addrs
      ensures ok <==> outstanding > 0 || !HoleAt(old(RowOf(ip)), off + |dst|) || Full(old(d), sb)
      ensures outstanding == 0 ==> Untouched(ip, old(d), old(writes), old(ip.addrs))
      ensures Reading(ip, st, off, dst + piece) && |piece| <= PieceAt(off, |dst|, len)
      ensures piece != [] ==> |piece| == PieceAt(off, |dst|, len)
      ensures ok && piece == [] ==> Full(d, sb) && !HoleFree(st.row, ip.size)
      ensures ok && piece == [] ==> outstanding > 0 || HoleAt(old(RowOf(ip)), off + |dst|)
      ensures outstanding == 0 && piece != [] ==> !HoleAt(old(RowOf(ip)), off + |dst|)
      ensures Inv(ip) && SameOnDisk(ip, old(d))
      ensures !MeetsHole(RowOf(ip), off, |dst| + |piece|) && Filled(st.row, RowOf(ip)) && |ip.addrs| == NDIRECT + 1
      ensures piece != [] || !ok ==> Trail(st, sb, d, RowOf(ip), ip.addrs, off, |dst| + |piece|, outstanding > 0)
      ensures ok && piece == [] ==> Settled(st, sb, ip.addrs, off, Reach(off, len, good), outstanding > 0)
    {
      hide Full, Logged, Owned, Used, Bitmap, Touched, SameOthers, FsOk, Reading, HoleFree, Row, HoleAt, Refs;
      hide MeetsHole, Reach, PieceAt, Trail, Settled, Filled, Bare;
      ghost var d0, row0, addrs0 := d, RowOf(ip), ip.addrs;
      ReadingShape(ip, st, off, dst);
      RowFacts(ip);
      ReadingAddrs(ip, st, off, dst);
      ok, piece := ReadNext(ip, off, dst, len - |dst|, st);
      ReadingShape(ip, st, off, dst + piece);
      RowFacts(ip);
      ReachSteps(off, |dst|, |piece|, len, good);
      TrailSettled(st, sb, d0, row0, addrs0, off, |dst|, outstanding > 0);
      if piece != [] {
        TrailNext(st, sb, d0, row0, addrs0, d, RowOf(ip), ip.addrs, off, |dst|, |piece|, outstanding > 0);
        TrailSettled(st, sb, d, RowOf(ip), ip.addrs, off, |dst| + |piece|, outstanding > 0);
      } else if ok {
        TrailStop(st, sb, d0, row0, addrs0, RowOf(ip), ip.addrs, off, |dst|, Reach(off, len, good), outstanding > 0);
      }
    }

    /** The disk's own copy of the inode is what it was on d0. */
    ghost predicate SameOnDisk(ip: Inode, d0: Disk)
      reads this
    {
      && sb.Laid(d) && sb.Laid(d0) && ip.inum < sb.ninodes
      && DiskInode(d, sb, ip.inum) == DiskInode(d0, sb, ip.inum)
    }

    lemma OnDiskSelf(ip: Inode)
      requires Inv(ip)
      ensures SameOnDisk(ip, d)
    {
    }

    lemma OnDiskStill(ip: Inode, d0: Disk, d1: Disk)
      requires SameOnDisk(ip, d1) && sb.Laid(d0) && DiskInode(d1, sb, ip.inum) == DiskInode(d0, sb, ip.inum)
      ensures SameOnDisk(ip, d0)
    {
    }

    lemma ReadingAddrs(ip: Inode, st: Start, off: nat, dst: seq<Byte>)
      requires Reading(ip, st, off, dst)
      ensures |st.v.addrs| == NDIRECT + 1 && |st.row| == SLOTS
      ensures forall s :: 0 <= s <= NDIRECT ==> st.row[s] == st.v.addrs[s]
    {
    }

    lemma ReadingShape(ip: Inode, st: Start, off: nat, dst: seq<Byte>)
      requires Reading(ip, st, off, dst)
      ensures Inv(ip) && |st.row| == SLOTS && ip.size == st.v.size && ip.size <= MAXFILE * BSIZE
      ensures d == st.d && ip.addrs == st.v.addrs ==> RowOf(ip) == st.row
    {
    }

    lemma ReadingPrefix(ip: Inode, st: Start, off: nat, dst: seq<Byte>, piece: seq<Byte>)
      requires Reading(ip, st, off, dst + piece)
      ensures Reading(ip, st, off, dst)
    {
      hide FsOk, SameOthers, HoleFree, Logged, SameBytes, FileByte;
      assert forall i :: 0 <= i < |dst| ==> (dst + piece)[i] == dst[i];
    }

    lemma StartReading(ip: Inode, off: nat)
      requires Inv(ip) && ip.size <= MAXFILE * BSIZE
      ensures off <= ip.size ==> Reading(ip, Start(d, RowOf(ip), ip.Value(), Touched(writes)), off, [])
      ensures SameOthers(d, d, sb, ip.inum)
    {
      Unchanged(d, sb, ip.inum, ip.Value(), 0);
    }

    lemma EndReading(ip: Inode, st: Start, off: nat, dst: seq<Byte>)
      requires Reading(ip, st, off, dst) && off + |dst| <= ip.size
      ensures |st.v.addrs| == NDIRECT + 1 && st.v.size <= MAXFILE * BSIZE
      ensures Inv(ip) && ip.Value() == st.v.(addrs := ip.addrs) && SameOthers(st.d, d, sb, ip.inum)
      ensures |ip.addrs| == NDIRECT + 1 && ip.size <= MAXFILE * BSIZE
      ensures Content(d, ip.Value()) == Content(st.d, st.v) && dst == Content(d, ip.Value())[off..off + |dst|]
      ensures HoleFree(st.row, ip.size) ==> d == st.d && ip.addrs == st.v.addrs && Touched(writes) == st.touched
    {
      hide FsOk, SameOthers, HoleFree;
      assert RowOf(ip) == Refs(d, ip.addrs) by {
        RowIsRefs(ip);
      }
      forall o | 0 <= o < ip.size
        ensures Content(d, ip.Value())[o] == Content(st.d, st.v)[o]
      {
        assert FileByte(d, RowOf(ip), o) == FileByte(st.d, st.row, o);
      }
    }

    // ----- itrunc

    /** The log writes of itrunc so far are to bitmap blocks. */
    ghost predicate OnlyBitmaps(touched: set<nat>)
      reads this
    {
      forall b :: b in Touched(writes) && b !in touched ==> sb.bmapstart <= b < sb.Meta()
    }

    /** bfree of the block in slot s. It does not panic. */
    method FreeSlot(ip: Inode, s: nat, b: nat, ghost st: Start, ghost row: seq<Word>)
      requires Truncating(st, sb, ip.inum, d, row) && s < SLOTS && row[s] == b != 0 && OnlyBitmaps(st.touched)
      requires Logged() && outstanding > 0
      modifies this`d, this`writes
      ensures Truncating(st, sb, ip.inum, d, row[s := 0]) && OnlyBitmaps(st.touched) && Logged()
    {
      hide Logged, Owned, Used, Touched, Truncating;
      TruncateSlot(st, sb, ip.inum, d, row, s);
      TruncatingLaid(ip, st, row);
      var ok := Bfree(b);
      assert ok;
    }

    lemma TruncatingLaid(ip: Inode, st: Start, row: seq<Word>)
      requires Truncating(st, sb, ip.inum, d, row)
      ensures sb.Laid(d)
    {
    }

    /** The loop of `itrunc` over the direct addresses has reached i. */
    ghost predicate Direct(ip: Inode, st: Start, row: seq<Word>, i: nat)
      reads this, ip
    {
      && Truncating(st, sb, ip.inum, d, row) && OnlyBitmaps(st.touched) && Logged() && i <= NDIRECT
      && |ip.addrs| == NDIRECT + 1
      && (forall u :: 0 <= u < SLOTS ==> row[u] == if u < i then 0 else st.row[u])
      && (forall u :: 0 <= u <= NDIRECT ==> ip.addrs[u] == row[u])
    }

    method TruncDirect(ip: Inode, ghost st: Start) returns (ghost row: seq<Word>)
      requires Direct(ip, st, st.row, 0) && outstanding > 0
      modifies this`d, this`writes, ip`addrs
      ensures Direct(ip, st, row, NDIRECT)
    {
      hide Truncating, OnlyBitmaps, Logged;
      row := st.row;
      for i := 0 to NDIRECT
        invariant Direct(ip, st, row, i)
      {
        DirectShape(ip, st, row, i);
        if ip.addrs[i] != 0 {
          FreeSlot(ip, i, ip.addrs[i], st, row);
          ip.addrs := ip.addrs[i := 0];
          row := row[i := 0];
        }
      }
    }

    lemma DirectShape(ip: Inode, st: Start, row: seq<Word>, i: nat)
      requires Direct(ip, st, row, i)
      ensures |row| == SLOTS && |st.row| == SLOTS
    {
    }

    /** The loop of `itrunc` over the indirect block has reached entry j. */
    ghost predicate Indirect(ip: Inode, st: Start, row: seq<Word>, j: nat, ind: nat)
      reads this, ip
    {
      && Truncating(st, sb, ip.inum, d, row) && OnlyBitmaps(st.touched) && Logged() && j <= NINDIRECT
      && (forall u :: 0 <= u < SLOTS ==> row[u] == if u < NDIRECT || NDIRECT < u <= NDIRECT + j then 0 else st.row[u])
      && row[NDIRECT] == ind != 0
    }

    method TruncIndirect(ip: Inode, ind: nat, bp: Block, ghost st: Start, ghost row0: seq<Word>)
        returns (ghost row: seq<Word>)
      requires Indirect(ip, st, row0, 0, ind) && outstanding > 0
      requires forall j :: 0 <= j < NINDIRECT ==> WordAt(bp, j) == st.row[NDIRECT + 1 + j]
      modifies this`d, this`writes
      ensures Indirect(ip, st, row, NINDIRECT, ind)
    {
      hide Truncating, OnlyBitmaps, WordAt, Logged;
      row := row0;
      for j := 0 to NINDIRECT
        invariant Indirect(ip, st, row, j, ind)
      {
        IndirectShape(ip, st, row, j, ind);
        if WordAt(bp, j) != 0 {
          FreeSlot(ip, NDIRECT + 1 + j, WordAt(bp, j), st, row);
          row := row[NDIRECT + 1 + j := 0];
        }
      }
    }

    lemma IndirectShape(ip: Inode, st: Start, row: seq<Word>, j: nat, ind: nat)
      requires Indirect(ip, st, row, j, ind)
      ensures |row| == SLOTS && |st.row| == SLOTS
    {
    }

    /** `itrunc` in an operation: no panic, the file is empty and on disk, exactly its blocks are free again, no
        other file has changed, and only bitmap blocks and the inode's block are logged. */
    method Itrunc(ip: Inode)
      requires Inv(ip) && outstanding > 0
      modifies this`d, this`writes, ip`addrs, ip`size
      ensures Inv(ip) && ip.size == 0 && ip.Value() == old(ip.Value()).(size := 0, addrs := ip.addrs)
      ensures DiskInode(d, sb, ip.inum) == ip.Value()
      ensures forall s :: 0 <= s <= NDIRECT ==> ip.addrs[s] == 0
      ensures SameOthers(old(d), d, sb, ip.inum)
      ensures forall b :: 0 < b < sb.size ==> (Used(d, sb, b) <==> Used(old(d), sb, b) && b !in old(RowOf(ip)))
      ensures forall b :: b in Touched(writes) && b !in old(Touched(writes)) ==>
              sb.bmapstart <= b < sb.Meta() || b == sb.InodeBlock(ip.inum)
    {
      hide Logged, Truncating, Owned, Used, Touched, SameOthers, FsOk, Refs, Row, WordAt;
      ghost var st := Start(d, RowOf(ip), ip.Value(), Touched(writes));
      StartTruncating(d, sb, ip.inum, ip.Value(), Touched(writes));
      RowFacts(ip);
      ghost var row := TruncDirect(ip, st);
      DirectShape(ip, st, row, NDIRECT);
      if ip.addrs[NDIRECT] != 0 {
        var ind := ip.addrs[NDIRECT];
        TruncateSlot(st, sb, ip.inum, d, row, NDIRECT);
        TruncatingLaid(ip, st, row);
        EntryWords(ip, st, row, ind);
        row := TruncIndirect(ip, ind, d[ind], st, row);
        IndirectShape(ip, st, row, NINDIRECT, ind);
        FreeSlot(ip, NDIRECT, ind, st, row);
        ip.addrs := ip.addrs[NDIRECT := 0];
        row := row[NDIRECT := 0];
      }
      ip.size := 0;
      Truncated(st, sb, ip.inum, d, row, ip.Value());
      TruncUpdate(ip, st);
      Iupdate(ip);
    }

    lemma EntryWords(ip: Inode, st: Start, row: seq<Word>, ind: nat)
      requires Truncating(st, sb, ip.inum, d, row) && ind == st.row[NDIRECT] != 0
      ensures ind < |d| && forall j :: 0 <= j < NINDIRECT ==> WordAt(d[ind], j) == st.row[NDIRECT + 1 + j]
    {
      RefFacts(st.d, sb, ip.inum, st.v, ip.inum, NDIRECT);
      assert d[ind] == st.d[ind];
    }

    lemma TruncUpdate(ip: Inode, st: Start)
      requires Inv(ip) && SameOthers(st.d, d, sb, ip.inum)
      ensures var e := Updated(d, sb, ip.inum, ip.Value());
              && FsOk(e, sb, ip.inum, ip.Value()) && DiskInode(e, sb, ip.inum) == ip.Value()
              && SameOthers(st.d, e, sb, ip.inum)
              && forall b :: 0 <= b < sb.size ==> Used(e, sb, b) == Used(d, sb, b)
    {
      UpdatedOk(d, sb, ip.inum, ip.Value());
      UpdatedUsed(d, sb, ip.inum, ip.Value());
      OthersTransitive(st.d, d, Updated(d, sb, ip.inum, ip.Value()), sb, ip.inum);
    }
  }

  /** How far a read of n bytes at off gets if copying out fails for the piece with byte `good`: to the
      end of that piece. */
  function Reach(off: nat, n: nat, good: nat): nat {
    if good >= n then n else good + PieceAt(off, good, n)
  }

  /** The piece of m bytes after the first k: where it ends, seen from where reading will stop. */
  lemma ReachSteps(off: nat, k: nat, m: nat, len: nat, good: nat)
    requires k < len && k <= good && m <= PieceAt(off, k, len)
    ensures k < Reach(off, len, good) <= len && k + m <= Reach(off, len, good) && (off + k) % BSIZE + m <= BSIZE
    ensures m == PieceAt(off, k, len) && k + m > good ==> k + m == Reach(off, len, good)
    ensures m == PieceAt(off, k, len) && k + m < len ==> (off + k + m) % BSIZE == 0
  {
  }

  /** How many of n bytes at off a file of the given size has. */
  function Clip(size: Word, off: Word, n: Word): (r: nat)
    ensures off > size || off + n >= 0x1_0000_0000 ==> r == 0
    ensures off <= size && off + n < 0x1_0000_0000 ==> r <= n && off + r <= size && (r == n || off + r == size)
  {
    if off > size || (off + n) % 0x1_0000_0000 < off then 0
    else if off + n > size then size - off
    else n
  }

  /** The size of the piece of n bytes at off that starts with byte tot: up to the end of the block. */
  function PieceAt(off: nat, tot: nat, n: nat): nat
    requires tot <= n
  {
    if n - tot < BSIZE - (off + tot) % BSIZE then n - tot else BSIZE - (off + tot) % BSIZE
  }

  /** What a failed copy leaves behind: the block of the next byte of the file, with at most the bytes
      of one piece in it that the log does not know of. */
  ghost predicate Unlogged(d: Disk, row: seq<Word>, off: nat, src: seq<Byte>, tot: nat, moved: nat, left: seq<Write>) {
    && |row| == SLOTS && off + tot < MAXFILE * BSIZE && tot < |src| && |left| == 1
    && var addr, m := row[SlotOf((off + tot) / BSIZE)], PieceAt(off, tot, |src|);
       var k := if moved < m then moved else m;
       0 < addr < |d| && left[0] == Write(addr, PutBytes(d[addr], (off + tot) % BSIZE, src[tot..tot + k]))
  }

  /** Why the loop of `writei` has stopped after tot bytes: all are written, the disk is full at a hole,
      or a copy has failed. */
  ghost predicate Stopped(d: Disk, sb: Superblock, row: seq<Word>, off: nat, src: seq<Byte>, tot: nat, good: nat,
                          moved: nat, left: seq<Write>) {
    && |row| == SLOTS && tot <= |src| && tot <= good && (0 < tot < |src| ==> (off + tot) % BSIZE == 0)
    && (tot < |src| && left == [] ==> Full(d, sb) && HoleAt(row, off + tot))
    && (left != [] ==> Unlogged(d, row, off, src, tot, moved, left) && good < tot + PieceAt(off, tot, |src|))
  }

  /** iupdate changes nothing about that. */
  lemma StoppedStill(d: Disk, e: Disk, sb: Superblock, row: seq<Word>, off: nat, src: seq<Byte>, tot: nat, good: nat,
                     moved: nat, left: seq<Write>)
    requires Stopped(d, sb, row, off, src, tot, good, moved, left) && DataKept(d, e, sb)
    requires Full(d, sb) ==> Full(e, sb)
    requires left != [] ==> off + tot < MAXFILE * BSIZE && sb.Meta() <= row[SlotOf((off + tot) / BSIZE)] < sb.size
    ensures tot <= |src| && tot <= good && (0 < tot < |src| ==> (off + tot) % BSIZE == 0)
    ensures |row| == SLOTS && (tot < |src| && left == [] ==> Full(e, sb) && HoleAt(row, off + tot))
    ensures left != [] ==> Unlogged(e, row, off, src, tot, moved, left) && good < tot + PieceAt(off, tot, |src|)
  {
    hide PutBytes, SlotOf, Full;
  }

  /** The two early returns of writei: a gap after the end, a 32-bit overflow, or too far. */
  predicate Refused(size: Word, off: Word, n: nat) {
    off > size || (off + n) % 0x1_0000_0000 < off || off + n > MAXFILE * BSIZE
  }

  lemma TouchedTwo(ws: seq<Write>, ws': seq<Write>)
    requires |ws'| == |ws| + 2 && ws'[..|ws|] == ws
    ensures Touched(ws') == Touched(ws) + {ws'[|ws|].at} + {ws'[|ws| + 1].at}
  {
    TouchedAppend(ws, ws'[|ws|]);
    TouchedAppend(ws + [ws'[|ws|]], ws'[|ws| + 1]);
    assert ws' == ws + [ws'[|ws|]] + [ws'[|ws| + 1]];
  }

  /** The byte at o is in a block that has not been allocated. */
  predicate HoleAt(row: seq<Word>, o: nat)
    requires |row| == SLOTS
  {
    o / BSIZE < MAXFILE && row[SlotOf(o / BSIZE)] == 0
  }

  /** File block bn is missing, and its address would go into the inode: it is a direct block, or there
      is no indirect block yet. */
  predicate Bare(row: seq<Word>, bn: nat)
    requires |row| == SLOTS
  {
    bn < MAXFILE && row[SlotOf(bn)] == 0 && (bn < NDIRECT || row[NDIRECT] == 0)
  }

  /** One of the n bytes at off is in such a block. */
  ghost predicate MeetsBare(row: seq<Word>, off: nat, n: nat)
    requires |row| == SLOTS
  {
    exists o :: off <= o < off + n && HoleAt(row, o) && Bare(row, o / BSIZE)
  }

  /** One of the n bytes at off is in a hole. */
  ghost predicate MeetsHole(row: seq<Word>, off: nat, n: nat)
    requires |row| == SLOTS
  {
    exists o :: off <= o < off + n && HoleAt(row, o)
  }

  lemma NoHoleIn(row: seq<Word>, off: nat, good: nat)
    requires |row| == SLOTS
    ensures !MeetsHole(row, off, 0) && !MeetsBare(row, off, 0) && Reach(off, 0, good) == 0
  {
  }

  /** A read that was not stopped has been as far as it could. */
  lemma NoHoleBefore(row: seq<Word>, off: nat, n: nat, len: nat, good: nat)
    requires |row| == SLOTS && n <= good && n <= len
    ensures n == len ==> Reach(off, len, good) == n
  {
  }

  /** m more bytes of one block, or none because of a hole. */
  lemma HoleSteps(row: seq<Word>, off: nat, k: nat, m: nat, len: nat)
    requires |row| == SLOTS && k + m <= len && k < len && (off + k) % BSIZE + m <= BSIZE
    ensures HoleAt(row, off + k) ==> MeetsHole(row, off, len)
    ensures !HoleAt(row, off + k) && !MeetsHole(row, off, k) ==> !MeetsHole(row, off, k + m)
  {
    forall o | off + k <= o < off + k + m
      ensures HoleAt(row, o) == HoleAt(row, off + k)
    {
      assert o / BSIZE == (off + k) / BSIZE;
    }
  }

  // ----- readi and the inode on disk

  /** readi, with the first k bytes read, has changed the inode's addresses exactly if it has met a
      missing block whose address goes there, could allocate one, and was in an operation. As long as
      it has not, the disk is as it was, or the rest of the file is behind an indirect block that
      was there from the start. */
  ghost predicate Trail(st: Start, sb: Superblock, d: Disk, row: seq<Word>, addrs: seq<Word>, off: nat, k: nat,
                        inside: bool) {
    && |st.row| == SLOTS && |row| == SLOTS && Filled(st.row, row) && !MeetsHole(row, off, k)
    && Settled(st, sb, addrs, off, k, inside)
    && (addrs == st.v.addrs ==> (d == st.d && row == st.row) || (st.row[NDIRECT] != 0 && off + k > NDIRECT * BSIZE))
  }

  ghost predicate Settled(st: Start, sb: Superblock, addrs: seq<Word>, off: nat, k: nat, inside: bool) {
    |st.row| == SLOTS && (addrs != st.v.addrs <==> inside && !Full(st.d, sb) && MeetsBare(st.row, off, k))
  }

  lemma TrailStart(st: Start, sb: Superblock, addrs: seq<Word>, off: nat, inside: bool)
    requires |st.row| == SLOTS && addrs == st.v.addrs
    ensures Trail(st, sb, st.d, st.row, addrs, off, 0, inside) && Filled(st.row, st.row) && !MeetsHole(st.row, off, 0)
  {
  }

  lemma TrailSettled(st: Start, sb: Superblock, d: Disk, row: seq<Word>, addrs: seq<Word>, off: nat, k: nat,
                     inside: bool)
    requires Trail(st, sb, d, row, addrs, off, k, inside)
    ensures Settled(st, sb, addrs, off, k, inside)
    ensures |st.row| == |row| == SLOTS && Filled(st.row, row) && !MeetsHole(row, off, k)
  {
  }

  lemma SettledOutside(st: Start, sb: Superblock, addrs: seq<Word>, off: nat, k: nat, reach: nat, inside: bool)
    requires Settled(st, sb, addrs, off, k, inside)
    ensures !inside ==> Settled(st, sb, addrs, off, reach, inside)
  {
  }

  lemma FewerHoles(row: seq<Word>, off: nat, k: nat, m: nat)
    requires |row| == SLOTS && k <= m && !MeetsHole(row, off, m)
    ensures !MeetsHole(row, off, k)
  {
  }

  /** An address that has been filled in stays. */
  lemma AddrsStay(start: seq<Word>, v: seq<Word>, row0: seq<Word>, addrs0: seq<Word>, row: seq<Word>, addrs: seq<Word>)
    requires |v| == |addrs0| == |addrs| == NDIRECT + 1 && Filled(start, row0) && Filled(row0, row)
    requires forall s :: 0 <= s <= NDIRECT ==> start[s] == v[s] && row0[s] == addrs0[s] && row[s] == addrs[s]
    ensures addrs0 != v ==> addrs != v
  {
    if addrs0 != v {
      var s :| 0 <= s <= NDIRECT && addrs0[s] != v[s];
      assert addrs[s] != v[s];
    }
  }

  /** m more bytes, all of one block. */
  lemma TrailNext(st: Start, sb: Superblock, d0: Disk, row0: seq<Word>, addrs0: seq<Word>, d: Disk, row: seq<Word>,
                  addrs: seq<Word>, off: nat, k: nat, m: nat, inside: bool)
    requires Trail(st, sb, d0, row0, addrs0, off, k, inside) && Filled(row0, row)
    requires |st.v.addrs| == |addrs0| == |addrs| == NDIRECT + 1
    requires forall s :: 0 <= s <= NDIRECT ==> st.row[s] == st.v.addrs[s] && row0[s] == addrs0[s] && row[s] == addrs[s]
    requires m > 0 && (off + k) % BSIZE + m <= BSIZE && off + k < MAXFILE * BSIZE && !HoleAt(row, off + k)
    requires addrs != addrs0 <==> inside && !Full(d0, sb) && Bare(row0, (off + k) / BSIZE)
    requires !inside || Full(d0, sb) || !HoleAt(row0, off + k) ==> d == d0 && row == row0
    ensures Trail(st, sb, d, row, addrs, off, k + m, inside)
  {
    hide Full, SlotOf;
    AddrsStay(st.row, st.v.addrs, row0, addrs0, row, addrs);
    FilledThenFilled(st.row, row0, row);
    StillNoHole(row0, row, off, k);
    HoleSteps(row, off, k, m, k + m);
    BareSteps(st.row, off, k, m);
  }

  lemma StillNoHole(row0: seq<Word>, row: seq<Word>, off: nat, k: nat)
    requires Filled(row0, row) && !MeetsHole(row0, off, k)
    ensures !MeetsHole(row, off, k)
  {
    hide SlotOf;
    forall o | off <= o < off + k
      ensures !HoleAt(row, o)
    {
      assert !HoleAt(row0, o);
    }
  }

  lemma BareSteps(row: seq<Word>, off: nat, k: nat, m: nat)
    requires |row| == SLOTS && m > 0 && (off + k) % BSIZE + m <= BSIZE && off + k < MAXFILE * BSIZE
    ensures MeetsBare(row, off, k + m) <==> MeetsBare(row, off, k) || Bare(row, (off + k) / BSIZE)
  {
    hide SlotOf;
    forall o | off + k <= o < off + k + m
      ensures o / BSIZE == (off + k) / BSIZE
    {
    }
    if Bare(row, (off + k) / BSIZE) {
      assert HoleAt(row, off + k);
    }
  }

  /** The disk is full at a hole: nothing more will be read. */
  lemma TrailStop(st: Start, sb: Superblock, d0: Disk, row0: seq<Word>, addrs0: seq<Word>, row: seq<Word>,
                  addrs: seq<Word>, off: nat, k: nat, reach: nat, inside: bool)
    requires Trail(st, sb, d0, row0, addrs0, off, k, inside) && Filled(row0, row) && k < reach
    requires |st.v.addrs| == |addrs0| == |addrs| == NDIRECT + 1 && off + k < MAXFILE * BSIZE
    requires forall s :: 0 <= s <= NDIRECT ==> st.row[s] == st.v.addrs[s] && row0[s] == addrs0[s] && row[s] == addrs[s]
    requires HoleAt(row0, off + k) && (addrs != addrs0 <==> inside && !Full(d0, sb) && Bare(row0, (off + k) / BSIZE))
    ensures Settled(st, sb, addrs, off, reach, inside) && Filled(st.row, row) && !MeetsHole(row, off, k)
  {
    hide Full, SlotOf;
    AddrsStay(st.row, st.v.addrs, row0, addrs0, row, addrs);
    FilledThenFilled(st.row, row0, row);
    StillNoHole(row0, row, off, k);
    if MeetsBare(st.row, off, reach) {
      var o :| off <= o < off + reach && HoleAt(st.row, o) && Bare(st.row, o / BSIZE);
      assert o < off + k ==> MeetsBare(st.row, off, k);
      assert o >= off + k ==> o / BSIZE >= (off + k) / BSIZE;
    }
  }
}
