/** A mounted ext2 volume: reading and writing files (kernel/fs/ext2/ext2_file.c, ext2_block.c). */
module Ext2Volumes {

  import opened Ext2Alloc
  import opened Ext2Blocks
  import opened Ext2Files

  // ----- the other files -----

  ghost predicate OthersRefs(disk: seq<seq<Byte>>, user: map<nat, Use>, inodes: map<nat, Inode>, ino: nat) {
    forall i {:trigger i in inodes} :: i in inodes && i != ino ==> RefsOk(disk, user, i, inodes[i].block)
  }

  ghost predicate OthersSame(disk: seq<seq<Byte>>, disk': seq<seq<Byte>>, inodes: map<nat, Inode>, ino: nat) {
    forall i {:trigger i in inodes} :: i in inodes && i != ino ==> SameFile(disk, disk', inodes[i].block)
  }

  /** Writing a block that belongs to `ino`, or to nobody, on behalf of `ino`. */
  lemma OthersUntouched(disk: seq<seq<Byte>>, user: map<nat, Use>, inodes: map<nat, Inode>, ino: nat, b: nat, data: seq<Byte>, use: Use)
    requires OthersRefs(disk, user, inodes, ino) && UsersOk(disk, user) && 0 < b < |disk| && |data| == 1024
    requires (b in user ==> user[b].ino == ino) && use.ino == ino
    ensures OthersRefs(disk[b := data], user[b := use], inodes, ino) && OthersSame(disk, disk[b := data], inodes, ino)
  {
    forall i | i in inodes && i != ino
      ensures RefsOk(disk[b := data], user[b := use], i, inodes[i].block) && SameFile(disk, disk[b := data], inodes[i].block)
    {
      Untouched(disk, user, i, inodes[i].block, b, data, use);
    }
  }

  lemma OthersTwice(d0: seq<seq<Byte>>, d1: seq<seq<Byte>>, d2: seq<seq<Byte>>, inodes: map<nat, Inode>, ino: nat)
    requires OthersSame(d0, d1, inodes, ino) && OthersSame(d1, d2, inodes, ino)
    ensures OthersSame(d0, d2, inodes, ino)
  {
    forall i | i in inodes && i != ino ensures SameFile(d0, d2, inodes[i].block) { SameFileTwice(d0, d1, d2, inodes[i].block); }
  }

  /** Marking a free block as used by `ino` changes no other file's claims. */
  lemma OthersMarked(disk: seq<seq<Byte>>, user: map<nat, Use>, inodes: map<nat, Inode>, ino: nat, b: nat, use: Use)
    requires OthersRefs(disk, user, inodes, ino) && b !in user
    ensures OthersRefs(disk, user[b := use], inodes, ino)
  {
    var user' := user[b := use];
    forall i | i in inodes && i != ino ensures RefsOk(disk, user', i, inodes[i].block) {
      var block := inodes[i].block;
      forall l: nat | l < MAX_BLOCKS ensures RefOk(disk, user', i, block, l) { assert RefOk(disk, user, i, block, l); }
    }
  }

  // ----- how many blocks a write needs -----

  ghost function Gaps(disk: seq<seq<Byte>>, block: seq<nat>, lo: nat, hi: nat): nat
    requires |block| == 15
    decreases hi - lo
  {
    if lo >= hi then 0 else (if Mapped(disk, block, lo) == 0 then 1 else 0) + Gaps(disk, block, lo + 1, hi)
  }

  /** Free blocks needed to map blocks `lo .. hi`: one for each gap, and one for the table if there is none yet. */
  ghost function Need(disk: seq<seq<Byte>>, block: seq<nat>, lo: nat, hi: nat): nat
    requires |block| == 15
  {
    Gaps(disk, block, lo, hi) + if block[12] == 0 && lo < hi && hi > 12 then 1 else 0
  }

  lemma {:induction false} GapsSame(d: seq<seq<Byte>>, b: seq<nat>, d': seq<seq<Byte>>, b': seq<nat>, l: nat, phys: nat, lo: nat, hi: nat)
    requires Remapped(d, b, d', b', l, phys) && l < lo && hi <= MAX_BLOCKS
    ensures Gaps(d', b', lo, hi) == Gaps(d, b, lo, hi)
    decreases hi - lo
  {
    if lo < hi {
      assert RemappedAt(d, b, d', b', l, phys, lo);
      GapsSame(d, b, d', b', l, phys, lo + 1, hi);
    }
  }

  /** What is still needed once block `l` is mapped. */
  lemma NeedStep(d: seq<seq<Byte>>, b: seq<nat>, d': seq<seq<Byte>>, b': seq<nat>, l: nat, phys: nat, hi: nat)
    requires DiskOk(d) && Remapped(d, b, d', b', l, phys) && phys != 0 && l < hi <= MAX_BLOCKS
    requires b'[12] == b[12] || (b[12] == 0 && l >= 12)
    requires l >= 12 ==> b'[12] != 0
    ensures Need(d', b', l + 1, hi) ==
            Need(d, b, l, hi) - (if Mapped(d, b, l) == 0 then 1 else 0) - (if l >= 12 && b[12] == 0 then 1 else 0)
  {
    GapsSame(d, b, d', b', l, phys, l + 1, hi);
  }

  // ----- when a write is reported -----

  /** The blocks that writing `lo .. hi` takes: what mapping needs, and one for every block past the last that can be mapped. */
  ghost function Demand(disk: seq<seq<Byte>>, block: seq<nat>, lo: nat, hi: nat): nat
    requires |block| == 15 && lo <= hi
  {
    if hi <= MAX_BLOCKS then Need(disk, block, lo, hi)
    else if lo <= MAX_BLOCKS then Need(disk, block, lo, MAX_BLOCKS) + (hi - MAX_BLOCKS)
    else hi - lo
  }

  /** Where the indirect table is first needed. */
  function FirstIndirect(lo: nat): nat {
    if lo > 12 then lo else 12
  }

  /** ext2_write_at reports success: the blocks suffice, or only the table is wanting and only for the very last block. */
  ghost predicate Reports(free: nat, disk: seq<seq<Byte>>, block: seq<nat>, lo: nat, hi: nat)
    requires |block| == 15 && lo <= hi
  {
    || free >= Demand(disk, block, lo, hi)
    || (block[12] == 0 && hi == FirstIndirect(lo) + 1 <= MAX_BLOCKS && free + 1 == Demand(disk, block, lo, hi))
  }

  /** While writing, blocks left and blocks still wanted stay in balance … */
  ghost predicate Balanced(free: set<nat>, disk: seq<seq<Byte>>, b0: seq<nat>, block: seq<nat>, lo: nat, next: nat, hi: nat, slack: int)
    requires |block| == |b0| == 15
  {
    && lo <= next <= hi && |free| - Demand(disk, block, next, hi) == slack
    && (next == lo ==> block == b0) && (next <= 12 ==> block[12] == b0[12])
    && (next > lo && next > 12 && lo < MAX_BLOCKS ==> block[12] != 0) && (lo >= MAX_BLOCKS ==> block == b0)
  }

  /** … until the last free block goes to data whose table could not be had. */
  ghost predicate Jammed(free: set<nat>, b0: seq<nat>, block: seq<nat>, lo: nat, next: nat, hi: nat, slack: int)
    requires |block| == |b0| == 15
  {
    free == {} && block[12] == 0 && b0[12] == 0 && next == FirstIndirect(lo) + 1 <= MAX_BLOCKS && next <= hi && slack == next - 1 - hi
  }

  /** Without a table no indirect block is mapped. */
  lemma {:induction false} GapsNoTable(disk: seq<seq<Byte>>, block: seq<nat>, lo: nat, hi: nat)
    requires DiskOk(disk) && |block| == 15 && block[12] == 0 && 12 <= lo <= hi <= MAX_BLOCKS
    ensures Gaps(disk, block, lo, hi) == hi - lo
    decreases hi - lo
  {
    if lo < hi { GapsNoTable(disk, block, lo + 1, hi); }
  }

  lemma StillBalanced(free: set<nat>, d: seq<seq<Byte>>, b0: seq<nat>, block: seq<nat>, lo: nat, l: nat, hi: nat, slack: int,
                      free': set<nat>, d': seq<seq<Byte>>, block': seq<nat>)
    requires |block| == |block'| == |b0| == 15 && DiskOk(d) && DiskOk(d') && l < hi && l < MAX_BLOCKS
    requires Balanced(free, d, b0, block, lo, l, hi, slack) && Spent(d, block, free, d', block', free', l)
    requires if l >= 12 then block'[12] != 0 else block'[12] == block[12]
    ensures Balanced(free', d', b0, block', lo, l + 1, hi, slack)
  {
    var end := if hi <= MAX_BLOCKS then hi else MAX_BLOCKS;
    assert |free'| - Need(d', block', l + 1, end) == |free| - Need(d, block, l, end);
  }

  lemma PastTheEnd(free: set<nat>, d: seq<seq<Byte>>, b0: seq<nat>, block: seq<nat>, lo: nat, l: nat, hi: nat, slack: int,
                   free': set<nat>, d': seq<seq<Byte>>)
    requires |block| == |b0| == 15 && MAX_BLOCKS <= l < hi && |free'| == |free| - 1
    requires Balanced(free, d, b0, block, lo, l, hi, slack)
    ensures Balanced(free', d', b0, block, lo, l + 1, hi, slack)
  {
  }

  lemma Jams(free: set<nat>, d: seq<seq<Byte>>, b0: seq<nat>, block: seq<nat>, lo: nat, l: nat, hi: nat, slack: int)
    requires DiskOk(d) && |block| == |b0| == 15 && 12 <= l < hi && l < MAX_BLOCKS && |free| == 1 && block[12] == 0
    requires Balanced(free, d, b0, block, lo, l, hi, slack)
    ensures Jammed({}, b0, block, lo, l + 1, hi, slack)
  {
    var end := if hi <= MAX_BLOCKS then hi else MAX_BLOCKS;
    GapsNoTable(d, block, l, end);
  }

  /** The write fails here, so it is not one that is reported. */
  lemma NotReported(free0: nat, d0: seq<seq<Byte>>, free: set<nat>, d: seq<seq<Byte>>, b0: seq<nat>, block: seq<nat>, lo: nat, l: nat, hi: nat, slack: int)
    requires |block| == |b0| == 15 && lo <= l < hi && free == {} && Mapped(d, block, l) == 0
    requires slack == free0 - Demand(d0, b0, lo, hi)
    requires Balanced(free, d, b0, block, lo, l, hi, slack) || Jammed(free, b0, block, lo, l, hi, slack)
    ensures !Reports(free0, d0, b0, lo, hi)
  {
    if Balanced(free, d, b0, block, lo, l, hi, slack) {
      var end := if hi <= MAX_BLOCKS then hi else MAX_BLOCKS;
      assert l < end ==> Gaps(d, block, l, end) >= 1;
      assert b0[12] == 0 && hi == FirstIndirect(lo) + 1 <= MAX_BLOCKS ==> block[12] == 0;
    }
  }

  lemma Reported(free0: nat, d0: seq<seq<Byte>>, free: set<nat>, d: seq<seq<Byte>>, b0: seq<nat>, block: seq<nat>, lo: nat, hi: nat, slack: int)
    requires |block| == |b0| == 15 && lo <= hi && slack == free0 - Demand(d0, b0, lo, hi)
    requires Balanced(free, d, b0, block, lo, hi, hi, slack) || Jammed(free, b0, block, lo, hi, hi, slack)
    ensures Reports(free0, d0, b0, lo, hi)
    ensures Balanced(free, d, b0, block, lo, hi, hi, slack) ==> slack >= 0
    ensures |free| == Remaining(free0, Demand(d0, b0, lo, hi))
    ensures block[12] != 0 <==> GetsTable(free0, Demand(d0, b0, lo, hi), b0[12] != 0, lo, hi)
  {
  }

  /** Some block of `lo .. hi` is not mapped. */
  ghost predicate HasHole(disk: seq<seq<Byte>>, block: seq<nat>, lo: nat, hi: nat)
    requires |block| == 15
  {
    exists l: nat :: lo <= l < hi && Mapped(disk, block, l) == 0
  }

  /** The free blocks left when a write has taken all it can get of what it wants. */
  ghost function Remaining(free: nat, demand: nat): nat {
    if free >= demand then free - demand else 0
  }

  /** Whether there is an indirect table after a write that is reported. */
  ghost predicate GetsTable(free: nat, demand: nat, table: bool, lo: nat, hi: nat) {
    table || (free >= demand && lo < hi && hi > 12 && lo < MAX_BLOCKS)
  }

  lemma {:induction false} GapsEmpty(disk: seq<seq<Byte>>, block: seq<nat>, lo: nat, hi: nat)
    requires DiskOk(disk) && block == seq(15, _ => 0) && lo <= hi <= MAX_BLOCKS
    ensures Gaps(disk, block, lo, hi) == hi - lo
    decreases hi - lo
  {
    if lo < hi {
      assert Mapped(disk, block, lo) == 0;
      GapsEmpty(disk, block, lo + 1, hi);
    }
  }

  /** Writing 269 blocks to an empty file takes 270 free blocks and is reported as done, although block 268 can never be read. */
  lemma LongWriteReported(disk: seq<seq<Byte>>, block: seq<nat>, free: nat, data: seq<Byte>)
    requires DiskOk(disk) && block == seq(15, _ => 0) && |data| == 269 * 1024
    ensures LastBlock(0, |data|) == 269 && |data| > 1024 * MAX_BLOCKS
    ensures Reports(free, disk, block, 0, LastBlock(0, |data|)) <==> free >= 270
  {
    GapsEmpty(disk, block, 0, MAX_BLOCKS);
  }

  /** An inode after a write that ends at `end`. */
  ghost function Grown(inode: Inode, end: nat): Inode {
    var size := if end > inode.size then end else inode.size;
    inode.(size := size, blocks := BlocksFor(size) * 2)
  }

  /** Whether a write will be complete: it stays in the single-indirect range and there are blocks enough. */
  ghost predicate Fits(disk: seq<seq<Byte>>, block: seq<nat>, free: nat, offset: nat, len: nat)
    requires |block| == 15
  {
    (len > 0 ==> offset + len <= 1024 * MAX_BLOCKS) && free >= Need(disk, block, offset / 1024, LastBlock(offset, len))
  }

  /** All that ext2_write_at does to a regular file and to the number of free blocks. */
  ghost predicate Wrote(d0: seq<seq<Byte>>, i0: Inode, free: nat, offset: nat, data: seq<Byte>, r: int, d: seq<seq<Byte>>, i: Inode, free': nat)
    requires |i0.block| == |i.block| == 15
  {
    var lo, hi := offset / 1024, LastBlock(offset, |data|);
    var demand := Demand(d0, i0.block, lo, hi);
    && Changed(d0, i0.block, d, i.block, offset, offset + |data|) && free' == Remaining(free, demand)
    // when success is reported, and what the inode is then
    && (r >= 0 <==> Reports(free, d0, i0.block, lo, hi))
    && (if r < 0 then r == -ENOENT && i == i0
        else
          && r == |data| && i == Grown(i0, offset + |data|).(block := i.block)
          && (i.block[12] != 0 <==> GetsTable(free, demand, i0.block[12] != 0, lo, hi)))
    // when the write is complete
    && (Fits(d0, i0.block, free, offset, |data|) ==> r >= 0 && Written(d, i.block, data, offset, |data|))
    && (!Fits(d0, i0.block, free, offset, |data|) && r >= 0 ==> HasHole(d, i.block, lo, hi))
    && (Fits(d0, i0.block, free, offset, |data|) && Whole(d0, i0) && offset <= i0.size ==>
          Whole(d, i) && Content(d, i) == Splice(Content(d0, i0), offset, data))
  }

  class Volume {
    const alloc: BlockAllocator
    const disk: array<seq<Byte>>
    var inodes: map<nat, Inode>
    ghost var user: map<nat, Use>

    constructor (alloc: BlockAllocator, disk: array<seq<Byte>>, inodes: map<nat, Inode>, ghost user: map<nat, Use>)
      ensures this.alloc == alloc && this.disk == disk && this.inodes == inodes && this.user == user
    {
      this.alloc, this.disk, this.inodes, this.user := alloc, disk, inodes, user;
    }

    /** Blocks in use are allocated and on the disk. */
    ghost predicate Store()
      reads this, disk, alloc, alloc.bitmap, alloc.bitmap.bytes, alloc.freeCount
    {
      && alloc.Valid() && alloc.Counted()
      && DiskOk(disk[..]) && disk.Length == alloc.first + 8192 * alloc.groups && UsersOk(disk[..], user)
      && forall b :: b in user ==> b >= alloc.first && b - alloc.first !in alloc.Free()
    }

    /** The volume while `ino` is being written and its newest pointers are `block`. */
    ghost predicate Busy(ino: nat, block: seq<nat>)
      reads this, disk, alloc, alloc.bitmap, alloc.bitmap.bytes, alloc.freeCount
    {
      Store() && OthersRefs(disk[..], user, inodes, ino) && RefsOk(disk[..], user, ino, block)
    }

    /** No two pointers of the volume share a block. */
    ghost predicate Valid()
      reads this, disk, alloc, alloc.bitmap, alloc.bitmap.bytes, alloc.freeCount
    {
      Store() && forall i {:trigger i in inodes} :: i in inodes ==> RefsOk(disk[..], user, i, inodes[i].block)
    }

    // ----- allocation and mapping -----

    method Grab(ino: nat, block: seq<nat>) returns (b: nat)
      requires Busy(ino, block)
      modifies alloc.bitmap, alloc.bitmap.bytes, alloc.freeCount
      ensures Busy(ino, block)
      ensures b == 0 <==> old(alloc.Free()) == {}
      ensures b == 0 ==> alloc.Free() == old(alloc.Free())
      ensures b != 0 ==> b !in user && 0 < b < disk.Length && alloc.first <= b && b - alloc.first !in alloc.Free()
      ensures b != 0 ==> b - alloc.first in old(alloc.Free()) && alloc.Free() == old(alloc.Free()) - {b - alloc.first}
    {
      alloc.FailsOnlyWhenFull();
      b := alloc.AllocBlock();
    }

    /** A block that has been allocated and has no use yet. */
    ghost predicate Spare(b: nat)
      reads this, disk, alloc, alloc.bitmap
    {
      b !in user && 0 < b < disk.Length && alloc.first <= b && b - alloc.first !in alloc.Free()
    }

    /** set_block_in_inode.  It fails for want of a block for the table, or past the single-indirect range. */
    method SetBlock(ino: nat, block: seq<nat>, l: nat, b: nat) returns (ok: bool, block': seq<nat>)
      requires Busy(ino, block) && Mapped(disk[..], block, l) == 0 && Spare(b)
      modifies this`user, disk, alloc.bitmap, alloc.bitmap.bytes, alloc.freeCount
      ensures ok <==> l < 12 || (l < MAX_BLOCKS && (block[12] != 0 || old(alloc.Free()) != {}))
      ensures Busy(ino, block') && Older(block, block') && OthersSame(old(disk[..]), disk[..], inodes, ino)
      ensures !ok ==> block' == block && disk[..] == old(disk[..]) && user == old(user) && alloc.Free() == old(alloc.Free())
      ensures ok ==>
                && Remapped(old(disk[..]), block, disk[..], block', l, b) && b in user && user[b] == Data(ino, l)
                && (block'[12] == block[12] || (block[12] == 0 && l >= 12)) && (l >= 12 ==> block'[12] != 0)
                && |alloc.Free()| == |old(alloc.Free())| - if l >= 12 && block[12] == 0 then 1 else 0
    {
      ghost var d, u := disk[..], user;
      SameOthers(d, u, inodes, ino);
      if l < 12 {
        user := user[b := Data(ino, l)];
        AddDirect(d, u, ino, block, l, b);
        OthersMarked(d, u, inodes, ino, b, Data(ino, l));
        return true, block[l := b];
      }
      if l - 12 < 256 {
        if block[12] == 0 {
          ok, block' := SetInNewTable(ino, block, l, b);
        } else {
          SetInTable(ino, block, l, b);
          return true, block;
        }
      } else {
        return false, block;
      }
    }

    method SetInNewTable(ino: nat, block: seq<nat>, l: nat, b: nat) returns (ok: bool, block': seq<nat>)
      requires Busy(ino, block) && block[12] == 0 && 12 <= l < MAX_BLOCKS && Spare(b)
      modifies this`user, disk, alloc.bitmap, alloc.bitmap.bytes, alloc.freeCount
      ensures ok <==> old(alloc.Free()) != {}
      ensures Busy(ino, block') && Older(block, block') && OthersSame(old(disk[..]), disk[..], inodes, ino)
      ensures !ok ==> block' == block && disk[..] == old(disk[..]) && user == old(user) && alloc.Free() == old(alloc.Free())
      ensures ok ==>
                && Remapped(old(disk[..]), block, disk[..], block', l, b) && b in user && user[b] == Data(ino, l)
                && block'[12] != 0 && |alloc.Free()| == |old(alloc.Free())| - 1
    {
      ghost var d, u := disk[..], user;
      SameOthers(d, u, inodes, ino);
      var t := Grab(ino, block);
      if t == 0 { return false, block; }
      disk[t] := PutWord(Zeros(), l - 12, b);
      user := user[b := Data(ino, l)][t := Table(ino)];
      assert disk[..] == d[t := PutWord(Zeros(), l - 12, b)];
      AddTable(d, u, ino, block, l, b, t);
      OthersMarked(d, u, inodes, ino, b, Data(ino, l));
      OthersUntouched(d, u[b := Data(ino, l)], inodes, ino, t, PutWord(Zeros(), l - 12, b), Table(ino));
      return true, block[12 := t];
    }

    method SetInTable(ino: nat, block: seq<nat>, l: nat, b: nat)
      requires Busy(ino, block) && block[12] != 0 && 12 <= l < MAX_BLOCKS && Spare(b)
      modifies this`user, disk
      ensures Busy(ino, block) && OthersSame(old(disk[..]), disk[..], inodes, ino)
      ensures Remapped(old(disk[..]), block, disk[..], block, l, b) && user == old(user)[b := Data(ino, l)]
    {
      ghost var d, u := disk[..], user;
      AddInTable(d, u, ino, block, l, b);
      var t := block[12];
      disk[t] := PutWord(disk[t], l - 12, b);
      user := user[b := Data(ino, l)];
      assert disk[..] == d[t := PutWord(d[t], l - 12, b)];
      OthersMarked(d, u, inodes, ino, b, Data(ino, l));
      OthersUntouched(d, user, inodes, ino, t, PutWord(d[t], l - 12, b), Table(ino));
      assert user[t := Table(ino)] == user;
    }

    // ----- one block of a write -----

    /** memcpy into the block buffer. */
    static function Overlay(base: seq<Byte>, part: seq<Byte>, off: nat): (buf: seq<Byte>)
      requires |base| == 1024 && off + |part| <= 1024
      ensures Overlaid(base, part, off, buf)
    {
      base[..off] + part + base[off + |part|..]
    }

    /** The block is mapped already. */
    method PutMapped(ino: nat, block: seq<nat>, l: nat, off: nat, part: seq<Byte>) returns (phys: nat)
      requires Busy(ino, block) && l < MAX_BLOCKS && Mapped(disk[..], block, l) != 0 && off + |part| <= 1024
      modifies disk
      ensures Busy(ino, block) && OthersSame(old(disk[..]), disk[..], inodes, ino)
      ensures phys == Mapped(old(disk[..]), block, l) && 0 < phys < disk.Length
      ensures Remapped(old(disk[..]), block, disk[..], block, l, phys)
      ensures Overlaid(if off > 0 || |part| < 1024 then old(disk[phys]) else Zeros(), part, off, disk[phys])
    {
      ghost var d := disk[..];
      phys := Mapped(disk[..], block, l);
      assert RefOk(d, user, ino, block, l);
      var base := if off > 0 || |part| < 1024 then disk[phys] else Zeros();
      var buf := Overlay(base, part, off);
      Overwritten(d, user, ino, block, l, buf);
      disk[phys] := buf;
      assert disk[..] == d[phys := buf];
      OthersUntouched(d, user, inodes, ino, phys, buf, Data(ino, l));
      assert user[phys := Data(ino, l)] == user;
    }

    /** The block is new; `placed` says whether a pointer to it could be stored. */
    method PutNew(ino: nat, block: seq<nat>, l: nat, off: nat, part: seq<Byte>) returns (phys: nat, block': seq<nat>, ghost placed: bool)
      requires Busy(ino, block) && Mapped(disk[..], block, l) == 0 && off + |part| <= 1024
      modifies this`user, disk, alloc.bitmap, alloc.bitmap.bytes, alloc.freeCount
      ensures Busy(ino, block') && Older(block, block') && OthersSame(old(disk[..]), disk[..], inodes, ino)
      ensures phys == 0 <==> old(alloc.Free()) == {}
      ensures phys == 0 ==> !placed && block' == block && disk[..] == old(disk[..]) && alloc.Free() == {}
      ensures placed ==>
                && l < MAX_BLOCKS && 0 < phys < disk.Length && Remapped(old(disk[..]), block, disk[..], block', l, phys)
                && Overlaid(Zeros(), part, off, disk[phys])
                && (block'[12] == block[12] || (block[12] == 0 && l >= 12)) && (l >= 12 ==> block'[12] != 0)
                && |alloc.Free()| == |old(alloc.Free())| - (if l >= 12 && block[12] == 0 then 2 else 1)
      ensures phys != 0 && !placed ==>
                && block' == block && SameFile(old(disk[..]), disk[..], block) && |alloc.Free()| == |old(alloc.Free())| - 1
                && (l >= MAX_BLOCKS || (l >= 12 && block[12] == 0 && alloc.Free() == {} && |old(alloc.Free())| == 1))
    {
      ghost var d := disk[..];
      phys, block', placed := LinkNew(ino, block, l);
      if phys == 0 { return; }
      ghost var d1 := disk[..];
      var buf := Overlay(Zeros(), part, off);
      PutData(ino, block', l, phys, buf);
      OthersTwice(d, d1, disk[..], inodes, ino);
      if placed { RemapThenWrite(d, block, d1, user, ino, block', l, phys, buf); }
    }

    /** A new block, and a pointer to it if that can be stored. */
    method LinkNew(ino: nat, block: seq<nat>, l: nat) returns (phys: nat, block': seq<nat>, ghost placed: bool)
      requires Busy(ino, block) && Mapped(disk[..], block, l) == 0
      modifies this`user, disk, alloc.bitmap, alloc.bitmap.bytes, alloc.freeCount
      ensures Busy(ino, block') && Older(block, block') && OthersSame(old(disk[..]), disk[..], inodes, ino)
      ensures phys == 0 <==> old(alloc.Free()) == {}
      ensures if phys != 0 then phys in user && user[phys] == Data(ino, l) else alloc.Free() == {}
      ensures !placed ==> block' == block && disk[..] == old(disk[..]) && phys !in old(user)
      ensures placed ==>
                && phys != 0 && l < MAX_BLOCKS && Remapped(old(disk[..]), block, disk[..], block', l, phys)
                && (block'[12] == block[12] || (block[12] == 0 && l >= 12)) && (l >= 12 ==> block'[12] != 0)
                && |alloc.Free()| == |old(alloc.Free())| - (if l >= 12 && block[12] == 0 then 2 else 1)
      ensures phys != 0 && !placed ==>
                && |alloc.Free()| == |old(alloc.Free())| - 1
                && (l >= MAX_BLOCKS || (l >= 12 && block[12] == 0 && alloc.Free() == {} && |old(alloc.Free())| == 1))
    {
      ghost var d := disk[..];
      SameOthers(d, user, inodes, ino);
      phys := Grab(ino, block);
      if phys == 0 {
        return phys, block, false;
      }
      var ok;
      ok, block' := SetBlock(ino, block, l, phys);
      placed := ok;
      if !ok {
        UntouchedFree(d, user, ino, block, phys, d[phys], Data(ino, l));
        assert d[phys := d[phys]] == d;
        OthersMarked(d, user, inodes, ino, phys, Data(ino, l));
        user := user[phys := Data(ino, l)];
      }
    }

    method PutData(ino: nat, block: seq<nat>, l: nat, phys: nat, buf: seq<Byte>)
      requires Busy(ino, block) && phys in user && user[phys] == Data(ino, l) && |buf| == 1024
      modifies disk
      ensures Busy(ino, block) && OthersSame(old(disk[..]), disk[..], inodes, ino)
      ensures 0 < phys < disk.Length && disk[..] == old(disk[..])[phys := buf]
      ensures Mapped(old(disk[..]), block, l) == 0 ==> SameFile(old(disk[..]), disk[..], block)
    {
      ghost var d := disk[..];
      disk[phys] := buf;
      assert disk[..] == d[phys := buf];
      OthersUntouched(d, user, inodes, ino, phys, buf, Data(ino, l));
      assert user[phys := Data(ino, l)] == user;
      OwnData(d, user, ino, block, l, phys, buf);
    }

    /** One round of the loop of ext2_write_at. */
    method PutChunk(ino: nat, block: seq<nat>, ghost d0: seq<seq<Byte>>, ghost b0: seq<nat>, data: seq<Byte>, offset: nat, pos: nat)
      returns (ok: bool, block': seq<nat>, chunk: nat, ghost placed: bool)
      requires Busy(ino, block) && pos < |data| && Older(b0, block) && OthersSame(d0, disk[..], inodes, ino)
      requires Changed(d0, b0, disk[..], block, offset, offset + |data|)
      modifies this`user, disk, alloc.bitmap, alloc.bitmap.bytes, alloc.freeCount
      ensures chunk == ChunkSize(|data|, offset, pos)
      ensures Busy(ino, block') && Older(b0, block') && OthersSame(d0, disk[..], inodes, ino)
      ensures Changed(d0, b0, disk[..], block', offset, offset + |data|)
      ensures var l := (offset + pos) / 1024;
              && (!ok <==> Mapped(old(disk[..]), block, l) == 0 && old(alloc.Free()) == {})
              && (!ok ==> block' == block && alloc.Free() == {})
              && (Mapped(old(disk[..]), block, l) != 0 ==> placed && block' == block && alloc.Free() == old(alloc.Free()))
              && (placed ==>
                    && ok && l < MAX_BLOCKS
                    && (old(Written(disk[..], block, data, offset, pos)) ==> Written(disk[..], block', data, offset, pos + chunk))
                    && (if l >= 12 then block'[12] != 0 else block'[12] == block[12])
                    && Spent(old(disk[..]), block, old(alloc.Free()), disk[..], block', alloc.Free(), l))
              && (ok && !placed ==>
                    && block' == block && |alloc.Free()| == |old(alloc.Free())| - 1
                    && (l >= MAX_BLOCKS || (l >= 12 && block[12] == 0 && alloc.Free() == {} && |old(alloc.Free())| == 1)))
    {
      var l := (offset + pos) / 1024;
      chunk := ChunkSize(|data|, offset, pos);
      ghost var d := disk[..];
      if Mapped(disk[..], block, l) == 0 {
        ok, block', placed := PutChunkNew(ino, block, d0, b0, data, offset, pos, chunk);
      } else {
        if l >= MAX_BLOCKS { NothingBeyond(d, block, l); assert false; }
        PutChunkMapped(ino, block, d0, b0, data, offset, pos, chunk);
        ok, block', placed := true, block, true;
      }
      OthersTwice(d0, d, disk[..], inodes, ino);
      OlderTwice(b0, block, block');
    }

    /** How much of the data goes into the block at `pos`. */
    static function ChunkSize(size: nat, offset: nat, pos: nat): (n: nat)
      requires pos < size
      ensures 0 < n <= size - pos && (offset + pos) % 1024 + n <= 1024
    {
      var room := 1024 - (offset + pos) % 1024;
      if room > size - pos then size - pos else room
    }

    method PutChunkNew(ino: nat, block: seq<nat>, ghost d0: seq<seq<Byte>>, ghost b0: seq<nat>, data: seq<Byte>, offset: nat, pos: nat, chunk: nat)
      returns (ok: bool, block': seq<nat>, ghost placed: bool)
      requires Busy(ino, block) && pos < |data| && chunk == ChunkSize(|data|, offset, pos)
      requires Changed(d0, b0, disk[..], block, offset, offset + |data|)
      requires Mapped(disk[..], block, (offset + pos) / 1024) == 0
      modifies this`user, disk, alloc.bitmap, alloc.bitmap.bytes, alloc.freeCount
      ensures Busy(ino, block') && Older(block, block') && OthersSame(old(disk[..]), disk[..], inodes, ino)
      ensures Changed(d0, b0, disk[..], block', offset, offset + |data|)
      ensures !ok <==> old(alloc.Free()) == {}
      ensures !ok ==> !placed && block' == block && alloc.Free() == {}
      ensures var l := (offset + pos) / 1024;
              && (placed ==>
                    && ok && l < MAX_BLOCKS
                    && (old(Written(disk[..], block, data, offset, pos)) ==> Written(disk[..], block', data, offset, pos + chunk))
                    && (if l >= 12 then block'[12] != 0 else block'[12] == block[12])
                    && Spent(old(disk[..]), block, old(alloc.Free()), disk[..], block', alloc.Free(), l))
              && (ok && !placed ==>
                    && block' == block && |alloc.Free()| == |old(alloc.Free())| - 1
                    && (l >= MAX_BLOCKS || (l >= 12 && block[12] == 0 && alloc.Free() == {} && |old(alloc.Free())| == 1)))
    {
      var l, off := (offset + pos) / 1024, (offset + pos) % 1024;
      ghost var d := disk[..];
      var phys;
      phys, block', placed := PutNew(ino, block, l, off, data[pos..pos + chunk]);
      ok := phys != 0;
      if placed {
        ChunkWritten(d0, b0, d, block, disk[..], block', data, offset, pos, chunk, l, off, phys, Zeros());
        NeedAll(d, block, old(alloc.Free()), disk[..], block', alloc.Free(), l, phys);
      } else {
        if phys == 0 { SameItself(d, user, ino, block); }
        SameKept(d0, b0, d, disk[..], block, offset, offset + |data|);
      }
    }

    method PutChunkMapped(ino: nat, block: seq<nat>, ghost d0: seq<seq<Byte>>, ghost b0: seq<nat>, data: seq<Byte>, offset: nat, pos: nat, chunk: nat)
      requires Busy(ino, block) && pos < |data| && chunk == ChunkSize(|data|, offset, pos)
      requires Changed(d0, b0, disk[..], block, offset, offset + |data|)
      requires (offset + pos) / 1024 < MAX_BLOCKS && Mapped(disk[..], block, (offset + pos) / 1024) != 0
      modifies disk
      ensures Busy(ino, block) && OthersSame(old(disk[..]), disk[..], inodes, ino)
      ensures Changed(d0, b0, disk[..], block, offset, offset + |data|)
      ensures old(Written(disk[..], block, data, offset, pos)) ==> Written(disk[..], block, data, offset, pos + chunk)
      ensures (offset + pos) / 1024 >= 12 ==> block[12] != 0
      ensures Spent(old(disk[..]), block, alloc.Free(), disk[..], block, alloc.Free(), (offset + pos) / 1024)
    {
      var l, off := (offset + pos) / 1024, (offset + pos) % 1024;
      ghost var d := disk[..];
      var phys := PutMapped(ino, block, l, off, data[pos..pos + chunk]);
      ChunkWritten(d0, b0, d, block, disk[..], block, data, offset, pos, chunk, l, off, phys,
                   if off > 0 || chunk < 1024 then d[phys] else Zeros());
      assert l >= 12 ==> block[12] != 0;
      NeedAll(d, block, alloc.Free(), disk[..], block, alloc.Free(), l, phys);
    }

    /** ext2_write_inode after the pointers were changed. */
    method SetInode(ino: nat, inode: Inode)
      requires Busy(ino, inode.block)
      modifies this`inodes
      ensures Valid() && inodes == old(inodes)[ino := inode]
    {
      inodes := inodes[ino := inode];
    }

    // ----- files -----

    /** ext2_write_at, to any file and at any offset.  A write that fits is complete; one that does not either fails or, with
        success reported, leaves a hole in its range.  Nothing outside its range changes. */
    method WriteAt(ino: nat, offset: nat, data: seq<Byte>) returns (r: int)
      requires Valid() && offset + |data| < 0x1_0000_0000
      modifies this, disk, alloc.bitmap, alloc.bitmap.bytes, alloc.freeCount
      ensures Valid() && inodes.Keys == old(inodes).Keys && OthersSame(old(disk[..]), disk[..], old(inodes), ino)
      ensures forall i :: i in inodes && i != ino ==> inodes[i] == old(inodes)[i]
      ensures ino !in inodes || !IsRegular(old(inodes)[ino]) ==>
                r == -ENOENT && disk[..] == old(disk[..]) && inodes == old(inodes) && alloc.Free() == old(alloc.Free())
      ensures ino in inodes && IsRegular(old(inodes)[ino]) ==>
                Wrote(old(disk[..]), old(inodes)[ino], |old(alloc.Free())|, offset, data, r, disk[..], inodes[ino], |alloc.Free()|)
    {
      ghost var d0 := disk[..];
      SameOthers(d0, user, inodes, ino);
      if ino !in inodes || !IsRegular(inodes[ino]) { return -ENOENT; }
      var inode := inodes[ino];
      ghost var free := |alloc.Free()|;
      var ok, block;
      ghost var lost;
      ok, block, lost := WriteBlocks(ino, inode, offset, data);
      WroteBlocks(d0, inode, free, offset, data, ok, lost, disk[..], block, |alloc.Free()|);
      if !ok {
        OlderRefs(disk[..], user, ino, inode.block, block);
        return -ENOENT;
      }
      var size := if offset + |data| > inode.size then offset + |data| else inode.size;
      inodes := inodes[ino := Inode(inode.mode, size, BlocksFor(size) * 2, block)];
      return |data|;
    }

    static lemma WroteBlocks(d0: seq<seq<Byte>>, inode: Inode, free: nat, offset: nat, data: seq<Byte>, ok: bool, lost: bool,
                             d: seq<seq<Byte>>, block: seq<nat>, free': nat)
      requires DiskOk(d0) && DiskOk(d) && |d| == |d0| && |inode.block| == |block| == 15 && inode.block[13] == 0 && inode.block[14] == 0
      requires Older(inode.block, block) && LoopEnds(d0, inode.block, free, offset, data, ok, lost, d, block, free')
      ensures Wrote(d0, inode, free, offset, data, if ok then |data| else -ENOENT, d,
                    if ok then Grown(inode, offset + |data|).(block := block) else inode, free')
    {
      if !ok {
        OlderChanged(d0, inode.block, d, block, offset, offset + |data|);
      } else if !lost && Whole(d0, inode) && offset <= inode.size && (|data| > 0 ==> offset + |data| <= 1024 * MAX_BLOCKS) {
        WholeBound(d0, inode);
        SpliceDone(d0, inode, d, Grown(inode, offset + |data|).(block := block), data, offset);
      }
    }

    /** How the loop ends. */
    static ghost predicate LoopEnds(d0: seq<seq<Byte>>, b0: seq<nat>, free: nat, offset: nat, data: seq<Byte>, ok: bool, lost: bool,
                                    d: seq<seq<Byte>>, block: seq<nat>, free': nat)
      requires |b0| == |block| == 15
    {
      var lo, hi := offset / 1024, LastBlock(offset, |data|);
      var demand := Demand(d0, b0, lo, hi);
      && Changed(d0, b0, d, block, offset, offset + |data|) && (ok && !lost ==> Written(d, block, data, offset, |data|))
      && (ok <==> Reports(free, d0, b0, lo, hi)) && free' == Remaining(free, demand)
      && (ok ==> (block[12] != 0 <==> GetsTable(free, demand, b0[12] != 0, lo, hi)))
      && (ok && !lost <==> Fits(d0, b0, free, offset, |data|))
      && (ok && lost ==> HasHole(d, block, lo, hi))
    }

    /** The loop of ext2_write_at.  `lost` says that some block was written but could not be linked. */
    method WriteBlocks(ino: nat, inode: Inode, offset: nat, data: seq<Byte>) returns (ok: bool, block: seq<nat>, ghost lost: bool)
      requires Valid() && ino in inodes && inode == inodes[ino]
      modifies this`user, disk, alloc.bitmap, alloc.bitmap.bytes, alloc.freeCount
      ensures Busy(ino, block) && Older(inode.block, block) && OthersSame(old(disk[..]), disk[..], inodes, ino)
      ensures LoopEnds(old(disk[..]), inode.block, |old(alloc.Free())|, offset, data, ok, lost, disk[..], block, |alloc.Free()|)
    {
      ghost var d0, free0 := disk[..], |alloc.Free()|;
      KeptItself(d0, user, ino, inode.block, offset, offset + |data|);
      SameOthers(d0, user, inodes, ino);
      ghost var lo: nat, hi: nat := offset / 1024, LastBlock(offset, |data|);
      ghost var slack := free0 - Demand(d0, inode.block, lo, hi);
      ok, block, lost := WriteLoop(ino, inode, d0, data, offset, lo, hi, free0, slack);
      if ok { LoopDone(free0, d0, alloc.Free(), disk[..], inode.block, block, lo, hi, slack, lost); }
    }

    /** What the books say when the loop has come to the end. */
    static lemma LoopDone(free0: nat, d0: seq<seq<Byte>>, free: set<nat>, d: seq<seq<Byte>>, b0: seq<nat>, block: seq<nat>, lo: nat, hi: nat, slack: int, lost: bool)
      requires |block| == |b0| == 15 && lo <= hi && slack == free0 - Demand(d0, b0, lo, hi) && DiskOk(d) && block[13] == 0 && block[14] == 0
      requires InBooks(free, d, b0, block, lo, hi, hi, slack, lost)
      ensures Reports(free0, d0, b0, lo, hi) && |free| == Remaining(free0, Demand(d0, b0, lo, hi))
      ensures block[12] != 0 <==> GetsTable(free0, Demand(d0, b0, lo, hi), b0[12] != 0, lo, hi)
      ensures !lost <==> (lo < hi ==> hi <= MAX_BLOCKS) && free0 >= Need(d0, b0, lo, hi)
      ensures lost ==> HasHole(d, block, lo, hi)
    {
      Reported(free0, d0, free, d, b0, block, lo, hi, slack);
      if lost {
        if hi - 1 >= MAX_BLOCKS { NothingBeyond(d, block, hi - 1); }
        assert Mapped(d, block, hi - 1) == 0;
      }
    }

    method WriteLoop(ino: nat, inode: Inode, ghost d0: seq<seq<Byte>>, data: seq<Byte>, offset: nat, ghost lo: nat, ghost hi: nat,
                     ghost free0: nat, ghost slack: int)
      returns (ok: bool, block: seq<nat>, ghost lost: bool)
      requires Safe(ino, inode, d0, inode.block, offset, |data|) && hi == LastBlock(offset, |data|) && lo == offset / 1024 <= hi
      requires Going(inode, inode.block, data, offset, 0, lo, lo, hi, slack, false) && slack == free0 - Demand(d0, inode.block, lo, hi)
      modifies this`user, disk, alloc.bitmap, alloc.bitmap.bytes, alloc.freeCount
      ensures Safe(ino, inode, d0, block, offset, |data|)
      ensures ok ==> Going(inode, block, data, offset, |data|, lo, hi, hi, slack, lost)
      ensures !ok ==> Stopped(free0, d0, inode.block, lo, hi, alloc.Free())
    {
      block := inode.block;
      var pos: nat := 0;
      ok, lost := true, false;
      ghost var next: nat := lo;
      while ok && pos < |data|
        invariant Safe(ino, inode, d0, block, offset, |data|) && pos <= |data|
        invariant ok ==> Going(inode, block, data, offset, pos, lo, next, hi, slack, lost)
        invariant !ok ==> Stopped(free0, d0, inode.block, lo, hi, alloc.Free())
        decreases ok, |data| - pos
      {
        var chunk;
        ok, block, chunk, lost := WriteChunk(ino, inode, block, d0, data, offset, pos, lo, next, hi, free0, slack, lost);
        if ok { next, pos := next + 1, pos + chunk; }
      }
    }

    /** What holds throughout the loop, whether or not it has failed. */
    ghost predicate Safe(ino: nat, inode: Inode, d0: seq<seq<Byte>>, block: seq<nat>, offset: nat, size: nat)
      reads this, disk, alloc, alloc.bitmap, alloc.bitmap.bytes, alloc.freeCount
    {
      && Busy(ino, block) && Older(inode.block, block) && OthersSame(d0, disk[..], inodes, ino)
      && Changed(d0, inode.block, disk[..], block, offset, offset + size)
    }

    /** What holds while the loop goes on. */
    ghost predicate Going(inode: Inode, block: seq<nat>, data: seq<Byte>, offset: nat, pos: nat, lo: nat, next: nat, hi: nat, slack: int, lost: bool)
      requires |block| == |inode.block| == 15
      reads disk, alloc.bitmap
    {
      && pos <= |data| && (if pos < |data| then next == (offset + pos) / 1024 < hi else next == hi)
      && (!lost ==> Written(disk[..], block, data, offset, pos))
      && InBooks(alloc.Free(), disk[..], inode.block, block, lo, next, hi, slack, lost)
    }

    /** What the loop knows of the blocks left: nothing is lost before the last free block, except past the last block that can be mapped. */
    static ghost predicate InBooks(free: set<nat>, d: seq<seq<Byte>>, b0: seq<nat>, block: seq<nat>, lo: nat, next: nat, hi: nat, slack: int, lost: bool)
      requires |block| == |b0| == 15
    {
      || (Balanced(free, d, b0, block, lo, next, hi, slack) && (lost <==> next > MAX_BLOCKS && next > lo))
      || (Jammed(free, b0, block, lo, next, hi, slack) && lost)
    }

    /** The loop has failed: no block is left, and the write is not one that is reported. */
    static ghost predicate Stopped(free0: nat, d0: seq<seq<Byte>>, b0: seq<nat>, lo: nat, hi: nat, free: set<nat>)
      requires |b0| == 15 && lo <= hi
    {
      !Reports(free0, d0, b0, lo, hi) && free == {}
    }

    /** PutChunk with the books. */
    method WriteChunk(ino: nat, inode: Inode, block: seq<nat>, ghost d0: seq<seq<Byte>>, data: seq<Byte>, offset: nat, pos: nat,
                      ghost lo: nat, ghost l: nat, ghost hi: nat, ghost free0: nat, ghost slack: int, ghost lost: bool)
      returns (ok: bool, block': seq<nat>, chunk: nat, ghost lost': bool)
      requires Safe(ino, inode, d0, block, offset, |data|) && pos < |data| && hi == LastBlock(offset, |data|) && lo <= hi
      requires Going(inode, block, data, offset, pos, lo, l, hi, slack, lost)
      requires slack == free0 - Demand(d0, inode.block, lo, hi)
      modifies this`user, disk, alloc.bitmap, alloc.bitmap.bytes, alloc.freeCount
      ensures Safe(ino, inode, d0, block', offset, |data|) && 0 < chunk <= |data| - pos
      ensures ok ==> Going(inode, block', data, offset, pos + chunk, lo, l + 1, hi, slack, lost')
      ensures !ok ==> Stopped(free0, d0, inode.block, lo, hi, alloc.Free())
    {
      ghost var d, free, placed := disk[..], alloc.Free(), false;
      ok, block', chunk, placed := PutChunk(ino, block, d0, inode.block, data, offset, pos);
      lost' := lost || !placed;
      NextBlock(offset, pos, chunk, |data|);
      KeepBooks(free0, d0, free, d, inode.block, block, lo, l, hi, slack, lost, ok, placed, alloc.Free(), disk[..], block');
    }

    static lemma KeepBooks(free0: nat, d0: seq<seq<Byte>>, free: set<nat>, d: seq<seq<Byte>>, b0: seq<nat>, block: seq<nat>, lo: nat, l: nat, hi: nat,
                           slack: int, lost: bool, ok: bool, placed: bool, free': set<nat>, d': seq<seq<Byte>>, block': seq<nat>)
      requires |block| == |block'| == |b0| == 15 && DiskOk(d) && DiskOk(d') && lo <= l < hi && slack == free0 - Demand(d0, b0, lo, hi)
      requires InBooks(free, d, b0, block, lo, l, hi, slack, lost) && block[13] == 0 && block[14] == 0
      requires !ok <==> Mapped(d, block, l) == 0 && free == {}
      requires placed ==> ok && l < MAX_BLOCKS && (if l >= 12 then block'[12] != 0 else block'[12] == block[12]) && Spent(d, block, free, d', block', free', l)
      requires Mapped(d, block, l) != 0 ==> placed
      requires ok && !placed ==>
                 && block' == block && |free'| == |free| - 1 && (l >= MAX_BLOCKS || (l >= 12 && block[12] == 0 && free' == {} && |free| == 1))
      ensures !ok ==> !Reports(free0, d0, b0, lo, hi)
      ensures ok ==> InBooks(free', d', b0, block', lo, l + 1, hi, slack, lost || !placed)
    {
      if !ok {
        NotReported(free0, d0, free, d, b0, block, lo, l, hi, slack);
      } else if Jammed(free, b0, block, lo, l, hi, slack) {
        JammedStops(d, b0, block, lo, l, hi, slack);
      } else if placed {
        StillBalanced(free, d, b0, block, lo, l, hi, slack, free', d', block');
      } else if l >= MAX_BLOCKS {
        PastTheEnd(free, d, b0, block, lo, l, hi, slack, free', d');
      } else {
        Jams(free, d, b0, block, lo, l, hi, slack);
      }
    }

    /** With no block left and no table the next block is neither mapped nor to be had. */
    static lemma JammedStops(d: seq<seq<Byte>>, b0: seq<nat>, block: seq<nat>, lo: nat, l: nat, hi: nat, slack: int)
      requires |block| == |b0| == 15 && Jammed({}, b0, block, lo, l, hi, slack) && DiskOk(d) && block[13] == 0 && block[14] == 0
      ensures Mapped(d, block, l) == 0
    {
      if l >= MAX_BLOCKS { NothingBeyond(d, block, l); }
    }

    /** ext2_read_at: exactly the bytes asked for that the file has, up to its end or the first hole. */
    method ReadAt(ino: nat, offset: nat, count: nat) returns (r: int, buf: seq<Byte>)
      requires Valid()
      ensures ino !in inodes || !IsRegular(inodes[ino]) ==> r == -ENOENT
      ensures ino in inodes && IsRegular(inodes[ino]) ==> r == |buf| && (offset >= inodes[ino].size ==> r == 0)
      ensures ino in inodes && IsRegular(inodes[ino]) && offset < inodes[ino].size ==>
                var inode := inodes[ino];
                var end := if offset + count < inode.size then offset + count else inode.size;
                && offset + r <= end && Shows(Bytes(disk[..], inode.block), offset, buf)
                && (offset + r < end ==> offset + r !in Bytes(disk[..], inode.block))
                && (Whole(disk[..], inode) ==> buf == Content(disk[..], inode)[offset..end])
    {
      if ino !in inodes { return -ENOENT, []; }
      var inode := inodes[ino];
      if !IsRegular(inode) { return -ENOENT, []; }
      if offset >= inode.size { return 0, []; }
      var avail := inode.size - offset;
      buf := ReadBlocks(ino, inode, offset, if count > avail then avail else count);
      if Whole(disk[..], inode) {
        WholeBound(disk[..], inode);
        WholeShows(disk[..], inode, offset, buf);
        assert offset + |buf| < inode.size ==> (offset + |buf|) / 1024 < BlocksFor(inode.size);
      }
      return |buf|, buf;
    }

    method ReadBlocks(ino: nat, inode: Inode, offset: nat, n: nat) returns (buf: seq<Byte>)
      requires Valid() && ino in inodes && inode == inodes[ino]
      ensures |buf| <= n && Shows(Bytes(disk[..], inode.block), offset, buf)
      ensures |buf| < n ==> Mapped(disk[..], inode.block, (offset + |buf|) / 1024) == 0 && offset + |buf| !in Bytes(disk[..], inode.block)
    {
      buf := [];
      while |buf| < n
        invariant |buf| <= n && Shows(Bytes(disk[..], inode.block), offset, buf)
      {
        var part := ReadChunk(ino, inode, offset + |buf|, n - |buf|);
        if part == [] { return; }
        ShowsMore(Bytes(disk[..], inode.block), offset, buf, part);
        buf := buf + part;
      }
    }

    /** One round of its loop: some bytes, or none at a hole. */
    method ReadChunk(ino: nat, inode: Inode, at: nat, n: nat) returns (part: seq<Byte>)
      requires Valid() && ino in inodes && inode == inodes[ino] && n > 0
      ensures |part| <= n && Shows(Bytes(disk[..], inode.block), at, part)
      ensures part == [] ==> Mapped(disk[..], inode.block, at / 1024) == 0 && at !in Bytes(disk[..], inode.block)
    {
      var l, off := at / 1024, at % 1024;
      var chunk := if 1024 - off > n then n else 1024 - off;
      var phys := Mapped(disk[..], inode.block, l);
      if phys == 0 { return []; }
      Readable(ino, l);
      PointersOnDisk(ino);
      ChunkShows(disk[..], inode.block, l, off, chunk);
      part := disk[phys][off..off + chunk];
    }

    lemma PointersOnDisk(ino: nat)
      requires Valid() && ino in inodes
      ensures OnDisk(disk[..], inodes[ino].block)
    {
      forall l: nat | l < MAX_BLOCKS ensures Mapped(disk[..], inodes[ino].block, l) == 0 || Mapped(disk[..], inodes[ino].block, l) < disk.Length {
        assert RefOk(disk[..], user, ino, inodes[ino].block, l);
      }
    }

    /** A block that an inode points to can be read. */
    lemma Readable(ino: nat, l: nat)
      requires Valid() && ino in inodes && Mapped(disk[..], inodes[ino].block, l) != 0
      ensures l < MAX_BLOCKS && Mapped(disk[..], inodes[ino].block, l) < disk.Length
      ensures |disk[Mapped(disk[..], inodes[ino].block, l)]| == 1024
    {
      if l >= MAX_BLOCKS { NothingBeyond(disk[..], inodes[ino].block, l); }
      assert RefOk(disk[..], user, ino, inodes[ino].block, l);
    }
  }

  lemma SameOthers(d: seq<seq<Byte>>, user: map<nat, Use>, inodes: map<nat, Inode>, ino: nat)
    requires OthersRefs(d, user, inodes, ino) && UsersOk(d, user)
    ensures OthersSame(d, d, inodes, ino)
  {
    forall i | i in inodes && i != ino ensures SameFile(d, d, inodes[i].block) { SameItself(d, user, i, inodes[i].block); }
  }

  lemma SameItself(d: seq<seq<Byte>>, user: map<nat, Use>, ino: nat, block: seq<nat>)
    requires RefsOk(d, user, ino, block) && UsersOk(d, user)
    ensures SameFile(d, d, block)
  {
    forall l: nat | l < MAX_BLOCKS ensures SameBlock(d, d, block, l) { assert RefOk(d, user, ino, block, l); }
  }

  /** First the pointer, then the data. */
  lemma RemapThenWrite(d: seq<seq<Byte>>, block: seq<nat>, d1: seq<seq<Byte>>, user: map<nat, Use>, ino: nat, block': seq<nat>,
                       l: nat, phys: nat, buf: seq<Byte>)
    requires Remapped(d, block, d1, block', l, phys) && RefsOk(d1, user, ino, block') && UsersOk(d1, user)
    requires l < MAX_BLOCKS && 0 < phys < |d1| && |buf| == 1024 && |d| == |d1|
    ensures phys in user && user[phys] == Data(ino, l) && user[phys := Data(ino, l)] == user
    ensures RefsOk(d1[phys := buf], user, ino, block') && Remapped(d, block, d1[phys := buf], block', l, phys)
  {
    var d2 := d1[phys := buf];
    assert RemappedAt(d, block, d1, block', l, phys, l);
    assert RefOk(d1, user, ino, block', l);
    Overwritten(d1, user, ino, block', l, buf);
    forall k: nat | k < MAX_BLOCKS ensures RemappedAt(d, block, d2, block', l, phys, k) {
      assert RemappedAt(d, block, d1, block', l, phys, k) && RemappedAt(d1, block', d2, block', l, phys, k);
    }
  }

  /** The blocks still needed from `l` on were reduced by exactly the blocks used. */
  ghost predicate Spent(d: seq<seq<Byte>>, block: seq<nat>, free: set<nat>, d': seq<seq<Byte>>, block': seq<nat>, free': set<nat>, l: nat)
    requires |block| == |block'| == 15 && DiskOk(d) && DiskOk(d')
  {
    forall hi: nat {:trigger Need(d', block', l + 1, hi)} :: l < hi <= MAX_BLOCKS ==>
      |free'| - Need(d', block', l + 1, hi) == |free| - Need(d, block, l, hi)
  }

  lemma NeedAll(d: seq<seq<Byte>>, b: seq<nat>, free: set<nat>, d': seq<seq<Byte>>, b': seq<nat>, free': set<nat>, l: nat, phys: nat)
    requires DiskOk(d) && DiskOk(d') && Remapped(d, b, d', b', l, phys) && phys != 0 && l < MAX_BLOCKS
    requires b'[12] == b[12] || (b[12] == 0 && l >= 12)
    requires l >= 12 ==> b'[12] != 0
    requires |free'| == |free| - (if Mapped(d, b, l) == 0 then 1 else 0) - (if l >= 12 && b[12] == 0 then 1 else 0)
    ensures Spent(d, b, free, d', b', free', l)
  {
    forall hi: nat | l < hi <= MAX_BLOCKS ensures |free'| - Need(d', b', l + 1, hi) == |free| - Need(d, b, l, hi) {
      NeedStep(d, b, d', b', l, phys, hi);
    }
  }

  /** A store that no pointer leads to keeps what was kept. */
  lemma SameKept(d0: seq<seq<Byte>>, b0: seq<nat>, d: seq<seq<Byte>>, d': seq<seq<Byte>>, block: seq<nat>, lo: nat, hi: nat)
    requires Changed(d0, b0, d, block, lo, hi) && SameFile(d, d', block) && DiskOk(d')
    ensures Changed(d0, b0, d', block, lo, hi)
  {
    forall l: nat | l < MAX_BLOCKS ensures StableAt(d0, b0, d', block, l) {
      assert StableAt(d0, b0, d, block, l) && SameBlock(d, d', block, l);
    }
    forall l: nat, j: nat | l < MAX_BLOCKS && j < 1024 ensures KeptAt(d0, b0, d', lo, hi, l, j) {
      assert KeptAt(d0, b0, d, lo, hi, l, j) && StableAt(d0, b0, d, block, l) && SameBlock(d, d', block, l);
    }
    forall l: nat, j: nat | l < MAX_BLOCKS && j < 1024 ensures FilledAt(d0, b0, d', block, lo, hi, l, j) {
      assert FilledAt(d0, b0, d, block, lo, hi, l, j) && SameBlock(d, d', block, l);
    }
  }

  const ENOENT: int := 2

  /** `(i_mode & 0xF000) == EXT2_S_IFREG` */
  predicate IsRegular(inode: Inode) {
    inode.mode / 0x1000 % 16 == 8
  }

  /** One past the last block of a write. */
  function LastBlock(offset: nat, len: nat): nat {
    if len == 0 then offset / 1024 else BlocksFor(offset + len)
  }

  lemma NextBlock(offset: nat, pos: nat, chunk: nat, len: nat)
    requires pos < len && chunk == (var off := (offset + pos) % 1024; if 1024 - off > len - pos then len - pos else 1024 - off)
    ensures 0 < chunk <= len - pos
    ensures var l := (offset + pos) / 1024;
            if pos + chunk < len then (offset + pos + chunk) / 1024 == l + 1 < LastBlock(offset, len) else l + 1 == LastBlock(offset, len)
  {
    var l, off := (offset + pos) / 1024, (offset + pos) % 1024;
    assert offset + pos == 1024 * l + off;
  }

  lemma OlderTwice(a: seq<nat>, b: seq<nat>, c: seq<nat>)
    requires Older(a, b) && Older(b, c)
    ensures Older(a, c)
  {
  }

  lemma KeptItself(d: seq<seq<Byte>>, user: map<nat, Use>, ino: nat, block: seq<nat>, lo: nat, hi: nat)
    requires DiskOk(d) && RefsOk(d, user, ino, block) && UsersOk(d, user)
    ensures Changed(d, block, d, block, lo, hi)
  {
    forall l: nat | l < MAX_BLOCKS ensures StableAt(d, block, d, block, l) { }
    forall l: nat, j: nat | l < MAX_BLOCKS && j < 1024
      ensures KeptAt(d, block, d, lo, hi, l, j) && FilledAt(d, block, d, block, lo, hi, l, j)
    {
      assert RefOk(d, user, ino, block, l);
    }
  }

  /** The older pointers lead to the same blocks. */
  lemma OlderChanged(d0: seq<seq<Byte>>, older: seq<nat>, d: seq<seq<Byte>>, newer: seq<nat>, lo: nat, hi: nat)
    requires DiskOk(d0) && DiskOk(d) && Older(older, newer) && Changed(d0, older, d, newer, lo, hi)
    ensures Changed(d0, older, d, older, lo, hi)
  {
    forall l: nat | l < MAX_BLOCKS ensures StableAt(d0, older, d, older, l) { assert StableAt(d0, older, d, newer, l); }
    forall l: nat, j: nat | l < MAX_BLOCKS && j < 1024 ensures FilledAt(d0, older, d, older, lo, hi, l, j) {
      assert FilledAt(d0, older, d, newer, lo, hi, l, j);
    }
  }

  /** Writing a block marked for `l` leaves every pointer of the file good, whether or not one leads to it. */
  lemma OwnData(d: seq<seq<Byte>>, user: map<nat, Use>, ino: nat, block: seq<nat>, l: nat, phys: nat, buf: seq<Byte>)
    requires DiskOk(d) && RefsOk(d, user, ino, block) && UsersOk(d, user) && phys in user && user[phys] == Data(ino, l) && |buf| == 1024
    ensures phys < |d| && RefsOk(d[phys := buf], user, ino, block)
    ensures Mapped(d, block, l) == 0 ==> SameFile(d, d[phys := buf], block)
  {
    var d' := d[phys := buf];
    forall k: nat | k < MAX_BLOCKS
      ensures RefOk(d', user, ino, block, k) && (Mapped(d, block, l) == 0 ==> SameBlock(d, d', block, k))
    {
      assert RefOk(d, user, ino, block, k);
    }
  }
}
