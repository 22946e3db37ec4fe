/** Block mapping of ext2 inodes over raw 1024-byte blocks (kernel/fs/ext2/ext2_block.c), and what keeps files apart. */
module Ext2Blocks {

  type Byte = x: int | 0 <= x < 256

  /** Blocks reachable through the direct pointers and the single-indirect table. */
  const MAX_BLOCKS: nat := 268

  /** i_mode, i_size, i_blocks and i_block[15]. */
  datatype Inode = Inode(mode: nat, size: nat, blocks: nat, block: seq<nat>)

  // ----- words in a block -----

  /** The `i`-th little-endian 32-bit word. */
  function Word(b: seq<Byte>, i: nat): (w: nat)
    requires 4 * i + 4 <= |b|
    ensures w < 0x1_0000_0000
  {
    var b0: int, b1: int, b2: int, b3: int := b[4 * i], b[4 * i + 1], b[4 * i + 2], b[4 * i + 3];
    b0 + 0x100 * b1 + 0x1_0000 * b2 + 0x100_0000 * b3
  }

  function PutWord(b: seq<Byte>, i: nat, w: nat): (r: seq<Byte>)
    requires 4 * i + 4 <= |b| && w < 0x1_0000_0000
    ensures |r| == |b| && Word(r, i) == w
    ensures forall j :: 0 <= j < |b| && !(4 * i <= j < 4 * i + 4) ==> r[j] == b[j]
  {
    b[4 * i := w % 0x100][4 * i + 1 := w / 0x100 % 0x100][4 * i + 2 := w / 0x1_0000 % 0x100][4 * i + 3 := w / 0x100_0000]
  }

  lemma WordKept(b: seq<Byte>, i: nat, w: nat, j: nat)
    requires 4 * i + 4 <= |b| && 4 * j + 4 <= |b| && w < 0x1_0000_0000 && i != j
    ensures Word(PutWord(b, i, w), j) == Word(b, j)
  {
  }

  function Zeros(): (z: seq<Byte>)
    ensures |z| == 1024 && forall j :: 0 <= j < 1024 ==> z[j] == 0
  {
    seq(1024, _ => 0)
  }

  // ----- mapping -----

  ghost predicate DiskOk(disk: seq<seq<Byte>>) {
    && 0 < |disk| <= 0x1_0000_0000 && disk[0] == Zeros()
    && forall b :: 0 <= b < |disk| ==> |disk[b]| == 1024
  }

  /** Word `i` of block `b`; 0 when the block cannot be read. */
  function Entry(disk: seq<seq<Byte>>, b: nat, i: nat): nat
    requires i < 256
  {
    if b < |disk| && |disk[b]| == 1024 then Word(disk[b], i) else 0
  }

  /** get_block_from_inode: direct, single, double and triple indirect. */
  function Mapped(disk: seq<seq<Byte>>, block: seq<nat>, logical: nat): nat
    requires |block| == 15
  {
    if logical < 12 then block[logical]
    else if logical < 268 then Entry(disk, block[12], logical - 12)
    else
      var l := logical - 268;
      if l < 65536 then Entry(disk, Entry(disk, block[13], l / 256), l % 256)
      else
        var m := l - 65536;
        if m < 16777216 then
          Entry(disk, Entry(disk, Entry(disk, block[14], m / 65536), m % 65536 / 256), m % 65536 % 256)
        else 0
  }

  /** What a block in use is for. */
  datatype Use = Data(ino: nat, logical: nat) | Table(ino: nat)

  ghost predicate RefOk(disk: seq<seq<Byte>>, user: map<nat, Use>, ino: nat, block: seq<nat>, l: nat)
    requires |block| == 15
  {
    var b := Mapped(disk, block, l);
    b != 0 ==> b in user && user[b] == Data(ino, l)
  }

  /** Every pointer of an inode leads to a block in use for just that. */
  ghost predicate RefsOk(disk: seq<seq<Byte>>, user: map<nat, Use>, ino: nat, block: seq<nat>) {
    && |block| == 15 && block[13] == 0 && block[14] == 0
    && (block[12] != 0 ==> block[12] in user && user[block[12]] == Table(ino))
    && forall l: nat {:trigger RefOk(disk, user, ino, block, l)} :: l < MAX_BLOCKS ==> RefOk(disk, user, ino, block, l)
  }

  ghost predicate UsersOk(disk: seq<seq<Byte>>, user: map<nat, Use>) {
    forall b :: b in user ==> 0 < b < |disk|
  }

  /** Nothing is mapped past the single-indirect range: the double and triple pointers are zero and block 0 is zeros. */
  lemma NothingBeyond(disk: seq<seq<Byte>>, block: seq<nat>, logical: nat)
    requires DiskOk(disk) && |block| == 15 && block[13] == 0 && block[14] == 0 && logical >= MAX_BLOCKS
    ensures Mapped(disk, block, logical) == 0
  {
  }

  // ----- a file's view -----

  ghost predicate SameBlock(disk: seq<seq<Byte>>, disk': seq<seq<Byte>>, block: seq<nat>, l: nat)
    requires |block| == 15
  {
    var b := Mapped(disk, block, l);
    Mapped(disk', block, l) == b && (b != 0 ==> b < |disk| && b < |disk'| && disk'[b] == disk[b])
  }

  /** A file looks the same. */
  ghost predicate SameFile(disk: seq<seq<Byte>>, disk': seq<seq<Byte>>, block: seq<nat>) {
    && |block| == 15
    && forall l: nat {:trigger SameBlock(disk, disk', block, l)} :: l < MAX_BLOCKS ==> SameBlock(disk, disk', block, l)
  }

  lemma SameFileTwice(d0: seq<seq<Byte>>, d1: seq<seq<Byte>>, d2: seq<seq<Byte>>, block: seq<nat>)
    requires SameFile(d0, d1, block) && SameFile(d1, d2, block)
    ensures SameFile(d0, d2, block)
  {
    forall l: nat | l < MAX_BLOCKS ensures SameBlock(d0, d2, block, l) {
      assert SameBlock(d0, d1, block, l) && SameBlock(d1, d2, block, l);
    }
  }

  /** Writing a block that is not the file's leaves the file alone. */
  lemma Untouched(disk: seq<seq<Byte>>, user: map<nat, Use>, ino: nat, block: seq<nat>, b: nat, data: seq<Byte>, use: Use)
    requires RefsOk(disk, user, ino, block) && UsersOk(disk, user) && 0 < b < |disk| && |data| == 1024
    requires b in user ==> user[b].ino != ino
    requires use.ino != ino
    ensures SameFile(disk, disk[b := data], block) && RefsOk(disk[b := data], user[b := use], ino, block)
  {
    var disk', user' := disk[b := data], user[b := use];
    forall l: nat | l < MAX_BLOCKS ensures SameBlock(disk, disk', block, l) && RefOk(disk', user', ino, block, l) {
      assert RefOk(disk, user, ino, block, l);
    }
  }

  /** So does writing a block that is nobody's. */
  lemma UntouchedFree(disk: seq<seq<Byte>>, user: map<nat, Use>, ino: nat, block: seq<nat>, b: nat, data: seq<Byte>, use: Use)
    requires RefsOk(disk, user, ino, block) && UsersOk(disk, user) && 0 < b < |disk| && |data| == 1024 && b !in user
    ensures SameFile(disk, disk[b := data], block) && RefsOk(disk[b := data], user[b := use], ino, block)
  {
    var disk', user' := disk[b := data], user[b := use];
    forall l: nat | l < MAX_BLOCKS ensures SameBlock(disk, disk', block, l) && RefOk(disk', user', ino, block, l) {
      assert RefOk(disk, user, ino, block, l);
    }
  }

  // ----- changing a file -----

  /** Overwriting a mapped block. */
  lemma Overwritten(disk: seq<seq<Byte>>, user: map<nat, Use>, ino: nat, block: seq<nat>, l: nat, data: seq<Byte>)
    requires RefsOk(disk, user, ino, block) && UsersOk(disk, user) && l < MAX_BLOCKS && |data| == 1024
    requires Mapped(disk, block, l) != 0
    ensures var b := Mapped(disk, block, l);
            && b < |disk| && RefsOk(disk[b := data], user, ino, block)
            && Remapped(disk, block, disk[b := data], block, l, b)
  {
    var b := Mapped(disk, block, l);
    assert RefOk(disk, user, ino, block, l);
    var disk' := disk[b := data];
    forall k: nat | k < MAX_BLOCKS
      ensures RefOk(disk', user, ino, block, k) && RemappedAt(disk, block, disk', block, l, b, k)
    {
      assert RefOk(disk, user, ino, block, k);
    }
  }

  ghost predicate RemappedAt(disk: seq<seq<Byte>>, block: seq<nat>, disk': seq<seq<Byte>>, block': seq<nat>, l: nat, b: nat, k: nat)
    requires |block| == |block'| == 15
  {
    var m := Mapped(disk, block, k);
    && Mapped(disk', block', k) == (if k == l then b else m)
    && (k != l && m != 0 ==> m < |disk| && m < |disk'| && disk'[m] == disk[m])
  }

  /** Block `l` is now at `b`; all others are where they were, with what they held. */
  ghost predicate Remapped(disk: seq<seq<Byte>>, block: seq<nat>, disk': seq<seq<Byte>>, block': seq<nat>, l: nat, b: nat) {
    && |block| == |block'| == 15
    && forall k: nat {:trigger RemappedAt(disk, block, disk', block', l, b, k)} ::
         k < MAX_BLOCKS ==> RemappedAt(disk, block, disk', block', l, b, k)
  }

  lemma AddDirect(disk: seq<seq<Byte>>, user: map<nat, Use>, ino: nat, block: seq<nat>, l: nat, b: nat)
    requires RefsOk(disk, user, ino, block) && UsersOk(disk, user) && l < 12 && b !in user && 0 < b < |disk|
    ensures RefsOk(disk, user[b := Data(ino, l)], ino, block[l := b]) && Remapped(disk, block, disk, block[l := b], l, b)
  {
    var block', user' := block[l := b], user[b := Data(ino, l)];
    forall k: nat | k < MAX_BLOCKS
      ensures RefOk(disk, user', ino, block', k) && RemappedAt(disk, block, disk, block', l, b, k)
    {
      assert RefOk(disk, user, ino, block, k);
    }
  }

  lemma AddInTable(disk: seq<seq<Byte>>, user: map<nat, Use>, ino: nat, block: seq<nat>, l: nat, b: nat)
    requires DiskOk(disk) && RefsOk(disk, user, ino, block) && UsersOk(disk, user) && 12 <= l < MAX_BLOCKS
    requires block[12] != 0 && b !in user && 0 < b < |disk|
    ensures block[12] < |disk|
    ensures var disk' := disk[block[12] := PutWord(disk[block[12]], l - 12, b)];
            RefsOk(disk', user[b := Data(ino, l)], ino, block) && Remapped(disk, block, disk', block, l, b)
  {
    var t := block[12];
    var disk', user' := disk[t := PutWord(disk[t], l - 12, b)], user[b := Data(ino, l)];
    forall k: nat | k < MAX_BLOCKS
      ensures RefOk(disk', user', ino, block, k) && RemappedAt(disk, block, disk', block, l, b, k)
    {
      assert RefOk(disk, user, ino, block, k);
      if k >= 12 && k != l { WordKept(disk[t], l - 12, b, k - 12); }
    }
  }

  lemma AddTable(disk: seq<seq<Byte>>, user: map<nat, Use>, ino: nat, block: seq<nat>, l: nat, b: nat, t: nat)
    requires DiskOk(disk) && RefsOk(disk, user, ino, block) && UsersOk(disk, user) && 12 <= l < MAX_BLOCKS
    requires block[12] == 0 && b !in user && t !in user && b != t && 0 < b < |disk| && 0 < t < |disk|
    ensures var disk' := disk[t := PutWord(Zeros(), l - 12, b)];
            && RefsOk(disk', user[b := Data(ino, l)][t := Table(ino)], ino, block[12 := t])
            && Remapped(disk, block, disk', block[12 := t], l, b)
  {
    var disk', user', block' := disk[t := PutWord(Zeros(), l - 12, b)], user[b := Data(ino, l)][t := Table(ino)], block[12 := t];
    forall k: nat | k < MAX_BLOCKS
      ensures RefOk(disk', user', ino, block', k) && RemappedAt(disk, block, disk', block', l, b, k)
    {
      assert RefOk(disk, user, ino, block, k);
      if k >= 12 && k != l { WordKept(Zeros(), l - 12, b, k - 12); }
    }
  }

  // ----- the inode on disk while a newer copy is in memory -----

  /** `older` lacks some of the pointers of `newer`. */
  ghost predicate Older(older: seq<nat>, newer: seq<nat>) {
    && |older| == |newer| == 15 && older[13] == newer[13] && older[14] == newer[14]
    && forall i :: 0 <= i < 13 ==> older[i] == 0 || older[i] == newer[i]
  }

  lemma OlderRefs(disk: seq<seq<Byte>>, user: map<nat, Use>, ino: nat, older: seq<nat>, newer: seq<nat>)
    requires DiskOk(disk) && RefsOk(disk, user, ino, newer) && Older(older, newer)
    ensures RefsOk(disk, user, ino, older)
    ensures forall l: nat :: l < MAX_BLOCKS && Mapped(disk, older, l) != 0 ==> Mapped(disk, newer, l) == Mapped(disk, older, l)
  {
    forall l: nat | l < MAX_BLOCKS
      ensures RefOk(disk, user, ino, older, l)
      ensures Mapped(disk, older, l) != 0 ==> Mapped(disk, newer, l) == Mapped(disk, older, l)
    {
      assert RefOk(disk, user, ino, newer, l);
    }
  }
}
