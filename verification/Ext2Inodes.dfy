/** Where inodes lie on the disk, and reading and writing them there (kernel/fs/ext2/ext2_inode.c). */
module Ext2Inodes {

  import opened Ext2Blocks

  /** sizeof(struct ext2_inode): the packed struct lacks the last four bytes of a 128-byte inode. */
  const INODE_BYTES: nat := 124

  /** inodes_per_group, num_groups, inode_size and bg_inode_table of each group. */
  datatype Geometry = Geometry(perGroup: nat, groups: nat, size: nat, tables: seq<nat>)

  /** Blocks of one inode table. */
  function TableBlocks(geo: Geometry): nat {
    (geo.perGroup * geo.size + 1023) / 1024
  }

  /** Inodes have 128 or 256 bytes, and the tables of the groups do not overlap. */
  ghost predicate GeometryOk(geo: Geometry, blocks: nat) {
    && geo.perGroup > 0 && (geo.size == 128 || geo.size == 256) && |geo.tables| == geo.groups
    && (forall g :: 0 <= g < geo.groups ==> geo.tables[g] + TableBlocks(geo) <= blocks)
    && forall g, h :: 0 <= g < h < geo.groups ==>
         geo.tables[g] + TableBlocks(geo) <= geo.tables[h] || geo.tables[h] + TableBlocks(geo) <= geo.tables[g]
  }

  function Group(geo: Geometry, ino: nat): nat
    requires ino > 0 && geo.perGroup > 0
  {
    (ino - 1) / geo.perGroup
  }

  function Index(geo: Geometry, ino: nat): (i: nat)
    requires ino > 0 && geo.perGroup > 0
    ensures i < geo.perGroup
  {
    (ino - 1) % geo.perGroup
  }

  predicate Exists(geo: Geometry, ino: nat)
    requires geo.perGroup > 0
  {
    ino != 0 && Group(geo, ino) < geo.groups
  }

  function BlockOf(geo: Geometry, ino: nat): nat
    requires geo.perGroup > 0 && Exists(geo, ino) && |geo.tables| == geo.groups
  {
    geo.tables[Group(geo, ino)] + Index(geo, ino) * geo.size / 1024
  }

  function OffsetOf(geo: Geometry, ino: nat): nat
    requires geo.perGroup > 0 && Exists(geo, ino)
  {
    Index(geo, ino) * geo.size % 1024
  }

  lemma Inside(geo: Geometry, blocks: nat, ino: nat)
    requires GeometryOk(geo, blocks) && Exists(geo, ino)
    ensures geo.tables[Group(geo, ino)] <= BlockOf(geo, ino) < geo.tables[Group(geo, ino)] + TableBlocks(geo)
    ensures BlockOf(geo, ino) < blocks && OffsetOf(geo, ino) + INODE_BYTES <= 1024
  {
    if geo.size == 128 { Fits128(Index(geo, ino), geo.perGroup); } else { Fits256(Index(geo, ino), geo.perGroup); }
  }

  lemma Fits128(i: nat, n: nat)
    requires i < n
    ensures i * 128 / 1024 < (n * 128 + 1023) / 1024 && i * 128 % 1024 + 128 <= 1024
  {
    assert i * 128 / 1024 == i / 8 && i * 128 % 1024 == i % 8 * 128;
  }

  lemma Fits256(i: nat, n: nat)
    requires i < n
    ensures i * 256 / 1024 < (n * 256 + 1023) / 1024 && i * 256 % 1024 + 128 <= 1024
  {
    assert i * 256 / 1024 == i / 4 && i * 256 % 1024 == i % 4 * 256;
  }

  lemma SameNumber(geo: Geometry, a: nat, b: nat)
    requires geo.perGroup > 0 && a > 0 && b > 0 && Group(geo, a) == Group(geo, b) && Index(geo, a) == Index(geo, b)
    ensures a == b
  {
    var n := geo.perGroup;
    assert a - 1 == Group(geo, a) * n + Index(geo, a) && b - 1 == Group(geo, b) * n + Index(geo, b);
  }

  /** Two inodes never share a byte. */
  lemma SlotsApart(geo: Geometry, blocks: nat, a: nat, b: nat)
    requires GeometryOk(geo, blocks) && Exists(geo, a) && Exists(geo, b) && a != b
    ensures || BlockOf(geo, a) != BlockOf(geo, b)
            || OffsetOf(geo, a) + INODE_BYTES <= OffsetOf(geo, b) || OffsetOf(geo, b) + INODE_BYTES <= OffsetOf(geo, a)
  {
    Inside(geo, blocks, a);
    Inside(geo, blocks, b);
    if Group(geo, a) == Group(geo, b) {
      var i, j := Index(geo, a), Index(geo, b);
      if i == j { SameNumber(geo, a, b); }
      if geo.size == 128 { Multiples(i, j, 128); } else { Multiples(i, j, 256); }
    }
  }

  lemma Multiples(i: nat, j: nat, size: nat)
    requires i != j && (size == 128 || size == 256)
    ensures i * size / 1024 != j * size / 1024 || i * size % 1024 + 128 <= j * size % 1024 || j * size % 1024 + 128 <= i * size % 1024
  {
    if size == 128 {
      assert i * 128 / 1024 == i / 8 && i * 128 % 1024 == i % 8 * 128 && j * 128 / 1024 == j / 8 && j * 128 % 1024 == j % 8 * 128;
    } else {
      assert i * 256 / 1024 == i / 4 && i * 256 % 1024 == i % 4 * 256 && j * 256 / 1024 == j / 4 && j * 256 % 1024 == j % 4 * 256;
    }
  }

  /** The bytes of an inode on the disk. */
  ghost function Raw(disk: seq<seq<Byte>>, geo: Geometry, ino: nat): seq<Byte>
    requires GeometryOk(geo, |disk|) && Exists(geo, ino) && FullBlocks(disk)
  {
    Inside(geo, |disk|, ino);
    disk[BlockOf(geo, ino)][OffsetOf(geo, ino)..OffsetOf(geo, ino) + INODE_BYTES]
  }

  ghost predicate FullBlocks(disk: seq<seq<Byte>>) {
    forall b :: 0 <= b < |disk| ==> |disk[b]| == 1024
  }

  method ReadInode(disk: array<seq<Byte>>, geo: Geometry, ino: nat) returns (ok: bool, raw: seq<Byte>)
    requires GeometryOk(geo, disk.Length) && FullBlocks(disk[..])
    ensures ok == Exists(geo, ino) && (ok ==> raw == Raw(disk[..], geo, ino))
  {
    if !Exists(geo, ino) { return false, []; }
    Inside(geo, disk.Length, ino);
    var off := OffsetOf(geo, ino);
    return true, disk[BlockOf(geo, ino)][off..off + INODE_BYTES];
  }

  /** What is written is read back, and no other inode changes. */
  method WriteInode(disk: array<seq<Byte>>, geo: Geometry, ino: nat, raw: seq<Byte>) returns (ok: bool)
    requires GeometryOk(geo, disk.Length) && FullBlocks(disk[..]) && |raw| == INODE_BYTES
    modifies disk
    ensures FullBlocks(disk[..]) && ok == Exists(geo, ino)
    ensures ok ==> Raw(disk[..], geo, ino) == raw
    ensures forall i :: Exists(geo, i) && i != ino ==> Raw(disk[..], geo, i) == old(Raw(disk[..], geo, i))
    ensures forall b :: 0 <= b < disk.Length && !(ok && b == BlockOf(geo, ino)) ==> disk[b] == old(disk[b])
  {
    if !Exists(geo, ino) { return false; }
    ghost var d := disk[..];
    Inside(geo, disk.Length, ino);
    var b, off := BlockOf(geo, ino), OffsetOf(geo, ino);
    var buf := disk[b];
    disk[b] := buf[..off] + raw + buf[off + INODE_BYTES..];
    assert disk[..] == d[b := disk[b]];
    assert disk[b][off..off + INODE_BYTES] == raw;
    forall i | Exists(geo, i) && i != ino ensures Raw(disk[..], geo, i) == Raw(d, geo, i) {
      Inside(geo, disk.Length, i);
      SlotsApart(geo, disk.Length, ino, i);
      if BlockOf(geo, i) == b { PutKeeps(buf, off, raw, OffsetOf(geo, i)); }
    }
    return true;
  }

  /** Another slot of the same block. */
  lemma PutKeeps(buf: seq<Byte>, off: nat, raw: seq<Byte>, o: nat)
    requires |buf| == 1024 && off + INODE_BYTES <= 1024 && o + INODE_BYTES <= 1024 && |raw| == INODE_BYTES
    requires off + INODE_BYTES <= o || o + INODE_BYTES <= off
    ensures (buf[..off] + raw + buf[off + INODE_BYTES..])[o..o + INODE_BYTES] == buf[o..o + INODE_BYTES]
  {
    var out := buf[..off] + raw + buf[off + INODE_BYTES..];
    forall k | o <= k < o + INODE_BYTES ensures out[k] == buf[k] { }
  }
}
