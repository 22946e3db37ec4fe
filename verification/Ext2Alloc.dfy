/** The block bitmaps and free counts of kernel/fs/ext2/ext2_alloc.c, for 1024-byte blocks: one bitmap block per group
    of 8192.  The bitmap blocks of all groups are kept here as one packed bitmap. */
module Ext2Alloc {

  import opened Bits

  const GROUP_BITS: nat := 8192
  const GROUP_BYTES: nat := 1024

  ghost function InGroup(clear: set<nat>, g: nat): set<nat> {
    set i | i in clear && i / 8192 == g
  }

  lemma GroupWithout(clear: set<nat>, i: nat, g: nat)
    requires i in clear
    ensures |InGroup(clear - {i}, g)| == |InGroup(clear, g)| - if i / 8192 == g then 1 else 0
  {
    assert InGroup(clear - {i}, g) == if i / 8192 == g then InGroup(clear, g) - {i} else InGroup(clear, g);
  }

  lemma GroupWith(clear: set<nat>, i: nat, g: nat)
    requires i !in clear
    ensures |InGroup(clear + {i}, g)| == |InGroup(clear, g)| + if i / 8192 == g then 1 else 0
  {
    GroupWithout(clear + {i}, i, g);
    assert clear + {i} - {i} == clear;
  }

  /** A byte of all ones has no clear bit. */
  lemma FullByte(s: seq<bv8>, i: nat)
    requires i < 8 * |s| && s[i / 8] == 0xFF
    ensures BitAt(s, i)
  {
    var k := i % 8;
    assert Bit(0xFF, k);
  }

  /** The count of group `g` changed by `delta`, and no other. */
  ghost predicate CountMoved(before: seq<nat>, after: seq<nat>, g: nat, delta: int) {
    |after| == |before| && forall h :: 0 <= h < |before| ==> after[h] == before[h] + if h == g then delta else 0
  }

  class BlockAllocator {
    /** s_first_data_block */
    const first: nat
    const groups: nat
    const bitmap: Bitmap
    /** bg_free_blocks_count of each group. */
    const freeCount: array<nat>

    ghost predicate Valid()
      reads this, bitmap, bitmap.bytes, freeCount
    {
      first > 0 && bitmap.Valid() && bitmap.size == 8192 * groups && freeCount.Length == groups
    }

    /** The counts agree with the bitmaps. */
    ghost predicate Counted()
      reads this, bitmap, freeCount
    {
      forall g: nat {:trigger freeCount[g]} :: g < freeCount.Length ==> freeCount[g] == |InGroup(bitmap.clear, g)|
    }

    ghost function Free(): set<nat>
      reads bitmap
    {
      bitmap.clear
    }

    /** A mounted volume, with what is on the disk. */
    constructor (first: nat, groups: nat, bitmap: Bitmap, freeCount: array<nat>)
      requires first > 0 && bitmap.Valid() && bitmap.size == 8192 * groups && freeCount.Length == groups
      ensures Valid() && this.first == first && this.groups == groups && this.bitmap == bitmap && this.freeCount == freeCount
    {
      this.first, this.groups, this.bitmap, this.freeCount := first, groups, bitmap, freeCount;
    }

    /** The first clear bit of a group, skipping bytes that are all ones. */
    method FirstInGroup(g: nat) returns (k: nat)
      requires Valid() && g < groups
      ensures k <= GROUP_BITS
      ensures k < GROUP_BITS ==> 8192 * g + k in Free()
      ensures forall i :: i in Free() && 8192 * g <= i < 8192 * g + 8192 ==> i >= 8192 * g + k
    {
      for i := 0 to GROUP_BYTES
        invariant forall j :: j in Free() && 8192 * g <= j < 8192 * g + 8192 ==> j >= 8192 * g + 8 * i
      {
        var at := 1024 * g + i;
        if bitmap.bytes[at] == 0xFF {
          forall j | j in Free() && 8 * at <= j < 8 * at + 8 ensures false {
            assert j / 8 == at;
            FullByte(bitmap.bytes[..], j);
            assert false;
          }
        } else {
          for bit := 0 to 8
            invariant forall j :: j in Free() && 8192 * g <= j < 8192 * g + 8192 ==> j >= 8192 * g + 8 * i + bit
          {
            var set_ := bitmap.Get(8 * at + bit);
            if !set_ { return 8 * i + bit; }
          }
        }
      }
      return GROUP_BITS;
    }

    /** ext2_alloc_block: the lowest free block of the first group whose count is not zero. */
    method AllocBlock() returns (block: nat)
      requires Valid()
      modifies bitmap, bitmap.bytes, freeCount
      ensures Valid() && (old(Counted()) ==> Counted())
      ensures block == 0 <==> forall i :: i in old(Free()) ==> old(freeCount[..])[i / 8192] == 0
      ensures block == 0 ==> Free() == old(Free()) && freeCount[..] == old(freeCount[..])
      ensures block != 0 ==>
                && block >= first && block - first in old(Free()) && Free() == old(Free()) - {block - first}
                && (forall i :: i in old(Free()) && old(freeCount[..])[i / 8192] != 0 ==> block - first <= i)
                && CountMoved(old(freeCount[..]), freeCount[..], (block - first) / 8192, -1)
    {
      for g := 0 to groups
        invariant Valid() && Free() == old(Free()) && freeCount[..] == old(freeCount[..])
        invariant forall i :: i in Free() && i / 8192 < g ==> freeCount[i / 8192] == 0
      {
        if freeCount[g] != 0 {
          var k := FirstInGroup(g);
          if k < GROUP_BITS {
            ghost var clear := Free();
            assert (8192 * g + k) / 8192 == g;
            bitmap.Set(8192 * g + k, true);
            freeCount[g] := freeCount[g] - 1;
            forall h: nat | h < groups ensures |InGroup(clear - {8192 * g + k}, h)| == |InGroup(clear, h)| - if g == h then 1 else 0 {
              GroupWithout(clear, 8192 * g + k, h);
            }
            return first + 8192 * g + k;
          }
        }
      }
      return 0;
    }

    /** When the counts are right, allocation fails only on a full device. */
    lemma FailsOnlyWhenFull()
      requires Valid() && Counted()
      ensures (forall i :: i in Free() ==> freeCount[i / 8192] == 0) <==> Free() == {}
    {
      forall i | i in Free() ensures freeCount[i / 8192] != 0 {
        assert i in InGroup(Free(), i / 8192);
      }
    }

    /** ext2_free_block: the counts stay right exactly when the block was in use. */
    method FreeBlock(block: nat) returns (ok: bool)
      requires Valid()
      modifies bitmap, bitmap.bytes, freeCount
      ensures Valid() && ok == (first <= block < first + 8192 * groups)
      ensures !ok ==> Free() == old(Free()) && freeCount[..] == old(freeCount[..])
      ensures ok ==> Free() == old(Free()) + {block - first} && CountMoved(old(freeCount[..]), freeCount[..], (block - first) / 8192, 1)
      ensures ok && old(Counted()) ==> (Counted() <==> block - first !in old(Free()))
    {
      if block < first { return false; }
      var g := (block - first) / 8192;
      var idx := (block - first) % 8192;
      if g >= groups { return false; }
      ghost var clear := Free();
      bitmap.Set(8192 * g + idx, false);
      freeCount[g] := freeCount[g] + 1;
      if block - first in clear {
        assert Free() == clear;
      } else {
        forall h: nat | h < groups ensures |InGroup(clear + {block - first}, h)| == |InGroup(clear, h)| + if g == h then 1 else 0 {
          GroupWith(clear, block - first, h);
        }
      }
      return true;
    }
  }
}
