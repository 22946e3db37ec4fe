/** Bitmaps packed eight to a byte: single bits for the ext2 bitmaps
    (kernel/fs/ext2/ext2_alloc.c) and the frame bitmap of kernel/mm/pmm.c. */
module Bits {

  /** `1 << k` for a bit position in a byte. */
  function Mask(k: nat): bv8
    requires k < 8
  {
    match k
    case 0 => 0x01 case 1 => 0x02 case 2 => 0x04 case 3 => 0x08
    case 4 => 0x10 case 5 => 0x20 case 6 => 0x40 case 7 => 0x80
  }

  predicate Bit(b: bv8, k: nat)
    requires k < 8
  {
    b & Mask(k) != 0
  }

  /** `|= mask` or `&= ~mask`. */
  function WithBit(b: bv8, k: nat, val: bool): bv8
    requires k < 8
  {
    if val then b | Mask(k) else b & !Mask(k)
  }

  lemma WithBitChangesOne(b: bv8, k: nat, val: bool, j: nat)
    requires k < 8 && j < 8
    ensures Bit(WithBit(b, k, val), j) == if j == k then val else Bit(b, j)
  {
  }

  /** Bit `i` of a packed byte sequence. */
  predicate BitAt(s: seq<bv8>, i: nat)
    requires i < 8 * |s|
  {
    Bit(s[i / 8], i % 8)
  }

  function SetBitAt(s: seq<bv8>, i: nat, val: bool): (r: seq<bv8>)
    requires i < 8 * |s|
    ensures |r| == |s|
  {
    s[i / 8 := WithBit(s[i / 8], i % 8, val)]
  }

  lemma SetBitAtChangesOne(s: seq<bv8>, i: nat, val: bool, j: nat)
    requires i < 8 * |s| && j < 8 * |s|
    ensures BitAt(SetBitAt(s, i, val), j) == if j == i then val else BitAt(s, j)
  {
    var a, m, n := i / 8, i % 8, j % 8;
    assert i == 8 * a + m;
    if j / 8 == a {
      assert j == 8 * a + n;
      SetBitInByte(s, SetBitAt(s, i, val), a, m, val, n);
    }
  }

  lemma SetBitInByte(s: seq<bv8>, r: seq<bv8>, a: nat, m: nat, val: bool, n: nat)
    requires a < |s| == |r| && m < 8 && n < 8
    requires r[a] == WithBit(s[a], m, val)
    ensures Bit(r[a], n) == if n == m then val else Bit(s[a], n)
  {
    WithBitChangesOne(s[a], m, val, n);
  }

  /** A packed bitmap; `clear` is the set of indices whose bit is 0. */
  class Bitmap {
    const size: nat
    const bytes: array<bv8>
    ghost var clear: set<nat>

    ghost predicate Valid()
      reads this, bytes
    {
      && size == 8 * bytes.Length
      && (forall i :: i in clear ==> i < size)
      && (forall i: nat {:trigger BitAt(bytes[..], i)} :: i < size ==> (i in clear <==> !BitAt(bytes[..], i)))
    }

    /** Every bit set, as `pmm_init` starts. */
    constructor (length: nat)
      ensures Valid() && size == 8 * length && clear == {} && fresh(bytes)
    {
      size := 8 * length;
      bytes := new bv8[length](_ => 0xFF);
      clear := {};
    }

    method Get(i: nat) returns (b: bool)
      requires Valid() && i < size
      ensures b <==> i !in clear
    {
      b := Bit(bytes[i / 8], i % 8);
      assert b == BitAt(bytes[..], i);
    }

    method Set(i: nat, val: bool)
      requires Valid() && i < size
      modifies this`clear, bytes
      ensures Valid()
      ensures clear == if val then old(clear) - {i} else old(clear) + {i}
    {
      ghost var was := bytes[..];
      bytes[i / 8] := WithBit(bytes[i / 8], i % 8, val);
      clear := if val then clear - {i} else clear + {i};
      assert bytes[..] == SetBitAt(was, i, val);
      forall j: nat | j < size ensures j in clear <==> !BitAt(bytes[..], j) {
        SetBitAtChangesOne(was, i, val, j);
      }
    }
  }
}
