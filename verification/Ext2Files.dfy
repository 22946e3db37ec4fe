/** File data of kernel/fs/ext2/ext2_file.c over a volume of raw blocks. */
module Ext2Files {

  import opened Ext2Blocks

  // ----- bytes -----

  /** Blocks needed for `n` bytes. */
  function BlocksFor(n: nat): nat {
    (n + 1023) / 1024
  }

  /** Every block of the file is mapped. */
  ghost predicate Whole(disk: seq<seq<Byte>>, inode: Inode) {
    && DiskOk(disk) && |inode.block| == 15
    && forall l: nat {:trigger Mapped(disk, inode.block, l)} :: l < BlocksFor(inode.size) ==> 0 < Mapped(disk, inode.block, l) < |disk|
  }

  /** The file's bytes. */
  ghost function Content(disk: seq<seq<Byte>>, inode: Inode): (c: seq<Byte>)
    requires Whole(disk, inode)
    ensures |c| == inode.size
  {
    seq(inode.size, k requires 0 <= k < inode.size => disk[Mapped(disk, inode.block, k / 1024)][k % 1024])
  }

  /** `data` placed at `offset`, replacing or extending. */
  ghost function Splice(old_: seq<Byte>, offset: nat, data: seq<Byte>): seq<Byte>
    requires offset <= |old_|
  {
    old_[..offset] + data + if offset + |data| < |old_| then old_[offset + |data|..] else []
  }

  /** Mapped blocks stay where they are. */
  ghost predicate StableAt(d0: seq<seq<Byte>>, b0: seq<nat>, d: seq<seq<Byte>>, b: seq<nat>, l: nat)
    requires |b0| == |b| == 15
  {
    Mapped(d0, b0, l) != 0 ==> Mapped(d, b, l) == Mapped(d0, b0, l)
  }

  /** Byte `j` of block `l` is as before, if it is outside `lo .. hi`. */
  ghost predicate KeptAt(d0: seq<seq<Byte>>, b0: seq<nat>, d: seq<seq<Byte>>, lo: nat, hi: nat, l: nat, j: nat)
    requires DiskOk(d0) && DiskOk(d) && |b0| == 15 && j < 1024
  {
    var m := Mapped(d0, b0, l);
    m != 0 && !(lo <= 1024 * l + j < hi) ==> m < |d0| && m < |d| && d[m][j] == d0[m][j]
  }

  /** Byte `j` of block `l` is the one to be written, if it is in `lo .. lo + pos`. */
  ghost predicate WrittenAt(d: seq<seq<Byte>>, b: seq<nat>, data: seq<Byte>, lo: nat, pos: nat, l: nat, j: nat)
    requires DiskOk(d) && |b| == 15 && j < 1024 && pos <= |data|
  {
    lo <= 1024 * l + j < lo + pos ==> 0 < Mapped(d, b, l) < |d| && d[Mapped(d, b, l)][j] == data[1024 * l + j - lo]
  }

  ghost predicate Stable(d0: seq<seq<Byte>>, b0: seq<nat>, d: seq<seq<Byte>>, b: seq<nat>) {
    |b0| == |b| == 15 && forall l: nat {:trigger StableAt(d0, b0, d, b, l)} :: l < MAX_BLOCKS ==> StableAt(d0, b0, d, b, l)
  }

  ghost predicate Kept(d0: seq<seq<Byte>>, b0: seq<nat>, d: seq<seq<Byte>>, lo: nat, hi: nat) {
    && DiskOk(d0) && DiskOk(d) && |b0| == 15
    && forall l: nat, j: nat {:trigger KeptAt(d0, b0, d, lo, hi, l, j)} ::
         l < MAX_BLOCKS && j < 1024 ==> KeptAt(d0, b0, d, lo, hi, l, j)
  }

  /** A block that was mapped meanwhile has a byte of `lo .. hi`, and zeros outside. */
  ghost predicate FilledAt(d0: seq<seq<Byte>>, b0: seq<nat>, d: seq<seq<Byte>>, b: seq<nat>, lo: nat, hi: nat, l: nat, j: nat)
    requires DiskOk(d) && |b0| == 15 && |b| == 15 && j < 1024
  {
    var m := Mapped(d, b, l);
    Mapped(d0, b0, l) == 0 && m != 0 ==>
      lo < hi && lo < 1024 * l + 1024 && 1024 * l < hi && m < |d| && (!(lo <= 1024 * l + j < hi) ==> d[m][j] == 0)
  }

  ghost predicate Filled(d0: seq<seq<Byte>>, b0: seq<nat>, d: seq<seq<Byte>>, b: seq<nat>, lo: nat, hi: nat) {
    && DiskOk(d) && |b0| == 15 && |b| == 15
    && forall l: nat, j: nat {:trigger FilledAt(d0, b0, d, b, lo, hi, l, j)} ::
         l < MAX_BLOCKS && j < 1024 ==> FilledAt(d0, b0, d, b, lo, hi, l, j)
  }

  /** All that a write to `lo .. hi` may have done so far, complete or not. */
  ghost predicate Changed(d0: seq<seq<Byte>>, b0: seq<nat>, d: seq<seq<Byte>>, b: seq<nat>, lo: nat, hi: nat) {
    Stable(d0, b0, d, b) && Kept(d0, b0, d, lo, hi) && Filled(d0, b0, d, b, lo, hi)
  }

  ghost predicate Written(d: seq<seq<Byte>>, b: seq<nat>, data: seq<Byte>, lo: nat, pos: nat) {
    && DiskOk(d) && |b| == 15 && pos <= |data|
    && forall l: nat, j: nat {:trigger WrittenAt(d, b, data, lo, pos, l, j)} ::
         l < MAX_BLOCKS && j < 1024 ==> WrittenAt(d, b, data, lo, pos, l, j)
  }

  /** The block buffer: `part` over the old bytes from `off` on. */
  ghost predicate Overlaid(base: seq<Byte>, part: seq<Byte>, off: nat, buf: seq<Byte>) {
    && |base| == |buf| == 1024 && off + |part| <= 1024
    && forall j :: 0 <= j < 1024 ==> buf[j] == if off <= j < off + |part| then part[j - off] else base[j]
  }

  /** One more chunk is in place. */
  lemma ChunkWritten(d0: seq<seq<Byte>>, b0: seq<nat>, d: seq<seq<Byte>>, b: seq<nat>, d': seq<seq<Byte>>, b': seq<nat>,
                     data: seq<Byte>, lo: nat, pos: nat, chunk: nat, l: nat, off: nat, phys: nat, base: seq<Byte>)
    requires Changed(d0, b0, d, b, lo, lo + |data|) && DiskOk(d')
    requires l < MAX_BLOCKS && off < 1024 && 1024 * l + off == lo + pos && 0 < chunk <= |data| - pos && off + chunk <= 1024
    requires Remapped(d, b, d', b', l, phys) && 0 < phys < |d'|
    requires Overlaid(base, data[pos..pos + chunk], off, d'[phys])
    requires if Mapped(d, b, l) != 0 then Mapped(d, b, l) == phys < |d| && (base == d[phys] || (off == 0 && chunk == 1024)) else base == Zeros()
    ensures Changed(d0, b0, d', b', lo, lo + |data|)
    ensures Written(d, b, data, lo, pos) ==> Written(d', b', data, lo, pos + chunk)
  {
    var hi, pos' := lo + |data|, pos + chunk;
    forall k: nat | k < MAX_BLOCKS ensures StableAt(d0, b0, d', b', k) {
      assert StableAt(d0, b0, d, b, k) && RemappedAt(d, b, d', b', l, phys, k);
    }
    forall k: nat, j: nat | k < MAX_BLOCKS && j < 1024 ensures KeptAt(d0, b0, d', lo, hi, k, j) {
      assert KeptAt(d0, b0, d, lo, hi, k, j) && StableAt(d0, b0, d, b, k) && RemappedAt(d, b, d', b', l, phys, k);
    }
    forall k: nat, j: nat | k < MAX_BLOCKS && j < 1024 ensures FilledAt(d0, b0, d', b', lo, hi, k, j) {
      assert FilledAt(d0, b0, d, b, lo, hi, k, j) && StableAt(d0, b0, d, b, k) && RemappedAt(d, b, d', b', l, phys, k);
    }
    if Written(d, b, data, lo, pos) {
      forall k: nat, j: nat | k < MAX_BLOCKS && j < 1024 ensures WrittenAt(d', b', data, lo, pos', k, j) {
        assert WrittenAt(d, b, data, lo, pos, k, j) && RemappedAt(d, b, d', b', l, phys, k);
      }
    }
  }

  /** When everything is written, the file is the old one with `data` spliced in. */
  lemma SpliceDone(d0: seq<seq<Byte>>, i0: Inode, d: seq<seq<Byte>>, i: Inode, data: seq<Byte>, offset: nat)
    requires Whole(d0, i0) && offset <= i0.size && offset + |data| <= 1024 * MAX_BLOCKS && i0.size <= 1024 * MAX_BLOCKS
    requires Changed(d0, i0.block, d, i.block, offset, offset + |data|) && Written(d, i.block, data, offset, |data|)
    requires i.size == if offset + |data| > i0.size then offset + |data| else i0.size
    requires |d| == |d0|
    ensures Whole(d, i) && Content(d, i) == Splice(Content(d0, i0), offset, data)
  {
    forall l: nat | l < BlocksFor(i.size) ensures 0 < Mapped(d, i.block, l) < |d| {
      assert StableAt(d0, i0.block, d, i.block, l);
      if l >= BlocksFor(i0.size) {
        assert WrittenAt(d, i.block, data, offset, |data|, l, 0);
      } else {
        assert Mapped(d0, i0.block, l) != 0;
      }
    }
    var new_, old_ := Content(d, i), Content(d0, i0);
    var want := Splice(old_, offset, data);
    assert |want| == i.size;
    forall k | 0 <= k < i.size ensures new_[k] == want[k] {
      var l, j := k / 1024, k % 1024;
      assert k == 1024 * l + j;
      if offset <= k < offset + |data| {
        assert WrittenAt(d, i.block, data, offset, |data|, l, j);
      } else {
        assert l < BlocksFor(i0.size) && Mapped(d0, i0.block, l) != 0;
        assert KeptAt(d0, i0.block, d, offset, offset + |data|, l, j) && StableAt(d0, i0.block, d, i.block, l);
      }
    }
  }

  // ----- files with holes -----

  /** What a file has, by offset: the bytes of the blocks that are mapped. */
  ghost function Bytes(d: seq<seq<Byte>>, b: seq<nat>): map<nat, Byte>
    requires DiskOk(d) && |b| == 15
  {
    map k: nat | k < 1024 * MAX_BLOCKS && 0 < Mapped(d, b, k / 1024) < |d| :: d[Mapped(d, b, k / 1024)][k % 1024]
  }

  /** The block of byte `k` has a part in `len` bytes at `offset`. */
  ghost predicate Touches(offset: nat, len: nat, k: nat) {
    len > 0 && offset < 1024 * (k / 1024) + 1024 && 1024 * (k / 1024) < offset + len
  }

  /** The bytes of all blocks that `len` bytes at `offset` have a part in. */
  ghost function Span(offset: nat, len: nat): set<nat> {
    set k: nat | k < offset + len + 1024 && Touches(offset, len, k)
  }

  /** `data` written at `offset`: gaps in its blocks become zeros. */
  ghost function Overwrite(bytes: map<nat, Byte>, offset: nat, data: seq<Byte>): map<nat, Byte> {
    map k | k in bytes.Keys + Span(offset, |data|) ::
      if offset <= k < offset + |data| then data[k - offset] else if k in bytes then bytes[k] else 0
  }

  ghost predicate ByteLeft(bytes: map<nat, Byte>, bytes': map<nat, Byte>, offset: nat, len: nat, k: nat) {
    && (k in bytes ==> k in bytes' && (!(offset <= k < offset + len) ==> bytes'[k] == bytes[k]))
    && (k in bytes' && k !in bytes ==> k in Span(offset, len) && (!(offset <= k < offset + len) ==> bytes'[k] == 0))
  }

  /** What a write leaves even if it is not complete: every byte outside its range, and zeros in new blocks. */
  ghost predicate Leaves(bytes: map<nat, Byte>, bytes': map<nat, Byte>, offset: nat, len: nat) {
    forall k: nat {:trigger ByteLeft(bytes, bytes', offset, len, k)} :: ByteLeft(bytes, bytes', offset, len, k)
  }

  /** Pointers lead to blocks of the disk. */
  ghost predicate OnDisk(d: seq<seq<Byte>>, b: seq<nat>) {
    && DiskOk(d) && |b| == 15 && b[13] == 0 && b[14] == 0
    && forall l: nat {:trigger Mapped(d, b, l)} :: l < MAX_BLOCKS ==> Mapped(d, b, l) == 0 || Mapped(d, b, l) < |d|
  }

  lemma InSpan(offset: nat, len: nat, k: nat)
    ensures k in Span(offset, len) <==> Touches(offset, len, k)
  {
    assert k < 1024 * (k / 1024) + 1024;
  }

  lemma BytesLeft(d0: seq<seq<Byte>>, b0: seq<nat>, d: seq<seq<Byte>>, b: seq<nat>, offset: nat, len: nat)
    requires OnDisk(d0, b0) && OnDisk(d, b) && Changed(d0, b0, d, b, offset, offset + len)
    ensures Leaves(Bytes(d0, b0), Bytes(d, b), offset, len)
  {
    forall k: nat ensures ByteLeft(Bytes(d0, b0), Bytes(d, b), offset, len, k) {
      if k < 1024 * MAX_BLOCKS {
        var l, j := k / 1024, k % 1024;
        assert k == 1024 * l + j;
        assert StableAt(d0, b0, d, b, l) && KeptAt(d0, b0, d, offset, offset + len, l, j) && FilledAt(d0, b0, d, b, offset, offset + len, l, j);
        InSpan(offset, len, k);
      }
    }
  }

  /** A complete write. */
  lemma BytesWritten(d0: seq<seq<Byte>>, b0: seq<nat>, d: seq<seq<Byte>>, b: seq<nat>, offset: nat, data: seq<Byte>)
    requires OnDisk(d0, b0) && OnDisk(d, b) && Changed(d0, b0, d, b, offset, offset + |data|) && Written(d, b, data, offset, |data|)
    requires |data| > 0 ==> offset + |data| <= 1024 * MAX_BLOCKS
    ensures Bytes(d, b) == Overwrite(Bytes(d0, b0), offset, data)
  {
    var now, want := Bytes(d, b), Overwrite(Bytes(d0, b0), offset, data);
    BytesLeft(d0, b0, d, b, offset, |data|);
    forall k: nat ensures (k in now <==> k in want) && (k in now && k in want ==> now[k] == want[k]) {
      ByteWritten(d0, b0, d, b, offset, data, k);
    }
    assert now.Keys == want.Keys;
  }

  lemma ByteWritten(d0: seq<seq<Byte>>, b0: seq<nat>, d: seq<seq<Byte>>, b: seq<nat>, offset: nat, data: seq<Byte>, k: nat)
    requires OnDisk(d0, b0) && OnDisk(d, b) && Leaves(Bytes(d0, b0), Bytes(d, b), offset, |data|) && Written(d, b, data, offset, |data|)
    requires |data| > 0 ==> offset + |data| <= 1024 * MAX_BLOCKS
    ensures var now, want := Bytes(d, b), Overwrite(Bytes(d0, b0), offset, data);
            (k in now <==> k in want) && (k in now && k in want ==> now[k] == want[k])
  {
    assert ByteLeft(Bytes(d0, b0), Bytes(d, b), offset, |data|, k);
    InSpan(offset, |data|, k);
    var l, j := k / 1024, k % 1024;
    assert k == 1024 * l + j;
    if k in Span(offset, |data|) {
      // some byte of the block is written
      var i := if offset <= 1024 * l then 0 else offset - 1024 * l;
      assert WrittenAt(d, b, data, offset, |data|, l, i) && WrittenAt(d, b, data, offset, |data|, l, j);
    }
  }

  ghost predicate ShowsAt(bytes: map<nat, Byte>, offset: nat, buf: seq<Byte>, k: nat) {
    k < |buf| ==> offset + k in bytes && bytes[offset + k] == buf[k]
  }

  /** `buf` is what the file has from `offset` on. */
  ghost predicate Shows(bytes: map<nat, Byte>, offset: nat, buf: seq<Byte>) {
    forall k: nat {:trigger ShowsAt(bytes, offset, buf, k)} :: ShowsAt(bytes, offset, buf, k)
  }

  lemma ShowsMore(bytes: map<nat, Byte>, offset: nat, buf: seq<Byte>, part: seq<Byte>)
    requires Shows(bytes, offset, buf) && Shows(bytes, offset + |buf|, part)
    ensures Shows(bytes, offset, buf + part)
  {
    forall k: nat ensures ShowsAt(bytes, offset, buf + part, k) {
      if k < |buf| {
        assert ShowsAt(bytes, offset, buf, k);
      } else {
        assert ShowsAt(bytes, offset + |buf|, part, k - |buf|);
      }
    }
  }

  /** Part of a mapped block. */
  lemma ChunkShows(d: seq<seq<Byte>>, b: seq<nat>, l: nat, off: nat, chunk: nat)
    requires OnDisk(d, b) && l < MAX_BLOCKS && Mapped(d, b, l) != 0 && off + chunk <= 1024
    ensures Mapped(d, b, l) < |d| && Shows(Bytes(d, b), 1024 * l + off, d[Mapped(d, b, l)][off..off + chunk])
  {
    var part, at := d[Mapped(d, b, l)][off..off + chunk], 1024 * l + off;
    forall k: nat ensures ShowsAt(Bytes(d, b), at, part, k) {
      if k < |part| { assert (at + k) / 1024 == l && (at + k) % 1024 == off + k; }
    }
  }

  /** Of a whole file that is its content. */
  lemma WholeShows(d: seq<seq<Byte>>, inode: Inode, offset: nat, buf: seq<Byte>)
    requires Whole(d, inode) && Shows(Bytes(d, inode.block), offset, buf) && offset + |buf| <= inode.size
    ensures buf == Content(d, inode)[offset..offset + |buf|]
  {
    var part := Content(d, inode)[offset..offset + |buf|];
    forall k: nat | k < |buf| ensures buf[k] == part[k] { assert ShowsAt(Bytes(d, inode.block), offset, buf, k); }
  }

  lemma BytesSame(d: seq<seq<Byte>>, d': seq<seq<Byte>>, b: seq<nat>)
    requires DiskOk(d) && DiskOk(d') && SameFile(d, d', b)
    ensures Bytes(d', b) == Bytes(d, b)
  {
    var x, y := Bytes(d, b), Bytes(d', b);
    forall k: nat ensures (k in x <==> k in y) && (k in x && k in y ==> y[k] == x[k]) {
      if k < 1024 * MAX_BLOCKS { assert SameBlock(d, d', b, k / 1024); }
    }
    assert x.Keys == y.Keys;
  }

  /** A whole file is within the single-indirect range. */
  lemma WholeBound(disk: seq<seq<Byte>>, inode: Inode)
    requires Whole(disk, inode) && inode.block[13] == 0 && inode.block[14] == 0
    ensures inode.size <= 1024 * MAX_BLOCKS
  {
    NothingBeyond(disk, inode.block, MAX_BLOCKS);
  }

  /** A file that looks the same has the same bytes. */
  lemma SameContent(d: seq<seq<Byte>>, d': seq<seq<Byte>>, inode: Inode)
    requires Whole(d, inode) && inode.block[13] == 0 && inode.block[14] == 0 && DiskOk(d') && SameFile(d, d', inode.block)
    ensures Whole(d', inode) && Content(d', inode) == Content(d, inode)
  {
    WholeBound(d, inode);
    forall l: nat | l < BlocksFor(inode.size)
      ensures 0 < Mapped(d', inode.block, l) < |d'| && Mapped(d', inode.block, l) == Mapped(d, inode.block, l)
      ensures d'[Mapped(d', inode.block, l)] == d[Mapped(d, inode.block, l)]
    {
      assert SameBlock(d, d', inode.block, l) && 0 < Mapped(d, inode.block, l);
    }
    forall k | 0 <= k < inode.size ensures Content(d', inode)[k] == Content(d, inode)[k] {
      var l := k / 1024;
      assert l < BlocksFor(inode.size);
    }
  }
}
