/** Whole runs of reads and writes over the files of a volume (kernel/fs/ext2/ext2_file.c). */
module Ext2Runs {
  import opened Ext2Blocks
  import opened Ext2Files
  import V = Ext2Volumes

  datatype FileOp = Write(ino: nat, offset: nat, data: seq<Byte>) | Read(ino: nat, offset: nat, count: nat)

  /** What the call returns, and the bytes that a read got. */
  datatype FileResult = Wrote(r: int) | Got(r: int, buf: seq<Byte>)

  datatype FsView = FsView(disk: seq<seq<Byte>>, inodes: map<nat, Inode>, free: nat)

  ghost predicate ViewOk(v: FsView) {
    DiskOk(v.disk) && forall i {:trigger v.inodes[i]} :: i in v.inodes ==> OnDisk(v.disk, v.inodes[i].block)
  }

  ghost predicate IsFile(v: FsView, ino: nat) {
    ino in v.inodes && V.IsRegular(v.inodes[ino])
  }

  /** What a file has, by offset. */
  ghost function BytesOf(v: FsView, ino: nat): map<nat, Byte>
    requires ViewOk(v) && ino in v.inodes
  {
    Bytes(v.disk, v.inodes[ino].block)
  }

  /** A file that another operation is not about. */
  ghost predicate Bystander(v: FsView, w: FsView, i: nat) {
    i in v.inodes ==> i in w.inodes && w.inodes[i] == v.inodes[i] && SameFile(v.disk, w.disk, v.inodes[i].block)
  }

  ghost predicate WriteStep(v: FsView, ino: nat, offset: nat, data: seq<Byte>, r: int, w: FsView)
    requires ViewOk(v) && ViewOk(w)
  {
    if IsFile(v, ino) then
      && w.inodes.Keys == v.inodes.Keys && (forall i {:trigger Bystander(v, w, i)} :: i != ino ==> Bystander(v, w, i))
      && V.Wrote(v.disk, v.inodes[ino], v.free, offset, data, r, w.disk, w.inodes[ino], w.free)
    else r == -V.ENOENT && w == v
  }

  /** The bytes asked for that the file has, up to its end or the first hole. */
  ghost predicate ReadStep(v: FsView, ino: nat, offset: nat, count: nat, r: int, buf: seq<Byte>)
    requires ViewOk(v)
  {
    if !IsFile(v, ino) then r == -V.ENOENT
    else
      var size := v.inodes[ino].size;
      var end := if offset + count < size then offset + count else size;
      && r == |buf| && (offset >= size ==> r == 0)
      && (offset < size ==>
            offset + r <= end && Shows(BytesOf(v, ino), offset, buf) && (offset + r < end ==> offset + r !in BytesOf(v, ino)))
  }

  ghost predicate FileStep(v: FsView, op: FileOp, r: FileResult, w: FsView) {
    && ViewOk(v) && ViewOk(w)
    && match op
       case Write(ino, offset, data) => r.Wrote? && WriteStep(v, ino, offset, data, r.r, w)
       case Read(ino, offset, count) => r.Got? && w == v && ReadStep(v, ino, offset, count, r.r, r.buf)
  }

  ghost predicate FileRun(ops: seq<FileOp>, rs: seq<FileResult>, trace: seq<FsView>) {
    && |rs| == |ops| && |trace| == |ops| + 1
    && forall i :: 0 <= i < |ops| ==> FileStep(trace[i], ops[i], rs[i], trace[i + 1])
  }

  lemma RunLonger(ops: seq<FileOp>, rs: seq<FileResult>, trace: seq<FsView>, i: nat, r: FileResult, w: FsView)
    requires i < |ops| && FileRun(ops[..i], rs, trace) && FileStep(trace[i], ops[i], r, w)
    ensures FileRun(ops[..i + 1], rs + [r], trace + [w])
  {
    var ops', rs', trace' := ops[..i + 1], rs + [r], trace + [w];
    forall k | 0 <= k < |ops'| ensures FileStep(trace'[k], ops'[k], rs'[k], trace'[k + 1]) {
      assert k < i ==> ops'[k] == ops[..i][k] && FileStep(trace[k], ops[..i][k], rs[k], trace[k + 1]);
    }
  }

  // ----- one step -----

  /** Whether a write will be complete. */
  ghost predicate Complete(v: FsView, ino: nat, offset: nat, data: seq<Byte>)
    requires ViewOk(v) && ino in v.inodes
  {
    V.Fits(v.disk, v.inodes[ino].block, v.free, offset, |data|)
  }

  /** A write that is complete overwrites its range.  Any other leaves every byte outside its range. */
  lemma WriteBytes(v: FsView, ino: nat, offset: nat, data: seq<Byte>, r: int, w: FsView)
    requires ViewOk(v) && ViewOk(w) && IsFile(v, ino) && WriteStep(v, ino, offset, data, r, w)
    ensures IsFile(w, ino) && w.inodes[ino].size >= v.inodes[ino].size
    ensures Leaves(BytesOf(v, ino), BytesOf(w, ino), offset, |data|)
    ensures Complete(v, ino, offset, data) ==>
              w.inodes[ino].size >= offset + |data| && BytesOf(w, ino) == Overwrite(BytesOf(v, ino), offset, data)
  {
    var d0, b0, d, b := v.disk, v.inodes[ino].block, w.disk, w.inodes[ino].block;
    assert OnDisk(d0, b0) && OnDisk(d, b);
    BytesLeft(d0, b0, d, b, offset, |data|);
    if Complete(v, ino, offset, data) { BytesWritten(d0, b0, d, b, offset, data); }
  }

  /** A write to another file changes nothing here. */
  lemma OtherBytes(v: FsView, ino: nat, offset: nat, data: seq<Byte>, r: int, w: FsView, i: nat)
    requires ViewOk(v) && ViewOk(w) && WriteStep(v, ino, offset, data, r, w) && i != ino && i in v.inodes
    ensures i in w.inodes && w.inodes[i] == v.inodes[i] && BytesOf(w, i) == BytesOf(v, i)
  {
    if IsFile(v, ino) {
      assert Bystander(v, w, i);
      BytesSame(v.disk, w.disk, v.inodes[i].block);
    }
  }

  // ----- a read after a write -----

  /** The file has `want` at `from`. */
  ghost predicate Has(v: FsView, ino: nat, from: nat, want: seq<Byte>) {
    ViewOk(v) && IsFile(v, ino) && v.inodes[ino].size >= from + |want| && Shows(BytesOf(v, ino), from, want)
  }

  /** The operation writes to one of the bytes `from .. to` of the file. */
  predicate Hits(op: FileOp, ino: nat, from: nat, to: nat) {
    op.Write? && op.ino == ino && op.offset < to && from < op.offset + |op.data|
  }

  lemma HasWritten(v: FsView, ino: nat, offset: nat, data: seq<Byte>, r: int, w: FsView, from: nat, count: nat)
    requires ViewOk(v) && ViewOk(w) && IsFile(v, ino) && WriteStep(v, ino, offset, data, r, w) && Complete(v, ino, offset, data)
    requires offset <= from && from + count <= offset + |data|
    ensures Has(w, ino, from, data[from - offset..from - offset + count])
  {
    WriteBytes(v, ino, offset, data, r, w);
    var want := data[from - offset..from - offset + count];
    forall k: nat ensures ShowsAt(BytesOf(w, ino), from, want, k) {
      InSpan(offset, |data|, from + k);
    }
  }

  lemma HasKept(v: FsView, op: FileOp, r: FileResult, w: FsView, ino: nat, from: nat, want: seq<Byte>)
    requires FileStep(v, op, r, w) && Has(v, ino, from, want) && !Hits(op, ino, from, from + |want|)
    ensures Has(w, ino, from, want)
  {
    if op.Write? {
      if op.ino == ino {
        WriteBytes(v, ino, op.offset, op.data, r.r, w);
        forall k: nat ensures ShowsAt(BytesOf(w, ino), from, want, k) {
          assert ShowsAt(BytesOf(v, ino), from, want, k);
          assert ByteLeft(BytesOf(v, ino), BytesOf(w, ino), op.offset, |op.data|, from + k);
        }
      } else {
        OtherBytes(v, op.ino, op.offset, op.data, r.r, w, ino);
      }
    }
  }

  lemma HasRead(v: FsView, ino: nat, from: nat, want: seq<Byte>, r: int, buf: seq<Byte>)
    requires Has(v, ino, from, want) && ReadStep(v, ino, from, |want|, r, buf)
    ensures r == |want| && buf == want
  {
    if want != [] {
      assert ShowsAt(BytesOf(v, ino), from, want, |buf|);
      forall k: nat | k < |buf| ensures buf[k] == want[k] {
        assert ShowsAt(BytesOf(v, ino), from, want, k) && ShowsAt(BytesOf(v, ino), from, buf, k);
      }
    }
  }

  lemma {:induction false} HasThroughout(ops: seq<FileOp>, rs: seq<FileResult>, trace: seq<FsView>, i: nat, j: nat, ino: nat, from: nat, want: seq<Byte>)
    requires FileRun(ops, rs, trace) && i <= j <= |ops| && Has(trace[i], ino, from, want)
    requires forall k :: i <= k < j ==> !Hits(ops[k], ino, from, from + |want|)
    ensures Has(trace[j], ino, from, want)
    decreases j - i
  {
    if i < j {
      HasThroughout(ops, rs, trace, i, j - 1, ino, from, want);
      assert FileStep(trace[j - 1], ops[j - 1], rs[j - 1], trace[j - 1 + 1]);
      HasKept(trace[j - 1], ops[j - 1], rs[j - 1], trace[j], ino, from, want);
    }
  }

  /** In every run a read gets what a complete write put there, if no write to the same bytes came in between; other writes,
      to this file or to others, complete or not, do not matter. */
  lemma ReadBack(ops: seq<FileOp>, rs: seq<FileResult>, trace: seq<FsView>, i: nat, j: nat, from: nat, count: nat)
    requires FileRun(ops, rs, trace) && i < j < |ops| && ops[i].Write? && ops[j] == Read(ops[i].ino, from, count)
    requires ViewOk(trace[i]) && IsFile(trace[i], ops[i].ino) && Complete(trace[i], ops[i].ino, ops[i].offset, ops[i].data)
    requires ops[i].offset <= from && from + count <= ops[i].offset + |ops[i].data|
    requires forall k :: i < k < j ==> !Hits(ops[k], ops[i].ino, from, from + count)
    ensures rs[j] == Got(count, ops[i].data[from - ops[i].offset..from - ops[i].offset + count])
  {
    var op := ops[i];
    var want := op.data[from - op.offset..from - op.offset + count];
    assert FileStep(trace[i], op, rs[i], trace[i + 1]) && FileStep(trace[j], ops[j], rs[j], trace[j + 1]);
    HasWritten(trace[i], op.ino, op.offset, op.data, rs[i].r, trace[i + 1], from, count);
    HasThroughout(ops, rs, trace, i + 1, j, op.ino, from, want);
    HasRead(trace[j], op.ino, from, want, rs[j].r, rs[j].buf);
  }

  // ----- the volume as plain files -----

  /** What a file should be: its size, and the bytes written to it, with zeros in the rest of their blocks. */
  datatype Plain = Plain(size: nat, bytes: map<nat, Byte>)

  ghost function PlainStep(fs: map<nat, Plain>, op: FileOp): map<nat, Plain> {
    if op.Write? && op.ino in fs then
      var f, end := fs[op.ino], op.offset + |op.data|;
      fs[op.ino := Plain(if end > f.size then end else f.size, Overwrite(f.bytes, op.offset, op.data))]
    else fs
  }

  ghost function PlainRun(fs: map<nat, Plain>, ops: seq<FileOp>): map<nat, Plain> {
    if ops == [] then fs else PlainStep(PlainRun(fs, ops[..|ops| - 1]), ops[|ops| - 1])
  }

  ghost predicate PlainOk(v: FsView, fs: map<nat, Plain>, i: nat)
    requires ViewOk(v)
  {
    (i in fs <==> IsFile(v, i)) && (i in fs ==> fs[i] == Plain(v.inodes[i].size, BytesOf(v, i)))
  }

  /** The regular files of the volume are these. */
  ghost predicate Holds(v: FsView, fs: map<nat, Plain>) {
    ViewOk(v) && forall i: nat {:trigger PlainOk(v, fs, i)} :: PlainOk(v, fs, i)
  }

  lemma StepIsPlain(v: FsView, op: FileOp, r: FileResult, w: FsView, fs: map<nat, Plain>)
    requires FileStep(v, op, r, w) && Holds(v, fs)
    requires op.Write? && IsFile(v, op.ino) ==> Complete(v, op.ino, op.offset, op.data)
    ensures Holds(w, PlainStep(fs, op))
  {
    forall i: nat ensures PlainOk(w, PlainStep(fs, op), i) {
      assert PlainOk(v, fs, i);
      if op.Write? {
        assert PlainOk(v, fs, op.ino);
        if IsFile(v, op.ino) {
          assert i in w.inodes.Keys <==> i in v.inodes.Keys;
          if i == op.ino {
            WriteBytes(v, i, op.offset, op.data, r.r, w);
          } else if i in v.inodes {
            OtherBytes(v, op.ino, op.offset, op.data, r.r, w, i);
          }
        }
      }
    }
  }

  /** In every run in which all writes are complete, the files are what overwriting plain byte maps makes of them. */
  lemma {:induction false} RunIsPlain(ops: seq<FileOp>, rs: seq<FileResult>, trace: seq<FsView>, fs: map<nat, Plain>, n: nat)
    requires FileRun(ops, rs, trace) && n <= |ops| && Holds(trace[0], fs)
    requires forall i :: 0 <= i < n && ops[i].Write? && ViewOk(trace[i]) && IsFile(trace[i], ops[i].ino) ==>
               Complete(trace[i], ops[i].ino, ops[i].offset, ops[i].data)
    ensures Holds(trace[n], PlainRun(fs, ops[..n]))
  {
    if n > 0 {
      RunIsPlain(ops, rs, trace, fs, n - 1);
      assert ops[..n][..n - 1] == ops[..n - 1];
      assert FileStep(trace[n - 1], ops[n - 1], rs[n - 1], trace[n - 1 + 1]);
      StepIsPlain(trace[n - 1], ops[n - 1], rs[n - 1], trace[n], PlainRun(fs, ops[..n - 1]));
    }
  }

  // ----- the volume itself -----

  ghost function Now(vol: V.Volume): FsView
    reads vol, vol.disk, vol.alloc.bitmap
  {
    FsView(vol.disk[..], vol.inodes, |vol.alloc.Free()|)
  }

  lemma NowOk(vol: V.Volume)
    requires vol.Valid()
    ensures ViewOk(Now(vol))
  {
    forall i | i in vol.inodes ensures OnDisk(vol.disk[..], vol.inodes[i].block) { vol.PointersOnDisk(i); }
  }

  method DoOp(vol: V.Volume, op: FileOp) returns (r: FileResult)
    requires vol.Valid() && (op.Write? ==> op.offset + |op.data| < 0x1_0000_0000)
    modifies vol, vol.disk, vol.alloc.bitmap, vol.alloc.bitmap.bytes, vol.alloc.freeCount
    ensures vol.Valid() && FileStep(old(Now(vol)), op, r, Now(vol))
  {
    NowOk(vol);
    match op
    case Write(ino, offset, data) =>
      ghost var v := Now(vol);
      var n := vol.WriteAt(ino, offset, data);
      NowOk(vol);
      forall i | i != ino ensures Bystander(v, Now(vol), i) { }
      r := Wrote(n);
    case Read(ino, offset, count) =>
      var n, buf := vol.ReadAt(ino, offset, count);
      r := Got(n, buf);
  }

  /** Any run of reads and writes; ReadBack and RunIsPlain say what it amounts to. */
  method Run(vol: V.Volume, ops: seq<FileOp>) returns (rs: seq<FileResult>, ghost trace: seq<FsView>)
    requires vol.Valid() && forall op :: op in ops && op.Write? ==> op.offset + |op.data| < 0x1_0000_0000
    modifies vol, vol.disk, vol.alloc.bitmap, vol.alloc.bitmap.bytes, vol.alloc.freeCount
    ensures vol.Valid() && FileRun(ops, rs, trace) && trace[0] == old(Now(vol)) && trace[|ops|] == Now(vol)
  {
    rs, trace := [], [Now(vol)];
    for i := 0 to |ops|
      invariant vol.Valid() && |rs| == i && |trace| == i + 1 && trace[0] == old(Now(vol)) && trace[i] == Now(vol)
      invariant FileRun(ops[..i], rs, trace)
    {
      var r := DoOp(vol, ops[i]);
      RunLonger(ops, rs, trace, i, r, Now(vol));
      rs, trace := rs + [r], trace + [Now(vol)];
    }
    assert ops[..|ops|] == ops;
  }
}
