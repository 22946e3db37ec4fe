/** Directory blocks of kernel/fs/ext2/ext2_dir.c: variable-length entries that tile 1024 bytes. */
module Ext2Dirents {

  import opened Ext2Blocks

  /** inode, rec_len, file_type and name; name_len is the length of the name. */
  datatype Dirent = Dirent(ino: nat, rec: nat, kind: Byte, name: seq<Byte>)

  // ----- fields -----

  function U16(b: seq<Byte>, off: nat): nat
    requires off + 2 <= |b|
  {
    var b0: int, b1: int := b[off], b[off + 1];
    b0 + 0x100 * b1
  }

  /** The inode number; entries start at multiples of four. */
  function InoAt(b: seq<Byte>, off: nat): nat
    requires off % 4 == 0 && off + 4 <= |b|
  {
    Word(b, off / 4)
  }

  /** The entry at `off`, as far as the fields in use go. */
  ghost predicate EntryIs(b: seq<Byte>, off: nat, v: Dirent) {
    && off % 4 == 0 && off + 8 + |v.name| <= |b| && |v.name| < 256
    && InoAt(b, off) == v.ino && U16(b, off + 4) == v.rec && b[off + 6] == |v.name| && b[off + 7] == v.kind
    && forall j :: 0 <= j < |v.name| ==> b[off + 8 + j] == v.name[j]
  }

  /** `(8 + n + 3) & ~3` */
  function RecLen(n: nat): (r: nat)
    ensures r % 4 == 0 && 8 + n <= r < 8 + n + 4
  {
    (8 + n + 3) / 4 * 4
  }

  // ----- tiling -----

  /** Where entry `k` starts. */
  ghost function Off(vs: seq<Dirent>, k: nat): nat
    requires k <= |vs|
  {
    if k == 0 then 0 else Off(vs, k - 1) + vs[k - 1].rec
  }

  ghost predicate Placed(b: seq<Byte>, vs: seq<Dirent>, k: nat)
    requires k < |vs|
  {
    EntryIs(b, Off(vs, k), vs[k]) && vs[k].rec % 4 == 0 && vs[k].rec >= 8 + |vs[k].name|
  }

  /** The entries cover the block exactly. */
  ghost predicate Tiled(b: seq<Byte>, vs: seq<Dirent>) {
    && |b| == 1024 && Off(vs, |vs|) == 1024
    && forall k: nat {:trigger Placed(b, vs, k)} :: k < |vs| ==> Placed(b, vs, k)
  }

  lemma {:induction false} OffBelow(vs: seq<Dirent>, i: nat, j: nat)
    requires i <= j <= |vs|
    ensures Off(vs, i) <= Off(vs, j)
    decreases j - i
  {
    if i < j { OffBelow(vs, i, j - 1); }
  }

  lemma {:induction false} OffApart(vs: seq<Dirent>, i: nat, j: nat)
    requires i < j <= |vs|
    ensures Off(vs, i) + vs[i].rec <= Off(vs, j)
  {
    assert Off(vs, i + 1) == Off(vs, i) + vs[i].rec;
    OffBelow(vs, i + 1, j);
  }

  lemma {:induction false} OffSame(vs: seq<Dirent>, ws: seq<Dirent>, k: nat)
    requires k <= |vs| && k <= |ws| && forall i :: 0 <= i < k ==> ws[i].rec == vs[i].rec
    ensures Off(ws, k) == Off(vs, k)
  {
    if k > 0 { OffSame(vs, ws, k - 1); }
  }

  /** Past a place where the offsets meet again they stay together. */
  lemma {:induction false} OffShifted(vs: seq<Dirent>, i: nat, ws: seq<Dirent>, j: nat, n: nat)
    requires i + n <= |vs| && j + n <= |ws| && Off(vs, i) == Off(ws, j)
    requires forall k :: j <= k < j + n ==> ws[k].rec == vs[k - j + i].rec
    ensures Off(vs, i + n) == Off(ws, j + n)
    decreases n
  {
    if n > 0 {
      OffShifted(vs, i, ws, j, n - 1);
      assert ws[j + n - 1].rec == vs[i + n - 1].rec;
    }
  }

  /** The bytes determine the entry. */
  lemma EntryUnique(b: seq<Byte>, off: nat, v: Dirent, w: Dirent)
    requires EntryIs(b, off, v) && EntryIs(b, off, w)
    ensures v == w
  {
    assert forall j :: 0 <= j < |v.name| ==> v.name[j] == b[off + 8 + j] && w.name[j] == b[off + 8 + j];
    assert v.name == w.name;
  }

  lemma {:induction false} SamePrefix(b: seq<Byte>, vs: seq<Dirent>, ws: seq<Dirent>, n: nat)
    requires Tiled(b, vs) && Tiled(b, ws) && n <= |vs| && n <= |ws|
    ensures vs[..n] == ws[..n] && Off(vs, n) == Off(ws, n)
  {
    if n > 0 {
      SamePrefix(b, vs, ws, n - 1);
      assert Placed(b, vs, n - 1) && Placed(b, ws, n - 1);
      EntryUnique(b, Off(vs, n - 1), vs[n - 1], ws[n - 1]);
      assert vs[..n] == vs[..n - 1] + [vs[n - 1]] && ws[..n] == ws[..n - 1] + [ws[n - 1]];
    }
  }

  lemma NotLonger(b: seq<Byte>, vs: seq<Dirent>, ws: seq<Dirent>)
    requires Tiled(b, vs) && Tiled(b, ws)
    ensures |ws| <= |vs|
  {
    if |vs| < |ws| {
      assert Placed(b, ws, |vs|);
      OffApart(ws, |vs|, |ws|);
      SamePrefix(b, vs, ws, |vs|);
    }
  }

  /** A block is tiled in at most one way, so its bytes alone say which entries it has. */
  lemma TilingUnique(b: seq<Byte>, vs: seq<Dirent>, ws: seq<Dirent>)
    requires Tiled(b, vs) && Tiled(b, ws)
    ensures vs == ws
  {
    NotLonger(b, vs, ws);
    NotLonger(b, ws, vs);
    SamePrefix(b, vs, ws, |vs|);
    assert vs[..|vs|] == vs && ws[..|ws|] == ws;
  }

  /** `b'` differs from `b` only in `lo .. hi`. */
  ghost predicate Outside(b: seq<Byte>, b': seq<Byte>, lo: nat, hi: nat) {
    |b'| == |b| && forall j :: 0 <= j < |b| && !(lo <= j < hi) ==> b'[j] == b[j]
  }

  lemma {:induction false} EntryKept(b: seq<Byte>, b': seq<Byte>, off: nat, v: Dirent, lo: nat, hi: nat)
    requires EntryIs(b, off, v) && Outside(b, b', lo, hi) && (off + 8 + |v.name| <= lo || hi <= off)
    ensures EntryIs(b', off, v)
  {
    assert forall p :: off <= p < off + 8 + |v.name| ==> b'[p] == b[p];
    var i := off / 4;
    assert b'[4 * i] == b[off] && b'[4 * i + 1] == b[off + 1] && b'[4 * i + 2] == b[off + 2] && b'[4 * i + 3] == b[off + 3];
    assert b'[off + 4] == b[off + 4] && b'[off + 5] == b[off + 5];
  }

  // ----- stores -----

  function PutU16(b: seq<Byte>, off: nat, w: nat): (r: seq<Byte>)
    requires off + 2 <= |b| && w < 0x1_0000
    ensures Outside(b, r, off, off + 2) && U16(r, off) == w
  {
    b[off := w % 0x100][off + 1 := w / 0x100]
  }

  function PutIno(b: seq<Byte>, off: nat, ino: nat): (r: seq<Byte>)
    requires off % 4 == 0 && off + 4 <= |b| && ino < 0x1_0000_0000
    ensures Outside(b, r, off, off + 4) && InoAt(r, off) == ino
  {
    PutWord(b, off / 4, ino)
  }

  function PutName(b: seq<Byte>, off: nat, name: seq<Byte>): (r: seq<Byte>)
    requires off + |name| <= |b|
    ensures Outside(b, r, off, off + |name|) && forall j :: 0 <= j < |name| ==> r[off + j] == name[j]
  {
    b[..off] + name + b[off + |name|..]
  }

  /** The four stores that fill an entry, leaving its rec_len alone. */
  function Fill(b: seq<Byte>, off: nat, ino: nat, kind: Byte, name: seq<Byte>): (r: seq<Byte>)
    requires off % 4 == 0 && off + 8 + |name| <= |b| && ino < 0x1_0000_0000 && |name| < 256
    ensures Outside(b, r, off, off + 8 + |name|) && EntryIs(r, off, Dirent(ino, U16(b, off + 4), kind, name))
  {
    var b1 := PutIno(b, off, ino);
    var b2 := b1[off + 6 := |name|];
    var b3 := b2[off + 7 := kind];
    var b4 := PutName(b3, off + 8, name);
    FillIs(b, off, ino, kind, name, b1, b4);
    b4
  }

  lemma {:induction false} FillIs(b: seq<Byte>, off: nat, ino: nat, kind: Byte, name: seq<Byte>, b1: seq<Byte>, b4: seq<Byte>)
    requires off % 4 == 0 && off + 8 + |name| <= |b| && ino < 0x1_0000_0000 && |name| < 256
    requires b1 == PutIno(b, off, ino) && b4 == PutName(b1[off + 6 := |name|][off + 7 := kind], off + 8, name)
    ensures Outside(b, b4, off, off + 8 + |name|) && EntryIs(b4, off, Dirent(ino, U16(b, off + 4), kind, name))
  {
    var i := off / 4;
    assert off == 4 * i;
    assert b4[4 * i] == b1[4 * i] && b4[4 * i + 1] == b1[4 * i + 1] && b4[4 * i + 2] == b1[4 * i + 2] && b4[4 * i + 3] == b1[4 * i + 3];
    assert b4[off + 4] == b[off + 4] && b4[off + 5] == b[off + 5];
  }

  // ----- the four edits -----

  /** One entry changes inside its own space. */
  lemma {:induction false} Edited(b: seq<Byte>, b': seq<Byte>, vs: seq<Dirent>, k: nat, v: Dirent)
    requires Tiled(b, vs) && k < |vs| && v.rec == vs[k].rec >= 8 + |v.name|
    requires Outside(b, b', Off(vs, k), Off(vs, k) + vs[k].rec) && EntryIs(b', Off(vs, k), v)
    ensures Tiled(b', vs[k := v])
  {
    var ws := vs[k := v];
    OffSame(vs, ws, |vs|);
    forall i: nat | i < |ws| ensures Placed(b', ws, i) {
      OffSame(vs, ws, i);
      assert Placed(b, vs, i) && Placed(b, vs, k);
      if i < k { OffApart(vs, i, k); }
      if k < i { OffApart(vs, k, i); }
      if i != k { EntryKept(b, b', Off(vs, i), vs[i], Off(vs, k), Off(vs, k) + vs[k].rec); }
    }
  }

  /** An entry that did not move and was not written over is still there. */
  lemma {:induction false} Refit(b: seq<Byte>, b': seq<Byte>, vs: seq<Dirent>, j: nat, ws: seq<Dirent>, i: nat, lo: nat, hi: nat)
    requires j < |vs| && i < |ws| && Placed(b, vs, j) && ws[i] == vs[j] && Off(ws, i) == Off(vs, j)
    requires Outside(b, b', lo, hi) && (Off(vs, j) + vs[j].rec <= lo || hi <= Off(vs, j))
    ensures Placed(b', ws, i)
  {
    EntryKept(b, b', Off(vs, j), vs[j], lo, hi);
  }

  /** `ws` is `vs` with entry `k` replaced by `v` and `w`. */
  ghost predicate IsSplit(vs: seq<Dirent>, k: nat, v: Dirent, w: Dirent, ws: seq<Dirent>) {
    && k < |vs| && |ws| == |vs| + 1 && ws[k] == v && ws[k + 1] == w
    && (forall i :: 0 <= i < k ==> ws[i] == vs[i]) && (forall i :: k + 1 < i < |ws| ==> ws[i] == vs[i - 1])
  }

  lemma {:induction false} SplitOff(vs: seq<Dirent>, k: nat, v: Dirent, w: Dirent, ws: seq<Dirent>, i: nat)
    requires IsSplit(vs, k, v, w, ws) && v.rec + w.rec == vs[k].rec && i <= |ws|
    ensures Off(ws, i) == if i <= k then Off(vs, i) else if i == k + 1 then Off(vs, k) + v.rec else Off(vs, i - 1)
  {
    if i <= k {
      OffSame(vs, ws, i);
    } else {
      OffSame(vs, ws, k);
      assert Off(ws, k + 1) == Off(vs, k) + v.rec;
      if i > k + 1 {
        assert Off(ws, k + 2) == Off(ws, k + 1) + w.rec == Off(vs, k + 1);
        OffShifted(vs, k + 1, ws, k + 2, i - k - 2);
      }
    }
  }

  /** The unused tail of entry `k` becomes an entry of its own. */
  lemma {:induction false} Split(b: seq<Byte>, b': seq<Byte>, vs: seq<Dirent>, k: nat, v: Dirent, w: Dirent, ws: seq<Dirent>)
    requires Tiled(b, vs) && IsSplit(vs, k, v, w, ws) && v.rec % 4 == 0 && w.rec % 4 == 0
    requires v.rec + w.rec == vs[k].rec && v.rec >= 8 + |v.name| && w.rec >= 8 + |w.name|
    requires Outside(b, b', Off(vs, k), Off(vs, k) + vs[k].rec)
    requires EntryIs(b', Off(vs, k), v) && EntryIs(b', Off(vs, k) + v.rec, w)
    ensures Tiled(b', ws)
  {
    var lo, hi := Off(vs, k), Off(vs, k) + vs[k].rec;
    SplitOff(vs, k, v, w, ws, |ws|);
    forall i: nat | i < |ws| ensures Placed(b', ws, i) {
      SplitOff(vs, k, v, w, ws, i);
      if i < k {
        OffApart(vs, i, k);
        assert Placed(b, vs, i);
        Refit(b, b', vs, i, ws, i, lo, hi);
      } else if i > k + 1 {
        var j := i - 1;
        OffApart(vs, k, j);
        assert Placed(b, vs, j);
        Refit(b, b', vs, j, ws, i, lo, hi);
      }
    }
  }

  /** `ws` is `vs` with entries `h` and `h + 1` replaced by `v`. */
  ghost predicate IsMerge(vs: seq<Dirent>, h: nat, v: Dirent, ws: seq<Dirent>) {
    && h + 1 < |vs| == |ws| + 1 && ws[h] == v
    && (forall i :: 0 <= i < h ==> ws[i] == vs[i]) && (forall i :: h < i < |ws| ==> ws[i] == vs[i + 1])
  }

  lemma {:induction false} MergeOff(vs: seq<Dirent>, h: nat, v: Dirent, ws: seq<Dirent>, i: nat)
    requires IsMerge(vs, h, v, ws) && v.rec == vs[h].rec + vs[h + 1].rec && i <= |ws|
    ensures Off(ws, i) == if i <= h then Off(vs, i) else Off(vs, i + 1)
  {
    if i <= h {
      OffSame(vs, ws, i);
    } else {
      OffSame(vs, ws, h);
      assert Off(vs, h + 2) == Off(vs, h + 1) + vs[h + 1].rec;
      assert Off(ws, h + 1) == Off(vs, h + 2);
      OffShifted(vs, h + 2, ws, h + 1, i - h - 1);
    }
  }

  lemma {:induction false} Fours(a: nat, b: nat)
    requires a % 4 == 0 && b % 4 == 0
    ensures (a + b) % 4 == 0
  {
  }

  /** Entry `h + 1` is swallowed by entry `h`. */
  lemma {:induction false} Merge(b: seq<Byte>, b': seq<Byte>, vs: seq<Dirent>, h: nat, v: Dirent, ws: seq<Dirent>)
    requires Tiled(b, vs) && IsMerge(vs, h, v, ws) && v == vs[h].(rec := vs[h].rec + vs[h + 1].rec)
    requires Outside(b, b', Off(vs, h), Off(vs, h) + vs[h].rec) && EntryIs(b', Off(vs, h), v)
    ensures Tiled(b', ws)
  {
    var lo, hi := Off(vs, h), Off(vs, h) + vs[h].rec;
    MergeOff(vs, h, v, ws, |ws|);
    assert v.rec % 4 == 0 by {
      assert Placed(b, vs, h) && Placed(b, vs, h + 1);
      Fours(vs[h].rec, vs[h + 1].rec);
    }
    forall i: nat | i < |ws| ensures Placed(b', ws, i) {
      MergeOff(vs, h, v, ws, i);
      if i < h {
        OffApart(vs, i, h);
        assert Placed(b, vs, i);
        Refit(b, b', vs, i, ws, i, lo, hi);
      } else if i > h {
        var j := i + 1;
        OffApart(vs, h, j);
        assert Placed(b, vs, j);
        Refit(b, b', vs, j, ws, i, lo, hi);
      } else {
        assert Placed(b, vs, h);
      }
    }
  }

  /** Storing another rec_len. */
  lemma {:induction false} PutRec(b: seq<Byte>, off: nat, v: Dirent, rec: nat)
    requires EntryIs(b, off, v) && rec < 0x1_0000
    ensures Outside(b, PutU16(b, off + 4, rec), off, off + 8) && EntryIs(PutU16(b, off + 4, rec), off, v.(rec := rec))
  {
    var b' := PutU16(b, off + 4, rec);
    var q := off / 4;
    assert b'[4 * q] == b[off] && b'[4 * q + 1] == b[off + 1] && b'[4 * q + 2] == b[off + 2] && b'[4 * q + 3] == b[off + 3];
  }

  // ----- what a block lists -----

  datatype Link = Link(name: seq<Byte>, ino: nat, kind: Byte)

  ghost function LiveOne(v: Dirent): seq<Link> {
    if v.ino == 0 then [] else [Link(v.name, v.ino, v.kind)]
  }

  /** The names in use, in order. */
  ghost function Live(vs: seq<Dirent>): seq<Link> {
    if vs == [] then [] else LiveOne(vs[0]) + Live(vs[1..])
  }

  lemma {:induction false} Assoc(a: seq<Link>, b: seq<Link>, c: seq<Link>)
    ensures a + (b + c) == a + b + c
  {
  }

  lemma {:induction false} LiveConcat(vs: seq<Dirent>, ws: seq<Dirent>)
    ensures Live(vs + ws) == Live(vs) + Live(ws)
  {
    if vs == [] {
      assert vs + ws == ws;
    } else {
      LiveConcat(vs[1..], ws);
      assert (vs + ws)[1..] == vs[1..] + ws && (vs + ws)[0] == vs[0];
      Assoc(LiveOne(vs[0]), Live(vs[1..]), Live(ws));
    }
  }

  lemma {:induction false} LiveAt(vs: seq<Dirent>, k: nat)
    requires k < |vs|
    ensures Live(vs) == Live(vs[..k]) + LiveOne(vs[k]) + Live(vs[k + 1..])
  {
    assert vs == vs[..k] + vs[k..];
    LiveConcat(vs[..k], vs[k..]);
    assert vs[k..][0] == vs[k] && vs[k..][1..] == vs[k + 1..];
    Assoc(Live(vs[..k]), LiveOne(vs[k]), Live(vs[k + 1..]));
  }
}
