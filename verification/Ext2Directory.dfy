/** Looking up, adding and removing names in a directory (kernel/fs/ext2/ext2_dir.c). */
module Ext2Directories {

  import opened Ext2Blocks
  import opened Ext2Dirents

  // ----- lists of names -----

  /** What a listing says about a name: its first inode number, or 0. */
  ghost function Find(links: seq<Link>, name: seq<Byte>): nat {
    if links == [] then 0 else if links[0].name == name then links[0].ino else Find(links[1..], name)
  }

  ghost predicate NoZero(links: seq<Link>) {
    forall i :: 0 <= i < |links| ==> links[i].ino != 0
  }

  lemma {:induction false} FindConcat(a: seq<Link>, b: seq<Link>, name: seq<Byte>)
    requires NoZero(a)
    ensures Find(a + b, name) == if Find(a, name) != 0 then Find(a, name) else Find(b, name)
  {
    if a == [] {
      assert a + b == b;
    } else {
      FindConcat(a[1..], b, name);
      assert (a + b)[1..] == a[1..] + b;
      assert a[0].ino != 0;
    }
  }

  lemma {:induction false} LiveNoZero(vs: seq<Dirent>)
    ensures NoZero(Live(vs))
  {
    if vs != [] { LiveNoZero(vs[1..]); }
  }

  lemma {:induction false} LiveSingle(v: Dirent)
    ensures Live([v]) == LiveOne(v)
  {
    var vs := [v];
    assert vs[1..] == [];
  }

  /** One more entry scanned. */
  lemma {:induction false} LiveNext(vs: seq<Dirent>, k: nat)
    requires k < |vs|
    ensures Live(vs[..k + 1]) == Live(vs[..k]) + LiveOne(vs[k])
  {
    assert vs[..k + 1] == vs[..k] + [vs[k]];
    LiveConcat(vs[..k], [vs[k]]);
    LiveSingle(vs[k]);
  }

  // ----- one block -----

  /** A scan that has not reached the end is at an entry. */
  lemma {:induction false} AtEntry(b: seq<Byte>, vs: seq<Dirent>, k: nat)
    requires Tiled(b, vs) && k <= |vs|
    ensures Off(vs, k) <= 1024
    ensures Off(vs, k) < 1024 <==> k < |vs|
    ensures k < |vs| ==> Placed(b, vs, k) && Off(vs, k) + vs[k].rec <= 1024 && Off(vs, k + 1) == Off(vs, k) + vs[k].rec
  {
    if k < |vs| {
      OffApart(vs, k, |vs|);
      assert Placed(b, vs, k);
    }
  }

  /** The name_len test and the memcmp. */
  predicate HasName(b: seq<Byte>, off: nat, name: seq<Byte>)
    requires off + 8 <= |b|
  {
    var n := b[off + 6];
    n == |name| && off + 8 + n <= |b| && b[off + 8..off + 8 + n] == name
  }

  lemma {:induction false} HasNameIs(b: seq<Byte>, off: nat, v: Dirent, name: seq<Byte>)
    requires EntryIs(b, off, v)
    ensures HasName(b, off, name) <==> v.name == name
  {
    if v.name == name { assert b[off + 8..off + 8 + |name|] == name; }
    if HasName(b, off, name) {
      forall j | 0 <= j < |name| ensures v.name[j] == name[j] { assert b[off + 8..off + 8 + |name|][j] == b[off + 8 + j]; }
    }
  }

  ghost predicate Answers(v: Dirent, name: seq<Byte>) {
    v.ino != 0 && v.name == name
  }

  lemma {:induction false} NoneAnswers(vs: seq<Dirent>, name: seq<Byte>)
    requires forall i :: 0 <= i < |vs| ==> !Answers(vs[i], name)
    ensures Find(Live(vs), name) == 0
  {
    if vs != [] {
      NoneAnswers(vs[1..], name);
      LiveNoZero([vs[0]]);
      LiveSingle(vs[0]);
      assert !Answers(vs[0], name);
      FindConcat(LiveOne(vs[0]), Live(vs[1..]), name);
    }
  }

  lemma {:induction false} FirstAnswers(vs: seq<Dirent>, k: nat, name: seq<Byte>)
    requires k < |vs| && Answers(vs[k], name) && forall i :: 0 <= i < k ==> !Answers(vs[i], name)
    ensures Find(Live(vs), name) == vs[k].ino
  {
    NoneAnswers(vs[..k], name);
    LiveNext(vs, k);
    LiveNoZero(vs[..k]);
    FindConcat(Live(vs[..k]), LiveOne(vs[k]), name);
    FindPrefix(vs, k + 1, name);
  }

  method LookupBlock(b: seq<Byte>, ghost vs: seq<Dirent>, name: seq<Byte>) returns (ino: nat)
    requires Tiled(b, vs)
    ensures ino == Find(Live(vs), name)
  {
    var at;
    ghost var k;
    at, k := FindName(b, vs, name);
    if at == -1 {
      NoneAnswers(vs, name);
      return 0;
    }
    FirstAnswers(vs, k, name);
    AtEntry(b, vs, k);
    return InoAt(b, at);
  }

  /** The scan of ext2_lookup. */
  method FindName(b: seq<Byte>, ghost vs: seq<Dirent>, name: seq<Byte>) returns (at: int, ghost k: nat)
    requires Tiled(b, vs)
    ensures if at == -1 then forall i :: 0 <= i < |vs| ==> !Answers(vs[i], name)
            else k < |vs| && at == Off(vs, k) && Answers(vs[k], name) && forall i :: 0 <= i < k ==> !Answers(vs[i], name)
  {
    var offset: nat := 0;
    k := 0;
    while offset < 1024
      invariant k <= |vs| && offset == Off(vs, k)
      invariant forall i :: 0 <= i < k ==> !Answers(vs[i], name)
      decreases |vs| - k
    {
      AtEntry(b, vs, k);
      HasNameIs(b, offset, vs[k], name);
      var rec := U16(b, offset + 4);
      if rec == 0 { break; }
      if InoAt(b, offset) != 0 && HasName(b, offset, name) { return offset, k; }
      offset := offset + rec;
      k := k + 1;
    }
    AtEntry(b, vs, k);
    return -1, k;
  }

  lemma {:induction false} FindPrefix(vs: seq<Dirent>, k: nat, name: seq<Byte>)
    requires k <= |vs| && Find(Live(vs[..k]), name) != 0
    ensures Find(Live(vs), name) == Find(Live(vs[..k]), name)
  {
    assert vs == vs[..k] + vs[k..];
    LiveConcat(vs[..k], vs[k..]);
    LiveNoZero(vs[..k]);
    FindConcat(Live(vs[..k]), Live(vs[k..]), name);
  }

  // ----- adding -----

  /** Whether a name of length `n` can go into an unused entry or behind a used one. */
  ghost predicate Roomy(v: Dirent, n: nat) {
    (v.ino == 0 && v.rec >= RecLen(n)) || v.rec > RecLen(|v.name|) + RecLen(n)
  }

  ghost predicate HasRoom(vs: seq<Dirent>, n: nat) {
    exists k :: 0 <= k < |vs| && Roomy(vs[k], n)
  }

  ghost function Inserted(links: seq<Link>, p: nat, link: Link): seq<Link>
    requires p <= |links|
  {
    links[..p] + [link] + links[p..]
  }

  lemma {:induction false} LiveReused(vs: seq<Dirent>, k: nat, v: Dirent)
    requires k < |vs| && vs[k].ino == 0 && v.ino != 0
    ensures var p := |Live(vs[..k])|; p <= |Live(vs)| && Live(vs[k := v]) == Inserted(Live(vs), p, Link(v.name, v.ino, v.kind))
  {
    LiveAt(vs, k);
    LiveAt(vs[k := v], k);
    assert vs[k := v][..k] == vs[..k] && vs[k := v][k + 1..] == vs[k + 1..];
  }

  lemma {:induction false} LiveSplit(vs: seq<Dirent>, k: nat, v: Dirent, w: Dirent)
    requires k < |vs| && LiveOne(v) == LiveOne(vs[k]) && w.ino != 0
    ensures var p := |Live(vs[..k + 1])|;
            p <= |Live(vs)| && Live(vs[..k] + [v, w] + vs[k + 1..]) == Inserted(Live(vs), p, Link(w.name, w.ino, w.kind))
  {
    var a, c := Live(vs[..k]), Live(vs[k + 1..]);
    LiveAt(vs, k);
    LiveNext(vs, k);
    var ws := vs[..k] + [v, w] + vs[k + 1..];
    LiveAt(ws, k + 1);
    assert ws[..k + 1] == vs[..k] + [v] && ws[k + 2..] == vs[k + 1..];
    LiveConcat(vs[..k], [v]);
    LiveSingle(v);
    assert Live(vs) == (a + LiveOne(vs[k])) + c;
  }

  /** Storing into entry `k`, which is unused and long enough. */
  lemma {:induction false} AddReused(b: seq<Byte>, vs: seq<Dirent>, k: nat, child: nat, kind: Byte, name: seq<Byte>)
    requires Tiled(b, vs) && k < |vs| && vs[k].rec >= RecLen(|name|) && child < 0x1_0000_0000 && |name| < 256
    ensures Off(vs, k) % 4 == 0 && Off(vs, k) + 8 + |name| <= 1024
    ensures Tiled(Fill(b, Off(vs, k), child, kind, name), vs[k := Dirent(child, vs[k].rec, kind, name)])
  {
    AtEntry(b, vs, k);
    Edited(b, Fill(b, Off(vs, k), child, kind, name), vs, k, Dirent(child, vs[k].rec, kind, name));
  }

  /** The three groups of stores that split entry `k`. */
  function SplitStores(b: seq<Byte>, off: nat, actual: nat, rec: nat, child: nat, kind: Byte, name: seq<Byte>): (r: seq<Byte>)
    requires |b| == 1024 && off % 4 == 0 && actual % 4 == 0 && 8 <= actual && actual + 8 + |name| <= rec && off + rec <= 1024
    requires child < 0x1_0000_0000 && |name| < 256
    ensures |r| == 1024
  {
    Fours(off, actual);
    var b1 := PutU16(b, off + 4, actual);
    var b2 := PutU16(b1, off + actual + 4, rec - actual);
    Fill(b2, off + actual, child, kind, name)
  }

  /** `v` is `u` cut short, `w` takes what is left. */
  ghost predicate CutInto(u: Dirent, v: Dirent, w: Dirent) {
    && v == u.(rec := v.rec) && v.rec % 4 == 0 && v.rec >= 8 + |u.name| && w.rec == u.rec - v.rec && w.rec % 4 == 0
    && w.rec >= 8 + |w.name| && w.ino < 0x1_0000_0000 && |w.name| < 256
  }

  /** After those stores: the old entry, cut to its actual length, and the new one behind it. */
  lemma {:induction false} SplitEntries(b: seq<Byte>, off: nat, u: Dirent, v: Dirent, w: Dirent, r: seq<Byte>)
    requires |b| == 1024 && EntryIs(b, off, u) && off + u.rec <= 1024 && CutInto(u, v, w)
    requires r == SplitStores(b, off, v.rec, u.rec, w.ino, w.kind, w.name)
    ensures Outside(b, r, off, off + u.rec) && EntryIs(r, off, v) && EntryIs(r, off + v.rec, w)
  {
    Fours(off, v.rec);
    var b1 := PutU16(b, off + 4, v.rec);
    PutRec(b, off, u, v.rec);
    var b2 := PutU16(b1, off + v.rec + 4, u.rec - v.rec);
    var b3 := Fill(b2, off + v.rec, w.ino, w.kind, w.name);
    assert b3 == r;
    ThreeStores(b, b1, b2, b3, off, u, v, w);
  }

  lemma {:induction false} ThreeStores(b: seq<Byte>, b1: seq<Byte>, b2: seq<Byte>, b3: seq<Byte>, off: nat, u: Dirent, v: Dirent, w: Dirent)
    requires |b| == 1024 && off + u.rec <= 1024 && CutInto(u, v, w)
    requires Outside(b, b1, off, off + 8) && EntryIs(b1, off, v)
    requires var at := off + v.rec;
             Outside(b1, b2, at + 4, at + 6) && Outside(b2, b3, at, at + 8 + |w.name|)
    ensures Outside(b, b3, off, off + u.rec) && EntryIs(b3, off, v)
  {
    var at := off + v.rec;
    OutsideTwice(b, b, b1, off, off + 8, off, off + u.rec);
    EntryKept(b1, b2, off, v, at + 4, at + 6);
    OutsideTwice(b, b1, b2, at + 4, at + 6, off, off + u.rec);
    EntryKept(b2, b3, off, v, at, at + 8 + |w.name|);
    OutsideTwice(b, b2, b3, at, at + 8 + |w.name|, off, off + u.rec);
  }

  /** A second store inside the same range. */
  lemma {:induction false} OutsideTwice(b: seq<Byte>, b1: seq<Byte>, b2: seq<Byte>, lo1: nat, hi1: nat, lo: nat, hi: nat)
    requires Outside(b, b1, lo, hi) && Outside(b1, b2, lo1, hi1) && lo <= lo1 && hi1 <= hi
    ensures Outside(b, b2, lo, hi)
  {
  }

  lemma {:induction false} FoursLess(a: nat, b: nat)
    requires a % 4 == 0 && b % 4 == 0
    ensures (a - b) % 4 == 0
  {
  }

  lemma {:induction false} SplitShape(vs: seq<Dirent>, k: nat, v: Dirent, w: Dirent)
    requires k < |vs|
    ensures IsSplit(vs, k, v, w, vs[..k] + [v, w] + vs[k + 1..])
  {
  }

  lemma {:induction false} AddSplit(b: seq<Byte>, vs: seq<Dirent>, k: nat, v: Dirent, w: Dirent, r: seq<Byte>, ws: seq<Dirent>)
    requires Tiled(b, vs) && k < |vs| && CutInto(vs[k], v, w) && IsSplit(vs, k, v, w, ws)
    requires EntryIs(b, Off(vs, k), vs[k]) && Off(vs, k) + vs[k].rec <= 1024
    requires r == SplitStores(b, Off(vs, k), v.rec, vs[k].rec, w.ino, w.kind, w.name)
    ensures Tiled(r, ws)
  {
    SplitEntries(b, Off(vs, k), vs[k], v, w, r);
    Split(b, r, vs, k, v, w, ws);
  }

  /** The scan of add_dirent: the first entry with room, or -1. */
  method FindRoom(b: seq<Byte>, ghost vs: seq<Dirent>, n: nat) returns (at: int, ghost k: nat)
    requires Tiled(b, vs)
    ensures if at == -1 then !HasRoom(vs, n)
            else k < |vs| && at == Off(vs, k) && Roomy(vs[k], n) && forall i :: 0 <= i < k ==> !Roomy(vs[i], n)
  {
    var offset: nat := 0;
    k := 0;
    while offset < 1024
      invariant k <= |vs| && offset == Off(vs, k)
      invariant forall i :: 0 <= i < k ==> !Roomy(vs[i], n)
      decreases |vs| - k
    {
      AtEntry(b, vs, k);
      var rec := U16(b, offset + 4);
      if rec == 0 { break; }
      if (InoAt(b, offset) == 0 && rec >= RecLen(n)) || rec > RecLen(b[offset + 6]) + RecLen(n) { return offset, k; }
      offset := offset + rec;
      k := k + 1;
    }
    AtEntry(b, vs, k);
    return -1, k;
  }

  /** add_dirent within one block. */
  method AddToBlock(b: seq<Byte>, ghost vs: seq<Dirent>, child: nat, kind: Byte, name: seq<Byte>)
    returns (done: bool, b': seq<Byte>, ghost vs': seq<Dirent>, ghost p: nat)
    requires Tiled(b, vs) && 0 < child < 0x1_0000_0000 && |name| < 256
    ensures done <==> HasRoom(vs, |name|)
    ensures if done then Tiled(b', vs') && p <= |Live(vs)| && Live(vs') == Inserted(Live(vs), p, Link(name, child, kind))
            else b' == b && vs' == vs
  {
    var at;
    ghost var k;
    at, k := FindRoom(b, vs, |name|);
    if at == -1 { return false, b, vs, 0; }
    done := true;
    if CanReuse(b, vs, at, k, |name|) {
      b', vs', p := Reuse(b, vs, at, k, child, kind, name);
    } else {
      b', vs', p := Cut(b, vs, at, k, child, kind, name);
    }
  }

  predicate CanReuse(b: seq<Byte>, ghost vs: seq<Dirent>, at: nat, ghost k: nat, n: nat)
    requires Tiled(b, vs) && k < |vs| && at == Off(vs, k)
    ensures CanReuse(b, vs, at, k, n) <==> vs[k].ino == 0 && vs[k].rec >= RecLen(n)
  {
    AtEntry(b, vs, k);
    InoAt(b, at) == 0 && U16(b, at + 4) >= RecLen(n)
  }

  method Reuse(b: seq<Byte>, ghost vs: seq<Dirent>, at: nat, ghost k: nat, child: nat, kind: Byte, name: seq<Byte>)
    returns (b': seq<Byte>, ghost vs': seq<Dirent>, ghost p: nat)
    requires Tiled(b, vs) && k < |vs| && at == Off(vs, k) && 0 < child < 0x1_0000_0000 && |name| < 256
    requires vs[k].ino == 0 && vs[k].rec >= RecLen(|name|)
    ensures Tiled(b', vs') && p <= |Live(vs)| && Live(vs') == Inserted(Live(vs), p, Link(name, child, kind))
  {
    AddReused(b, vs, k, child, kind, name);
    b' := Fill(b, at, child, kind, name);
    vs', p := vs[k := Dirent(child, vs[k].rec, kind, name)], |Live(vs[..k])|;
    LiveReused(vs, k, vs'[k]);
  }

  method Cut(b: seq<Byte>, ghost vs: seq<Dirent>, at: nat, ghost k: nat, child: nat, kind: Byte, name: seq<Byte>)
    returns (b': seq<Byte>, ghost vs': seq<Dirent>, ghost p: nat)
    requires Tiled(b, vs) && k < |vs| && at == Off(vs, k) && 0 < child < 0x1_0000_0000 && |name| < 256
    requires vs[k].rec > RecLen(|vs[k].name|) + RecLen(|name|)
    ensures Tiled(b', vs') && p <= |Live(vs)| && Live(vs') == Inserted(Live(vs), p, Link(name, child, kind))
  {
    AtEntry(b, vs, k);
    var rec, actual := U16(b, at + 4), RecLen(b[at + 6]);
    ghost var v, w := vs[k].(rec := actual), Dirent(child, rec - actual, kind, name);
    FoursLess(rec, actual);
    assert CutInto(vs[k], v, w);
    vs', p := vs[..k] + [v, w] + vs[k + 1..], |Live(vs[..k + 1])|;
    SplitShape(vs, k, v, w);
    b' := SplitStores(b, at, actual, rec, child, kind, name);
    AddSplit(b, vs, k, v, w, b', vs');
    LiveSplit(vs, k, v, w);
  }

  // ----- removing -----

  ghost function Removed(links: seq<Link>, q: nat): seq<Link>
    requires q < |links|
  {
    links[..q] + links[q + 1..]
  }

  ghost predicate NotIn(links: seq<Link>, ino: nat) {
    forall i :: 0 <= i < |links| ==> links[i].ino != ino
  }

  /** Entry `q` is the first one for `ino`. */
  ghost predicate IsFirst(links: seq<Link>, q: nat, ino: nat) {
    q < |links| && links[q].ino == ino && forall i :: 0 <= i < q ==> links[i].ino != ino
  }

  lemma {:induction false} LiveNotIn(vs: seq<Dirent>, ino: nat)
    requires forall i :: 0 <= i < |vs| ==> vs[i].ino != ino
    ensures NotIn(Live(vs), ino)
  {
    if vs != [] { LiveNotIn(vs[1..], ino); }
  }

  /** The first entry for `ino` in the block is the first in its listing. */
  lemma {:induction false} FirstLive(vs: seq<Dirent>, k: nat, ino: nat)
    requires k < |vs| && ino != 0 && vs[k].ino == ino && forall i :: 0 <= i < k ==> vs[i].ino != ino
    ensures var q := |Live(vs[..k])|;
            && IsFirst(Live(vs), q, ino) && Removed(Live(vs), q) == Live(vs[..k]) + Live(vs[k + 1..])
  {
    LiveAt(vs, k);
    LiveNotIn(vs[..k], ino);
  }

  lemma {:induction false} LiveMerged(vs: seq<Dirent>, h: nat, v: Dirent)
    requires h + 1 < |vs| && LiveOne(v) == LiveOne(vs[h])
    ensures Live(vs[..h] + [v] + vs[h + 2..]) == Live(vs[..h + 1]) + Live(vs[h + 2..])
  {
    var ws := vs[..h] + [v] + vs[h + 2..];
    LiveAt(ws, h);
    LiveNext(vs, h);
    assert ws[..h] == vs[..h] && ws[h + 1..] == vs[h + 2..];
  }

  lemma {:induction false} MergeShape(vs: seq<Dirent>, h: nat, v: Dirent)
    requires h + 1 < |vs|
    ensures IsMerge(vs, h, v, vs[..h] + [v] + vs[h + 2..])
  {
  }

  /** The scan of ext2_unlink: the first entry for `ino` and the one before it. */
  method FindIno(b: seq<Byte>, ghost vs: seq<Dirent>, ino: nat) returns (at: int, prev: int, ghost k: nat)
    requires Tiled(b, vs)
    ensures if at == -1 then forall i :: 0 <= i < |vs| ==> vs[i].ino != ino
            else && k < |vs| && at == Off(vs, k) && vs[k].ino == ino && (forall i :: 0 <= i < k ==> vs[i].ino != ino)
                 && prev == if k == 0 then -1 else Off(vs, k - 1)
  {
    var offset: nat := 0;
    prev, k := -1, 0;
    while offset < 1024
      invariant k <= |vs| && offset == Off(vs, k) && prev == if k == 0 then -1 else Off(vs, k - 1)
      invariant forall i :: 0 <= i < k ==> vs[i].ino != ino
      decreases |vs| - k
    {
      AtEntry(b, vs, k);
      var rec := U16(b, offset + 4);
      if rec == 0 { break; }
      if InoAt(b, offset) == ino { return offset, prev, k; }
      prev := offset;
      offset := offset + rec;
      k := k + 1;
    }
    AtEntry(b, vs, k);
    return -1, prev, k;
  }

  /** ext2_unlink within one block: the first entry for `ino` is merged into the one before it, or its inode zeroed. */
  method UnlinkBlock(b: seq<Byte>, ghost vs: seq<Dirent>, ino: nat) returns (done: bool, b': seq<Byte>, ghost vs': seq<Dirent>, ghost q: nat)
    requires Tiled(b, vs) && ino != 0
    ensures !done ==> NotIn(Live(vs), ino) && b' == b && vs' == vs
    ensures done ==> Tiled(b', vs') && IsFirst(Live(vs), q, ino) && Live(vs') == Removed(Live(vs), q)
  {
    var at, prev;
    ghost var k;
    at, prev, k := FindIno(b, vs, ino);
    if at == -1 {
      LiveNotIn(vs, ino);
      return false, b, vs, 0;
    }
    FirstLive(vs, k, ino);
    q := |Live(vs[..k])|;
    if prev >= 0 {
      AtEntry(b, vs, k);
      b', vs' := MergeInto(b, vs, k - 1, prev, U16(b, at + 4));
    } else {
      b', vs' := ZeroFirst(b, vs);
    }
    done := true;
  }

  method MergeInto(b: seq<Byte>, ghost vs: seq<Dirent>, ghost h: nat, prev: nat, rec: nat) returns (b': seq<Byte>, ghost vs': seq<Dirent>)
    requires Tiled(b, vs) && h + 1 < |vs| && prev == Off(vs, h) && rec == vs[h + 1].rec
    ensures Tiled(b', vs') && Live(vs') == Live(vs[..h + 1]) + Live(vs[h + 2..])
  {
    AtEntry(b, vs, h);
    AtEntry(b, vs, h + 1);
    b' := PutU16(b, prev + 4, U16(b, prev + 4) + rec);
    ghost var v := vs[h].(rec := vs[h].rec + vs[h + 1].rec);
    PutRec(b, prev, vs[h], v.rec);
    vs' := vs[..h] + [v] + vs[h + 2..];
    MergeShape(vs, h, v);
    OutsideTwice(b, b, b', prev, prev + 8, prev, prev + vs[h].rec);
    Merge(b, b', vs, h, v, vs');
    LiveMerged(vs, h, v);
  }

  method ZeroFirst(b: seq<Byte>, ghost vs: seq<Dirent>) returns (b': seq<Byte>, ghost vs': seq<Dirent>)
    requires Tiled(b, vs) && vs != []
    ensures Tiled(b', vs') && Live(vs') == Live(vs[..0]) + Live(vs[1..])
  {
    AtEntry(b, vs, 0);
    b' := PutIno(b, 0, 0);
    vs' := vs[0 := vs[0].(ino := 0)];
    OutsideTwice(b, b, b', 0, 4, 0, vs[0].rec);
    assert EntryIs(b', 0, vs'[0]) by { assert forall p :: 4 <= p < 1024 ==> b'[p] == b[p]; }
    Edited(b, b', vs, 0, vs'[0]);
    assert vs'[1..] == vs[1..];
  }

  // ----- what the edits mean for names -----

  /** No name appears twice. */
  ghost predicate Unique(links: seq<Link>) {
    forall i, j :: 0 <= i < j < |links| ==> links[i].name != links[j].name
  }

  lemma {:induction false} FindNone(links: seq<Link>, name: seq<Byte>)
    requires NoZero(links)
    ensures Find(links, name) == 0 <==> forall i :: 0 <= i < |links| ==> links[i].name != name
  {
    if links != [] {
      FindNone(links[1..], name);
      assert links[0].ino != 0;
      forall i | 0 < i < |links| ensures links[i] == links[1..][i - 1] { }
      if Find(links, name) == 0 {
        forall i | 0 <= i < |links| ensures links[i].name != name { if i > 0 { assert links[1..][i - 1].name != name; } }
      }
    }
  }

  /** Lookup finds an added name and is unchanged for all others. */
  lemma {:induction false} AddFinds(links: seq<Link>, p: nat, link: Link, name: seq<Byte>)
    requires NoZero(links) && p <= |links| && link.ino != 0 && Find(links, link.name) == 0
    ensures Find(Inserted(links, p, link), name) == if name == link.name then link.ino else Find(links, name)
  {
    var a, b := links[..p], links[p..];
    assert links == a + b;
    FindConcat(a, b, name);
    FindConcat(a, [link], name);
    FindConcat(a + [link], b, name);
    FindNone(links, link.name);
    FindNone(a, link.name);
  }

  lemma {:induction false} AddUnique(links: seq<Link>, p: nat, link: Link)
    requires NoZero(links) && Unique(links) && p <= |links| && link.ino != 0 && Find(links, link.name) == 0
    ensures Unique(Inserted(links, p, link)) && NoZero(Inserted(links, p, link))
  {
    FindNone(links, link.name);
    var out := Inserted(links, p, link);
    forall i, j | 0 <= i < j < |out| ensures out[i].name != out[j].name {
      var i', j' := if i < p then i else i - 1, if j < p then j else j - 1;
      assert i != p ==> out[i] == links[i'];
      assert j != p ==> out[j] == links[j'];
    }
  }

  lemma {:induction false} RemoveUnique(links: seq<Link>, q: nat)
    requires NoZero(links) && Unique(links) && q < |links|
    ensures Unique(Removed(links, q)) && NoZero(Removed(links, q))
  {
    var out := Removed(links, q);
    forall i, j | 0 <= i < j < |out| ensures out[i].name != out[j].name {
      var i', j' := if i < q then i else i + 1, if j < q then j else j + 1;
      assert out[i] == links[i'] && out[j] == links[j'];
    }
  }

  /** Without entry `q`, its name is gone and every other name is found as before. */
  lemma {:induction false} RemoveFinds(links: seq<Link>, q: nat, name: seq<Byte>)
    requires NoZero(links) && Unique(links) && q < |links|
    ensures Find(Removed(links, q), name) == if name == links[q].name then 0 else Find(links, name)
  {
    var a, b := links[..q], links[q + 1..];
    assert links == a + [links[q]] + b;
    FindConcat(a + [links[q]], b, name);
    FindConcat(a, [links[q]], name);
    FindConcat(a, b, name);
    if name == links[q].name {
      RemoveUnique(links, q);
      FindNone(Removed(links, q), name);
    }
  }

  /** Where lookup finds a name. */
  lemma {:induction false} FoundAt(links: seq<Link>, name: seq<Byte>) returns (k: nat)
    requires Find(links, name) != 0
    ensures k < |links| && links[k].name == name && links[k].ino == Find(links, name)
    ensures forall i :: 0 <= i < k ==> links[i].name != name
  {
    if links[0].name == name {
      k := 0;
    } else {
      var j := FoundAt(links[1..], name);
      k := j + 1;
      forall i | 0 <= i < k ensures links[i].name != name { assert i > 0 ==> links[i] == links[1..][i - 1]; }
    }
  }

  /** No entry before the one named has the same inode. */
  ghost predicate FirstOfInode(links: seq<Link>, name: seq<Byte>) {
    forall i, k :: 0 <= i < k < |links| && links[k].name == name ==> links[i].ino != links[k].ino
  }

  /** Unlinking takes out the first entry with the inode of the name.  That removes this name and no other if and only if
      no entry before the one named has the same inode. */
  lemma {:induction false} UnlinkExact(links: seq<Link>, q: nat, name: seq<Byte>)
    requires NoZero(links) && Unique(links) && Find(links, name) != 0 && IsFirst(links, q, Find(links, name))
    ensures (forall n :: Find(Removed(links, q), n) == if n == name then 0 else Find(links, n)) <==> FirstOfInode(links, name)
  {
    forall n ensures Find(Removed(links, q), n) == if n == links[q].name then 0 else Find(links, n) { RemoveFinds(links, q, n); }
    var k := FoundAt(links, name);
    if links[q].name == name {
      assert q == k;
      forall i, j | 0 <= i < j < |links| && links[j].name == name ensures links[i].ino != links[j].ino { assert j == k; }
    } else {
      assert Find(Removed(links, q), name) != 0;
      assert q < k && links[q].ino == links[k].ino;
    }
  }

  /** With two names of one inode in a directory, unlinking the later name takes out the earlier one and leaves the later. */
  lemma {:induction false} UnlinkSecondName(links: seq<Link>, i: nat, j: nat)
    requires NoZero(links) && Unique(links) && i < j < |links| && IsFirst(links, i, links[j].ino)
    ensures !FirstOfInode(links, links[j].name) && Find(links, links[j].name) == links[j].ino
    ensures Find(Removed(links, i), links[i].name) == 0 && Find(Removed(links, i), links[j].name) == links[j].ino
  {
    RemoveFinds(links, i, links[i].name);
    RemoveFinds(links, i, links[j].name);
    FindNone(links, links[j].name);
    var k := FoundAt(links, links[j].name);
  }

  /** A file with two hard links `a` and `b`: unlinking `b` removes `a`. */
  lemma {:induction false} UnlinkHardLink(root: nat, file: nat)
    requires root != 0 && file != 0 && file != root
    ensures var links := [Link([46], root, 2), Link([46, 46], root, 2), Link([97], file, 1), Link([98], file, 1)];
            && Unique(links) && Find(links, [98]) == file && IsFirst(links, 2, file)
            && Find(Removed(links, 2), [97]) == 0 && Find(Removed(links, 2), [98]) == file
  {
    var links := [Link([46], root, 2), Link([46, 46], root, 2), Link([97], file, 1), Link([98], file, 1)];
    assert links[0].name[0] == 46 && |links[1].name| == 2 && links[2].name[0] == 97 && links[3].name[0] == 98;
    UnlinkSecondName(links, 2, 3);
  }

  // ----- a directory -----

  /** The names of all blocks, in order. */
  ghost function Listing(views: seq<seq<Dirent>>): seq<Link> {
    if views == [] then [] else Live(views[0]) + Listing(views[1..])
  }

  lemma {:induction false} ListingConcat(a: seq<seq<Dirent>>, b: seq<seq<Dirent>>)
    ensures Listing(a + b) == Listing(a) + Listing(b)
  {
    if a == [] {
      assert a + b == b;
    } else {
      ListingConcat(a[1..], b);
      assert (a + b)[1..] == a[1..] + b && (a + b)[0] == a[0];
      Assoc(Live(a[0]), Listing(a[1..]), Listing(b));
    }
  }

  lemma {:induction false} ListingSingle(vs: seq<Dirent>)
    ensures Listing([vs]) == Live(vs)
  {
    var views := [vs];
    assert views[1..] == [];
  }

  lemma {:induction false} ListingAt(views: seq<seq<Dirent>>, i: nat)
    requires i < |views|
    ensures Listing(views) == Listing(views[..i]) + Live(views[i]) + Listing(views[i + 1..])
  {
    assert views == views[..i] + views[i..];
    ListingConcat(views[..i], views[i..]);
    assert views[i..][0] == views[i] && views[i..][1..] == views[i + 1..];
    Assoc(Listing(views[..i]), Live(views[i]), Listing(views[i + 1..]));
  }

  lemma {:induction false} ListingNoZero(views: seq<seq<Dirent>>)
    ensures NoZero(Listing(views))
  {
    if views != [] {
      LiveNoZero(views[0]);
      ListingNoZero(views[1..]);
    }
  }

  /** Changing block `i`. */
  lemma {:induction false} ListingPut(views: seq<seq<Dirent>>, i: nat, vs: seq<Dirent>)
    requires i < |views|
    ensures Listing(views[i := vs]) == Listing(views[..i]) + Live(vs) + Listing(views[i + 1..])
  {
    ListingAt(views[i := vs], i);
    assert views[i := vs][..i] == views[..i] && views[i := vs][i + 1..] == views[i + 1..];
  }

  lemma {:induction false} InsertInBlock(views: seq<seq<Dirent>>, i: nat, vs: seq<Dirent>, p: nat, link: Link)
    requires i < |views| && p <= |Live(views[i])| && Live(vs) == Inserted(Live(views[i]), p, link)
    ensures var at := |Listing(views[..i])| + p; at <= |Listing(views)| && Listing(views[i := vs]) == Inserted(Listing(views), at, link)
  {
    ListingAt(views, i);
    ListingPut(views, i, vs);
    InsertMid(Listing(views), Listing(views[..i]), Live(views[i]), Listing(views[i + 1..]), p, link, Listing(views[i := vs]));
  }

  lemma {:induction false} InsertMid(whole: seq<Link>, a: seq<Link>, l: seq<Link>, c: seq<Link>, p: nat, link: Link, out: seq<Link>)
    requires p <= |l| && whole == a + l + c && out == a + Inserted(l, p, link) + c
    ensures |a| + p <= |whole| && out == Inserted(whole, |a| + p, link)
  {
    assert whole[..|a| + p] == a + l[..p] && whole[|a| + p..] == l[p..] + c;
  }

  lemma {:induction false} RemoveInBlock(views: seq<seq<Dirent>>, i: nat, vs: seq<Dirent>, q: nat, ino: nat)
    requires i < |views| && NotIn(Listing(views[..i]), ino) && IsFirst(Live(views[i]), q, ino) && Live(vs) == Removed(Live(views[i]), q)
    ensures var at := |Listing(views[..i])| + q; IsFirst(Listing(views), at, ino) && Listing(views[i := vs]) == Removed(Listing(views), at)
  {
    ListingAt(views, i);
    ListingPut(views, i, vs);
    RemoveMid(Listing(views), Listing(views[..i]), Live(views[i]), Listing(views[i + 1..]), q, ino, Listing(views[i := vs]));
  }

  lemma {:induction false} RemoveMid(whole: seq<Link>, a: seq<Link>, l: seq<Link>, c: seq<Link>, q: nat, ino: nat, out: seq<Link>)
    requires IsFirst(l, q, ino) && NotIn(a, ino) && whole == a + l + c && out == a + Removed(l, q) + c
    ensures IsFirst(whole, |a| + q, ino) && out == Removed(whole, |a| + q)
  {
    assert whole[..|a| + q] == a + l[..q] && whole[|a| + q + 1..] == l[q + 1..] + c;
    assert whole[|a| + q] == l[q];
    forall i | 0 <= i < |a| + q ensures whole[i].ino != ino { assert whole[i] == if i < |a| then a[i] else l[i - |a|]; }
  }

  lemma {:induction false} TwoEntries(b: seq<Byte>, v: Dirent, w: Dirent)
    requires |b| == 1024 && EntryIs(b, 0, v) && EntryIs(b, 12, w) && v.rec == 12 && w.rec == 1012 && |v.name| <= 4 && v.ino != 0 && w.ino != 0
    ensures Tiled(b, [v, w]) && Listing([[v, w]]) == [Link(v.name, v.ino, v.kind), Link(w.name, w.ino, w.kind)]
  {
    var vs := [v, w];
    assert Off(vs, 1) == Off(vs, 0) + vs[0].rec == 12;
    assert Off(vs, 2) == Off(vs, 1) + vs[1].rec == 1024;
    assert vs[1..] == [w];
    LiveSingle(w);
    ListingSingle(vs);
  }

  lemma {:induction false} OneEntry(b: seq<Byte>, v: Dirent)
    requires |b| == 1024 && EntryIs(b, 0, v) && v.rec == 1024
    ensures Tiled(b, [v])
  {
    assert Off([v], 1) == 1024;
  }

  lemma {:induction false} AppendOne(views: seq<seq<Dirent>>, v: Dirent)
    requires v.ino != 0
    ensures Listing(views + [[v]]) == Inserted(Listing(views), |Listing(views)|, Link(v.name, v.ino, v.kind))
  {
    ListingConcat(views, [[v]]);
    LiveSingle(v);
    ListingSingle([v]);
  }

  lemma {:induction false} ListingNext(views: seq<seq<Dirent>>, l: nat)
    requires l < |views|
    ensures Listing(views[..l + 1]) == Listing(views[..l]) + Live(views[l])
  {
    assert views[..l + 1] == views[..l] + [views[l]];
    ListingConcat(views[..l], [views[l]]);
    ListingSingle(views[l]);
  }

  lemma {:induction false} FindBlock(views: seq<seq<Dirent>>, l: nat, name: seq<Byte>)
    requires l < |views| && Find(Listing(views[..l]), name) == 0
    ensures Find(Listing(views[..l + 1]), name) == Find(Live(views[l]), name)
    ensures Find(Live(views[l]), name) != 0 ==> Find(Listing(views), name) == Find(Live(views[l]), name)
  {
    ListingNext(views, l);
    ListingNoZero(views[..l]);
    FindConcat(Listing(views[..l]), Live(views[l]), name);
    ListingNoZero(views[..l + 1]);
    assert views == views[..l + 1] + views[l + 1..];
    ListingConcat(views[..l + 1], views[l + 1..]);
    FindConcat(Listing(views[..l + 1]), Listing(views[l + 1..]), name);
  }

  lemma {:induction false} ListingNotIn(views: seq<seq<Dirent>>, ino: nat)
    requires forall i :: 0 <= i < |views| ==> NotIn(Live(views[i]), ino)
    ensures NotIn(Listing(views), ino)
  {
    if views != [] { ListingNotIn(views[1..], ino); }
  }

  /** A number that lookup returns is in the listing. */
  lemma {:induction false} Absent(links: seq<Link>, name: seq<Byte>, ino: nat)
    requires Find(links, name) == ino != 0
    ensures !NotIn(links, ino)
  {
    if links[0].name != name {
      Absent(links[1..], name, ino);
      var i :| 0 <= i < |links[1..]| && links[1..][i].ino == ino;
      assert links[i + 1].ino == ino;
    }
  }
}
