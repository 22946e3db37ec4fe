/** How many frames copying an address space takes. */
module FrameBudget {
  import opened PageTables
  import opened Subtrees

  /** The tables of one address space, the root table included. */
  ghost function TablesOf(s: Shape, root: nat): (r: set<Path>)
    ensures forall p :: p in r <==> Node(root, p) in s.nodes && Depth(p) < 4
  {
    set n | n in s.nodes && n.root == root && Depth(n.path) < 4 :: n.path
  }

  /** The free frames, as the reference counts determine them. */
  ghost predicate Uncounted(free: set<nat>, managed: set<nat>, base: nat, counts: map<nat, nat>) {
    forall i :: i in free <==> i in managed && base + i !in counts
  }

  lemma SameUncounted(free: set<nat>, free': set<nat>, managed: set<nat>, base: nat, counts: map<nat, nat>)
    requires Uncounted(free, managed, base, counts) && Uncounted(free', managed, base, counts)
    ensures free == free'
  {
  }

  ghost predicate Managed(managed: set<nat>, base: nat, counts: map<nat, nat>) {
    forall f :: f in counts ==> f >= base && f - base in managed
  }

  lemma {:induction false} SameSize<T>(a: set<T>, b: set<nat>, f: map<T, nat>)
    requires a <= f.Keys
    requires forall p, q :: p in a && q in a && f[p] == f[q] ==> p == q
    requires forall p :: p in a ==> f[p] in b
    requires forall x :: x in b ==> exists p :: p in a && f[p] == x
    ensures |a| == |b|
  {
    if a == {} {
      assert b == {};
    } else {
      var p :| p in a;
      forall x | x in b - {f[p]} ensures exists q :: q in a - {p} && f[q] == x {
        var q :| q in a && f[q] == x;
        assert q in a - {p};
      }
      SameSize(a - {p}, b - {f[p]}, f);
    }
  }

  lemma {:induction false} SmallerSize<T>(a: set<T>, b: set<T>)
    requires a <= b
    ensures |a| <= |b|
    ensures a != b ==> |a| < |b|
  {
    if a != {} {
      var p :| p in a;
      assert a == (a - {p}) + {p} && b == (b - {p}) + {p};
      SmallerSize(a - {p}, b - {p});
    } else if b != {} {
      var p :| p in b;
      assert |b| == |b - {p}| + 1;
    }
  }

  /** `s'` is `s` plus the space `dst`, whose pages are shared with `s`. */
  ghost predicate PlusSpace(s: Shape, counts: map<nat, nat>, s': Shape, dst: nat) {
    && s'.held == s.held && s'.others == s.others
    && (forall n :: n in s.nodes ==> n.root != dst && n in s'.nodes && s'.nodes[n] == s.nodes[n])
    && (forall n :: n in s'.nodes && n !in s.nodes ==> n.root == dst && (Depth(n.path) == 4 ==> s'.nodes[n] in counts))
  }

  /** The frame of a new table was free. */
  lemma NewTableFrame(s: Shape, mem: Memory, counts: map<nat, nat>, s': Shape, mem': Memory, counts': map<nat, nat>, dst: nat, p: Path)
    requires Consistent(s, mem, counts) && Consistent(s', mem', counts') && PlusSpace(s, counts, s', dst) && p in TablesOf(s', dst)
    ensures s'.nodes[Node(dst, p)] in counts' && s'.nodes[Node(dst, p)] !in counts
  {
    var n := Node(dst, p);
    var f := s'.nodes[n];
    assert FrameOk(s', counts', f) && n in Users(s'.nodes, f);
    assert FrameOk(s, counts, f);
    forall m | m in s.nodes ensures s.nodes[m] != f { assert PairOk(s', mem', n, m); }
    assert Users(s.nodes, f) == {};
  }

  /** A frame newly in use holds a table of the new space. */
  lemma NewFrameTable(s: Shape, mem: Memory, counts: map<nat, nat>, s': Shape, mem': Memory, counts': map<nat, nat>, dst: nat, f: nat)
    requires Consistent(s, mem, counts) && Consistent(s', mem', counts') && PlusSpace(s, counts, s', dst)
    ensures f in counts ==> f in counts'
    ensures f in counts' && f !in counts ==> exists p :: p in TablesOf(s', dst) && s'.nodes[Node(dst, p)] == f
  {
    assert FrameOk(s, counts, f) && FrameOk(s', counts', f);
    if f in counts && f !in s.others && f !in s.held {
      var m :| m in Users(s.nodes, f);
      assert m in Users(s'.nodes, f);
    }
    if f in counts' && f !in counts {
      var n :| n in Users(s'.nodes, f);
      assert n in s.nodes ==> n in Users(s.nodes, f);
      assert NodeOk(s', mem', n);
      assert n == Node(dst, n.path) && n.path in TablesOf(s', dst);
    }
  }

  /** Adding the space took one frame for each of its tables. */
  lemma FramesTaken(s: Shape, mem: Memory, counts: map<nat, nat>, free: set<nat>,
                    s': Shape, mem': Memory, counts': map<nat, nat>, free': set<nat>,
                    dst: nat, base: nat, managed: set<nat>)
    requires Consistent(s, mem, counts) && Consistent(s', mem', counts') && PlusSpace(s, counts, s', dst)
    requires Uncounted(free, managed, base, counts) && Uncounted(free', managed, base, counts') && Managed(managed, base, counts')
    ensures |free| == |free'| + |TablesOf(s', dst)|
  {
    forall x | x in free' ensures x in free { NewFrameTable(s, mem, counts, s', mem', counts', dst, base + x); }
    assert free == free' + (free - free');
    var taken := set f | f in counts' && f !in counts;
    forall i: nat ensures Numbered(free - free', taken, base, i) { }
    NumbersTaken(free - free', taken, base);
    TakenFrames(s, mem, counts, s', mem', counts', dst, taken);
  }

  /** Number `i` of the bitmap stands for frame `base + i`. */
  ghost predicate Numbered(a: set<nat>, b: set<nat>, base: nat, i: nat) {
    i in a <==> base + i in b
  }

  lemma NumbersTaken(a: set<nat>, b: set<nat>, base: nat)
    requires (forall i: nat {:trigger Numbered(a, b, base, i)} :: Numbered(a, b, base, i)) && forall f :: f in b ==> f >= base
    ensures |a| == |b|
  {
    var frame := map i | i in a :: base + i;
    forall i | i in a ensures frame[i] in b { assert Numbered(a, b, base, i); }
    forall f | f in b ensures exists i :: i in a && frame[i] == f {
      assert Numbered(a, b, base, f - base);
      assert frame[f - base] == f;
    }
    SameSize(a, b, frame);
  }

  /** The frames newly in use are those of the new tables, one each. */
  lemma TakenFrames(s: Shape, mem: Memory, counts: map<nat, nat>, s': Shape, mem': Memory, counts': map<nat, nat>, dst: nat, taken: set<nat>)
    requires Consistent(s, mem, counts) && Consistent(s', mem', counts') && PlusSpace(s, counts, s', dst)
    requires taken == set f | f in counts' && f !in counts
    ensures |taken| == |TablesOf(s', dst)|
  {
    var tables := TablesOf(s', dst);
    var frame := map p | p in tables :: s'.nodes[Node(dst, p)];
    forall p | p in tables ensures frame[p] in taken { NewTableFrame(s, mem, counts, s', mem', counts', dst, p); }
    forall p, q | p in tables && q in tables && frame[p] == frame[q] ensures p == q {
      assert PairOk(s', mem', Node(dst, p), Node(dst, q));
    }
    forall f | f in taken ensures exists p :: p in tables && frame[p] == f {
      NewFrameTable(s, mem, counts, s', mem', counts', dst, f);
      var p :| p in tables && s'.nodes[Node(dst, p)] == f;
      assert frame[p] == f;
    }
    SameSize(tables, taken, frame);
  }

  /** The frames that no other space uses. */
  ghost function OnlyOf(s: Shape, root: nat): set<nat> {
    set n | n in s.nodes && n.root == root && !SharedOut(s, root, s.nodes[n]) :: s.nodes[n]
  }

  ghost predicate SharedOut(s: Shape, root: nat, f: nat) {
    exists m :: m in s.nodes && s.nodes[m] == f && m.root != root
  }

  /** `s'` is `s` without the space `root`. */
  ghost predicate MinusSpace(s: Shape, s': Shape, root: nat) {
    && s' == s.(nodes := s'.nodes)
    && (forall n :: n in s'.nodes <==> n in s.nodes && n.root != root)
    && (forall n :: n in s'.nodes ==> s'.nodes[n] == s.nodes[n])
  }

  lemma FrameDropped(s: Shape, counts: map<nat, nat>, s': Shape, counts': map<nat, nat>, root: nat, f: nat)
    requires FramesOk(s, counts) && FramesOk(s', counts') && MinusSpace(s, s', root)
    ensures f in counts' ==> f in counts
    ensures f in OnlyOf(s, root) <==> f in counts && f !in counts'
  {
    assert FrameOk(s, counts, f) && FrameOk(s', counts', f);
    if f in counts' && f !in s.others && f !in s.held {
      var n :| n in Users(s'.nodes, f);
      assert n in Users(s.nodes, f);
    }
    if SharedOut(s, root, f) {
      var m :| m in s.nodes && s.nodes[m] == f && m.root != root;
      assert m in Users(s'.nodes, f);
    }
    if f in counts && f !in counts' {
      var n :| n in Users(s.nodes, f);
      assert n.root != root ==> n in Users(s'.nodes, f);
    }
    if f in OnlyOf(s, root) {
      var n :| n in s.nodes && n.root == root && !SharedOut(s, root, s.nodes[n]) && s.nodes[n] == f;
      assert n in Users(s.nodes, f);
      assert Users(s'.nodes, f) == {};
    }
  }

  /** Dropping a space frees exactly the frames that no other space uses. */
  lemma FramesFreed(s: Shape, mem: Memory, counts: map<nat, nat>, free: set<nat>,
                    s': Shape, mem': Memory, counts': map<nat, nat>, free': set<nat>, root: nat, base: nat, managed: set<nat>)
    requires Consistent(s, mem, counts) && Consistent(s', mem', counts') && MinusSpace(s, s', root)
    requires Uncounted(free, managed, base, counts) && Uncounted(free', managed, base, counts') && Managed(managed, base, counts)
    ensures |free'| == |free| + |OnlyOf(s, root)|
  {
    var only := OnlyOf(s, root);
    forall i: nat ensures Numbered(free' - free, only, base, i) { NumberFreed(s, counts, free, s', counts', free', root, base, managed, i); }
    forall f | f in only ensures f >= base { FrameDropped(s, counts, s', counts', root, f); }
    NumbersTaken(free' - free, only, base);
    forall i | i in free ensures i in free' { NumberFreed(s, counts, free, s', counts', free', root, base, managed, i); }
    assert free' == free + (free' - free);
  }

  lemma NumberFreed(s: Shape, counts: map<nat, nat>, free: set<nat>, s': Shape, counts': map<nat, nat>, free': set<nat>,
                    root: nat, base: nat, managed: set<nat>, i: nat)
    requires FramesOk(s, counts) && FramesOk(s', counts') && MinusSpace(s, s', root)
    requires Uncounted(free, managed, base, counts) && Uncounted(free', managed, base, counts') && Managed(managed, base, counts)
    ensures Numbered(free' - free, OnlyOf(s, root), base, i) && (i in free ==> i in free')
  {
    FrameDropped(s, counts, s', counts', root, base + i);
  }

  /** A copy, complete or not, is a space added with shared pages. */
  lemma CopyPlusSpace(s: Shape, mem: Memory, counts: map<nat, nat>, s1: Shape, s2: Shape, src: nat, dst: nat)
    requires Consistent(s, mem, counts) && s1 == s.(nodes := s.nodes[Node(dst, Top) := dst]) && Node(src, Top) in s.nodes
    requires (forall n :: n in s.nodes ==> n.root != dst) && Copied(s1, s2, Node(dst, Top), Node(src, Top), 256)
    ensures PlusSpace(s, counts, s2, dst)
    ensures TablesOf(s2, dst) <= TablesOf(s2, src) == TablesOf(s, src)
  {
    forall n | n in s2.nodes && n !in s.nodes
      ensures n.root == dst && (Depth(n.path) == 4 ==> s2.nodes[n] in counts)
      ensures n != Node(dst, Top) ==> Node(src, n.path) in s.nodes
    {
      if n != Node(dst, Top) {
        assert IsCopy(s1, s2, Node(dst, Top), Node(src, Top), n);
        var m := Node(src, n.path);
        assert FrameOk(s, counts, s.nodes[m]) && m in Users(s.nodes, s.nodes[m]);
      }
    }
    assert TablesOf(s2, src) == TablesOf(s, src);
    forall p | p in TablesOf(s2, dst) ensures p in TablesOf(s, src) {
      assert Node(dst, p) !in s.nodes;
    }
  }
}
