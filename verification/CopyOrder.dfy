/** The order in which copy_pd, copy_pdpt and vmm_copy_userspace (kernel/mm/vmm.c) come to the tables they copy, and what is
    copied when the frames run out. */
module CopyOrder {
  import opened PageTables
  import opened Subtrees
  import opened FrameBudget

  /** How many pages one node at this depth covers. */
  ghost function Span(depth: nat): nat {
    match depth
    case 0 => 0x10_0000_0000
    case 1 => 0x800_0000
    case 2 => 0x4_0000
    case 3 => 0x200
    case _ => 1
  }

  /** The number of the first page that a node covers. */
  ghost function FirstPage(p: Path): nat {
    if p.Top? then 0 else FirstPage(p.up) + p.idx * Span(Depth(p))
  }

  /** In the order of addresses, a node before those below it. */
  ghost predicate Earlier(p: Path, q: Path) {
    FirstPage(p) < FirstPage(q) || (FirstPage(p) == FirstPage(q) && Depth(p) < Depth(q))
  }

  ghost predicate Proper(p: Path) {
    Depth(p) <= 4 && (p.Down? ==> p.idx < 512 && Proper(p.up))
  }

  lemma {:induction false} NodeProper(s: Shape, mem: Memory, n: Node)
    requires NodesOk(s, mem) && n in s.nodes
    ensures Proper(n.path)
    decreases n.path
  {
    assert NodeOk(s, mem, n);
    if n.path.Down? { NodeProper(s, mem, Up(n)); }
  }

  lemma SpanStep(depth: nat, i: nat)
    requires depth < 4 && i < 512
    ensures Span(depth) == 512 * Span(depth + 1) && i * Span(depth + 1) + Span(depth + 1) <= Span(depth)
  {
    match depth
    case 0 =>
    case 1 =>
    case 2 =>
    case 3 =>
  }

  /** What lies below entry `i` of `top` covers pages of that entry only. */
  lemma {:induction false} UnderRange(p: Path, top: Path)
    requires Under(p, top) && Proper(p)
    ensures var first := FirstPage(top) + Toward(p, top) * Span(Depth(top) + 1);
            && first <= FirstPage(p) && FirstPage(p) + Span(Depth(p)) <= first + Span(Depth(top) + 1)
            && Depth(top) < Depth(p)
    decreases p
  {
    if p.up != top {
      UnderRange(p.up, top);
      SpanStep(Depth(p.up), p.idx);
    }
  }

  lemma EntryOrder(i: nat, j: nat, span: nat)
    requires i < j
    ensures i * span + span <= j * span
  {
    assert (i + 1) * span <= j * span;
  }

  /** Nodes below different entries come in the order of the entries. */
  lemma EarlierEntry(p: Path, q: Path, top: Path)
    requires Under(p, top) && Under(q, top) && Proper(p) && Proper(q) && Toward(p, top) < Toward(q, top)
    ensures Earlier(p, q) && !Earlier(q, p)
  {
    UnderRange(p, top);
    UnderRange(q, top);
    EntryOrder(Toward(p, top), Toward(q, top), Span(Depth(top) + 1));
    SpanPositive(Depth(p));
  }

  lemma SpanPositive(depth: nat)
    ensures Span(depth) > 0
  {
  }

  /** A node comes before those below it. */
  lemma EarlierAbove(p: Path, top: Path)
    requires Under(p, top) && Proper(p)
    ensures Earlier(top, p) && !Earlier(p, top)
  {
    UnderRange(p, top);
    assert Toward(p, top) * Span(Depth(top) + 1) >= 0;
  }

  // ----- where a copy stops -----

  /** Of the nodes below `t` exactly those that come before the table `x` have a copy below `d`. */
  ghost predicate StopsAt(s: Shape, s': Shape, d: Node, t: Node, x: Path) {
    && Under(x, t.path) && Depth(x) < 4 && Node(t.root, x) in s.nodes
    && forall n :: n in s.nodes && n.root == t.root && Under(n.path, t.path) ==> (Node(d.root, n.path) in s'.nodes <==> Earlier(n.path, x))
  }

  ghost predicate Stuck(s: Shape, s': Shape, d: Node, t: Node) {
    exists x: Path :: StopsAt(s, s', d, t, x)
  }

  /** No frame for the table of entry `i`. */
  lemma StuckAt(s: Shape, mem: Memory, a: Shape, d: Node, t: Node, i: nat)
    requires NodesOk(a, mem) && d.path == t.path && d.root != t.root && Depth(t.path) < 3 && Kid(t, i) in s.nodes
    requires Copied(s, a, d, t, i) && Complete(s, a, d, t, i)
    requires forall n :: n in s.nodes && n.root == d.root ==> !Under(n.path, d.path)
    ensures Stuck(s, a, d, t)
  {
    var x := Kid(t, i).path;
    NodeProper(a, mem, Kid(t, i));
    forall n | n in s.nodes && n.root == t.root && Under(n.path, t.path)
      ensures Node(d.root, n.path) in a.nodes <==> Earlier(n.path, x)
    {
      NodeProper(a, mem, n);
      UnderKid(n.path, t.path, i);
      var k, c := Toward(n.path, t.path), Node(d.root, n.path);
      assert c in a.nodes ==> IsCopy(s, a, d, t, c);
      if k < i { EarlierEntry(n.path, x, t.path); }
      else if k > i { EarlierEntry(x, n.path, t.path); }
      else if n.path != x { EarlierAbove(n.path, x); }
    }
    assert StopsAt(s, a, d, t, x);
  }

  /** The table of entry `i` was started and could not be finished. */
  lemma StuckBelow(s: Shape, mem: Memory, a: Shape, b: Shape, c: Shape, e: Shape, d: Node, t: Node, i: nat, f: nat)
    requires NodesOk(e, mem) && d.path == t.path && d.root != t.root && Depth(t.path) < 3 && Kid(t, i) in s.nodes
    requires Copied(s, a, d, t, i) && Complete(s, a, d, t, i) && b.nodes == a.nodes[Kid(d, i) := f]
    requires Copied(b, c, Kid(d, i), Kid(t, i), 512) && Stuck(b, c, Kid(d, i), Kid(t, i)) && e.nodes == c.nodes && Copied(s, e, d, t, i + 1)
    requires forall n :: n in s.nodes && n.root == d.root ==> !Under(n.path, d.path)
    ensures Stuck(s, e, d, t)
  {
    var x: Path :| StopsAt(b, c, Kid(d, i), Kid(t, i), x);
    UnderKid(x, t.path, i);
    CopySource(s, a, d, t, i, Node(t.root, x));
    assert Node(t.root, x) in s.nodes;
    NodeProper(e, mem, Node(t.root, x));
    forall n | n in s.nodes && n.root == t.root && Under(n.path, t.path)
      ensures Node(d.root, n.path) in e.nodes <==> Earlier(n.path, x)
    {
      StuckOne(s, mem, a, b, c, e, d, t, i, x, n);
    }
    assert StopsAt(s, e, d, t, x);
  }

  lemma StuckOne(s: Shape, mem: Memory, a: Shape, b: Shape, c: Shape, e: Shape, d: Node, t: Node, i: nat, x: Path, n: Node)
    requires NodesOk(e, mem) && d.path == t.path && d.root != t.root && Kid(d, i) in b.nodes && Proper(x)
    requires Copied(s, a, d, t, i) && Complete(s, a, d, t, i) && (forall k :: k in a.nodes ==> k in b.nodes)
    requires Copied(b, c, Kid(d, i), Kid(t, i), 512) && StopsAt(b, c, Kid(d, i), Kid(t, i), x) && e.nodes == c.nodes && Copied(s, e, d, t, i + 1)
    requires Under(x, t.path) && Toward(x, t.path) == i
    requires forall k :: k in s.nodes && k.root == d.root ==> !Under(k.path, d.path)
    requires n in s.nodes && n.root == t.root && Under(n.path, t.path)
    ensures Node(d.root, n.path) in e.nodes <==> Earlier(n.path, x)
  {
    NodeProper(e, mem, n);
    UnderKid(n.path, t.path, i);
    var k, m := Toward(n.path, t.path), Node(d.root, n.path);
    assert m in e.nodes ==> IsCopy(s, e, d, t, m);
    if k < i {
      EarlierEntry(n.path, x, t.path);
    } else if k > i {
      EarlierEntry(x, n.path, t.path);
    } else if n.path == Kid(t, i).path {
      EarlierAbove(x, n.path);
    } else {
      assert n in b.nodes;
    }
  }

  // ----- how far the frames reach -----

  /** How many tables are copied up to and including `q`. */
  ghost function CopyRank(s: Shape, root: nat, q: Path): nat {
    |set p | p in TablesOf(s, root) && !Earlier(q, p)|
  }

  /** With tables copied up to `x`, the copied ones are those whose rank does not exceed their number. */
  lemma RankReached(s: Shape, root: nat, done: set<Path>, x: Path, q: Path)
    requires x in TablesOf(s, root) && q in TablesOf(s, root) && forall p :: p in done <==> p in TablesOf(s, root) && Earlier(p, x)
    ensures Earlier(q, x) <==> CopyRank(s, root, q) <= |done|
  {
    var upTo := set p | p in TablesOf(s, root) && !Earlier(q, p);
    if Earlier(q, x) {
      assert upTo <= done;
      SmallerSize(upTo, done);
    } else {
      assert done + {x} <= upTo && |done + {x}| == |done| + 1;
      SmallerSize(done + {x}, upTo);
    }
  }

  lemma RankBounds(s: Shape, root: nat, q: Path)
    requires q in TablesOf(s, root)
    ensures 1 <= CopyRank(s, root, q) <= |TablesOf(s, root)|
  {
    var upTo := set p | p in TablesOf(s, root) && !Earlier(q, p);
    assert q in upTo && upTo <= TablesOf(s, root);
    SmallerSize(upTo, TablesOf(s, root));
    SmallerSize({q}, upTo);
  }

  lemma {:induction false} Aligned(p: Path) returns (k: nat)
    requires Depth(p) <= 3
    ensures FirstPage(p) == 512 * k
  {
    if p.Top? {
      k := 0;
    } else {
      var up := Aligned(p.up);
      var i := Entries(Depth(p), p.idx);
      k := up + i;
    }
  }

  lemma Entries(depth: nat, i: nat) returns (k: nat)
    requires 1 <= depth <= 3
    ensures i * Span(depth) == 512 * k
  {
    match depth
    case 1 => k := 0x4_0000 * i;
    case 2 => k := 0x200 * i;
    case 3 => k := i;
  }

  /** The pages of a table are copied with it. */
  lemma PageWithTable(p: Path, x: Path)
    requires Proper(p) && Depth(p) == 4 && Depth(x) <= 3
    ensures Earlier(p, x) <==> Earlier(p.up, x)
  {
    var k := Aligned(p.up);
    var j := Aligned(x);
    assert FirstPage(p) == 512 * k + p.idx;
    BelowMultiple(k, j, p.idx);
  }

  lemma BelowMultiple(k: nat, j: nat, i: nat)
    requires i < 512
    ensures 512 * k + i < 512 * j <==> k < j
  {
  }
}
