/** Subtrees of the page-table forest, and what it means for one to be a copy or to be gone. */
module Subtrees {
  import opened PageTables

  /** `p` is strictly below `top`. */
  ghost predicate Under(p: Path, top: Path) {
    p.Down? && (p.up == top || Under(p.up, top))
  }

  /** The index at `top` on the way down to `p`. */
  ghost function Toward(p: Path, top: Path): nat
    requires Under(p, top)
  {
    if p.up == top then p.idx else Toward(p.up, top)
  }

  lemma {:induction false} UnderDeeper(p: Path, top: Path)
    requires Under(p, top)
    ensures Depth(p) > Depth(top)
  {
    if p.up != top { UnderDeeper(p.up, top); }
  }

  lemma NotUnderSelf(p: Path)
    ensures !Under(p, p)
  {
    if Under(p, p) { UnderDeeper(p, p); }
  }

  lemma {:induction false} UnderTop(p: Path)
    requires p.Down?
    ensures Under(p, Top)
  {
    if p.up.Down? { UnderTop(p.up); }
  }

  lemma {:induction false} UnderKid(p: Path, top: Path, i: nat)
    ensures Under(p, Down(top, i)) ==> Under(p, top) && Toward(p, top) == i
    ensures Under(p, top) && Toward(p, top) == i ==> p == Down(top, i) || Under(p, Down(top, i))
  {
    if p.Down? {
      UnderKid(p.up, top, i);
      if Under(p, Down(top, i)) && p.up == top { UnderDeeper(top, top); }
    }
  }

  /** Nothing is below a node that is not there. */
  lemma {:induction false} NoneUnder(s: Shape, mem: Memory, n: Node, m: Node)
    requires NodesOk(s, mem) && n !in s.nodes && m.root == n.root && Under(m.path, n.path)
    ensures m !in s.nodes
    decreases m.path
  {
    if m in s.nodes {
      assert NodeOk(s, mem, m);
      if m.path.up != n.path { NoneUnder(s, mem, n, Up(m)); }
    }
  }

  lemma {:induction false} TowardInside(s: Shape, mem: Memory, t: Node, n: Node)
    requires NodesOk(s, mem) && n in s.nodes && n.root == t.root && Under(n.path, t.path)
    ensures Toward(n.path, t.path) < Width(t.path)
    decreases n.path
  {
    assert NodeOk(s, mem, n);
    if n.path.up != t.path { TowardInside(s, mem, t, Up(n)); }
  }

  // ----- copying -----

  /** `n` is new and corresponds to a node of the subtree at `t`; a page keeps the frame. */
  ghost predicate IsCopy(s: Shape, s': Shape, d: Node, t: Node, n: Node)
    requires n in s'.nodes
  {
    && n.root == d.root && Under(n.path, d.path)
    && Node(t.root, n.path) in s.nodes
    && (Depth(n.path) == 4 ==> s'.nodes[n] == s.nodes[Node(t.root, n.path)])
  }

  /** `s'` is `s` plus copies, below `d`, of nodes below the first `bound` entries of `t`. */
  ghost predicate Copied(s: Shape, s': Shape, d: Node, t: Node, bound: nat) {
    && (forall n :: n in s.nodes ==> n in s'.nodes && s'.nodes[n] == s.nodes[n])
    && (forall n {:trigger IsCopy(s, s', d, t, n)} :: n in s'.nodes && n !in s.nodes ==>
          IsCopy(s, s', d, t, n) && Toward(n.path, d.path) < bound)
    && s' == s.(nodes := s'.nodes)
  }

  /** Everything below the first `bound` entries of `t` has its copy. */
  ghost predicate Complete(s: Shape, s': Shape, d: Node, t: Node, bound: nat) {
    forall n :: n in s.nodes && n.root == t.root && Under(n.path, t.path) && Toward(n.path, t.path) < bound ==>
      Node(d.root, n.path) in s'.nodes
  }

  /** One entry of copy_pd, copy_pdpt or vmm_copy_userspace. */
  lemma CopiedEntry(s: Shape, a: Shape, b: Shape, c: Shape, d: Node, t: Node, i: nat, f: nat)
    requires Copied(s, a, d, t, i) && d.path == t.path && d.root != t.root
    requires Kid(t, i) in s.nodes && Kid(d, i) !in a.nodes && Depth(d.path) < 3
    requires b == a.(nodes := a.nodes[Kid(d, i) := f], building := a.building + {Kid(d, i)})
    requires Copied(b, c, Kid(d, i), Kid(t, i), 512) && Kid(d, i) !in a.building
    ensures Copied(s, c.(building := c.building - {Kid(d, i)}), d, t, i + 1)
  {
    var e := c.(building := c.building - {Kid(d, i)});
    forall n | n in e.nodes && n !in s.nodes ensures IsCopy(s, e, d, t, n) && Toward(n.path, d.path) < i + 1 {
      UnderKid(n.path, d.path, i);
      if n in a.nodes {
        assert IsCopy(s, a, d, t, n);
      } else if n != Kid(d, i) {
        assert IsCopy(b, c, Kid(d, i), Kid(t, i), n);
        CopySource(s, a, d, t, i, Node(t.root, n.path));
      }
    }
    assert e == s.(nodes := e.nodes);
  }

  /** Nodes elsewhere were there from the start. */
  lemma CopySource(s: Shape, a: Shape, d: Node, t: Node, i: nat, n: Node)
    requires Copied(s, a, d, t, i)
    requires n.root != d.root || (Under(n.path, d.path) && Toward(n.path, d.path) >= i)
    ensures n in a.nodes ==> n in s.nodes && a.nodes[n] == s.nodes[n]
  {
    assert n in a.nodes && n !in s.nodes ==> IsCopy(s, a, d, t, n);
  }

  lemma CompleteEntry(s: Shape, a: Shape, b: Shape, c: Shape, d: Node, t: Node, i: nat, f: nat)
    requires Copied(s, a, d, t, i) && Complete(s, a, d, t, i) && d.path == t.path
    requires b.nodes == a.nodes[Kid(d, i) := f]
    requires Copied(b, c, Kid(d, i), Kid(t, i), 512) && Complete(b, c, Kid(d, i), Kid(t, i), 512)
    requires forall n :: n in s.nodes && n.root == t.root && Under(n.path, Kid(t, i).path) ==> Toward(n.path, Kid(t, i).path) < 512
    ensures Complete(s, c, d, t, i + 1)
  {
    forall n | n in s.nodes && n.root == t.root && Under(n.path, t.path) && Toward(n.path, t.path) < i + 1
      ensures Node(d.root, n.path) in c.nodes
    {
      UnderKid(n.path, t.path, i);
      if Toward(n.path, t.path) == i && n.path != Down(t.path, i) {
        assert n in b.nodes;
      }
    }
  }

  /** One entry of copy_pt. */
  lemma CopiedLeaf(s: Shape, a: Shape, d: Node, t: Node, i: nat)
    requires Copied(s, a, d, t, i) && Complete(s, a, d, t, i) && d.path == t.path && d.root != t.root && Depth(t.path) == 3
    requires forall n :: n in s.nodes ==> Depth(n.path) <= 4
    requires Kid(t, i) in a.nodes ==> Kid(d, i) !in a.nodes
    ensures var b := if Kid(t, i) in a.nodes then a.(nodes := a.nodes[Kid(d, i) := a.nodes[Kid(t, i)]]) else a;
            Copied(s, b, d, t, i + 1) && Complete(s, b, d, t, i + 1)
  {
    var b := if Kid(t, i) in a.nodes then a.(nodes := a.nodes[Kid(d, i) := a.nodes[Kid(t, i)]]) else a;
    CopySource(s, a, d, t, i, Kid(t, i));
    forall n | n in b.nodes && n !in s.nodes ensures IsCopy(s, b, d, t, n) && Toward(n.path, d.path) < i + 1 {
      if n in a.nodes { assert IsCopy(s, a, d, t, n); }
    }
    forall n | n in s.nodes && n.root == t.root && Under(n.path, t.path) && Toward(n.path, t.path) < i + 1
      ensures Node(d.root, n.path) in b.nodes
    {
      if n.path.up != t.path { UnderDeeper(n.path.up, t.path); }
    }
  }

  lemma CopiedMore(s: Shape, a: Shape, d: Node, t: Node, i: nat, j: nat)
    requires Copied(s, a, d, t, i) && i <= j
    ensures Copied(s, a, d, t, j)
  {
    forall n | n in a.nodes && n !in s.nodes ensures IsCopy(s, a, d, t, n) && Toward(n.path, d.path) < j {
      assert IsCopy(s, a, d, t, n) && Toward(n.path, d.path) < i;
    }
  }

  lemma CopyRoots(s: Shape, a: Shape, d: Node, t: Node, i: nat)
    requires Copied(s, a, d, t, i)
    ensures Roots(a) == Roots(s)
  {
    forall n | n in a.nodes && n !in s.nodes ensures n.path.Down? { assert IsCopy(s, a, d, t, n); }
  }

  /** An absent entry has nothing to copy. */
  lemma NothingThere(s: Shape, a: Shape, mem: Memory, d: Node, t: Node, i: nat)
    requires NodesOk(a, mem) && Copied(s, a, d, t, i) && Complete(s, a, d, t, i) && Kid(t, i) !in a.nodes
    ensures Copied(s, a, d, t, i + 1) && Complete(s, a, d, t, i + 1)
  {
    CopiedMore(s, a, d, t, i, i + 1);
    forall n | n in s.nodes && n.root == t.root && Under(n.path, t.path) && Toward(n.path, t.path) < i + 1
      ensures Node(d.root, n.path) in a.nodes
    {
      UnderKid(n.path, t.path, i);
      if Toward(n.path, t.path) == i && n.path != Down(t.path, i) { NoneUnder(a, mem, Kid(t, i), n); }
    }
  }

  // ----- freeing -----

  /** `m` is below one of the first `bound` entries of `n`. */
  ghost predicate Below(m: Node, n: Node, bound: nat) {
    m.root == n.root && Under(m.path, n.path) && Toward(m.path, n.path) < bound
  }

  /** `s'` is `s` without what was below the first `bound` entries of `n`. */
  ghost predicate Pruned(s: Shape, s': Shape, n: Node, bound: nat) {
    && (forall m :: m in s'.nodes <==> m in s.nodes && !Below(m, n, bound))
    && (forall m :: m in s'.nodes ==> s'.nodes[m] == s.nodes[m])
    && s' == s.(nodes := s'.nodes, dying := s'.dying)
  }

  lemma PrunedEntry(s: Shape, a: Shape, b: Shape, c: Shape, n: Node, i: nat)
    requires Pruned(s, a, n, i) && Pruned(a, b, Kid(n, i), 512)
    requires c == b.(nodes := b.nodes - {Kid(n, i)}, dying := c.dying)
    requires forall m :: m in s.nodes && m.root == n.root && Under(m.path, Kid(n, i).path) ==> Toward(m.path, Kid(n, i).path) < 512
    ensures Pruned(s, c, n, i + 1)
  {
    forall m ensures m in c.nodes <==> m in s.nodes && !Below(m, n, i + 1) {
      UnderKid(m.path, n.path, i);
    }
  }

  /** An absent entry has nothing below it. */
  lemma PrunedNothing(s: Shape, mem: Memory, a: Shape, n: Node, i: nat)
    requires NodesOk(s, mem) && Pruned(s, a, n, i) && Kid(n, i) !in s.nodes
    ensures Pruned(s, a, n, i + 1)
  {
    forall m ensures m in a.nodes <==> m in s.nodes && !Below(m, n, i + 1) {
      UnderKid(m.path, n.path, i);
      if m.root == n.root && Under(m.path, Down(n.path, i)) { NoneUnder(s, mem, Kid(n, i), m); }
    }
  }

  lemma PrunedLeaf(s: Shape, a: Shape, b: Shape, n: Node, i: nat)
    requires Pruned(s, a, n, i) && Depth(n.path) == 3
    requires forall m :: m in s.nodes ==> Depth(m.path) <= 4
    requires b == a.(nodes := a.nodes - {Kid(n, i)}, dying := b.dying)
    ensures Pruned(s, b, n, i + 1)
  {
    forall m ensures m in b.nodes <==> m in s.nodes && !Below(m, n, i + 1) {
      if m in s.nodes && Under(m.path, n.path) && m.path.up != n.path { UnderDeeper(m.path.up, n.path); }
    }
  }

  lemma PrunedTwice(s: Shape, a: Shape, b: Shape, n: Node, i: nat)
    requires Pruned(s, a, n, i) && Pruned(a, b, n, i + 1)
    ensures Pruned(s, b, n, i + 1)
  {
  }
}
