/** How many frames an address space with given pages takes: one for each page and one for each table above it. */
module TreeSize {
  import opened PageTables
  import opened FrameBudget
  import opened Vmm

  /** The tables and pages of one address space. */
  ghost function NodesOf(s: Shape, root: nat): (r: set<Path>)
    ensures forall p :: p in r <==> Node(root, p) in s.nodes
  {
    set n | n in s.nodes && n.root == root :: n.path
  }

  /** A path and everything above it. */
  ghost function Trail(p: Path): set<Path> {
    if p.Top? then {Top} else Trail(p.up) + {p}
  }

  /** One of the pages, or above one. */
  ghost predicate Above(x: Path, pages: set<Path>) {
    exists p :: p in pages && x in Trail(p)
  }

  /** The smallest page-table tree with these pages. */
  ghost function Tree(pages: set<Path>): (t: set<Path>)
    ensures forall x {:trigger Above(x, pages)} :: x in t <==> Above(x, pages)
  {
    set p, x | p in pages && x in Trail(p) :: x
  }

  /** The space has nothing but these pages and tables above them. */
  ghost predicate Lean(s: Shape, root: nat, pages: set<Path>) {
    forall x {:trigger Above(x, pages)} :: Node(root, x) in s.nodes ==> Above(x, pages)
  }

  lemma TrailOf(virt: nat)
    ensures var t := TablePath(virt); Trail(PagePath(virt)) == {PagePath(virt), t, t.up, t.up.up, Top}
    ensures Depth(TablePath(virt).up) == 2 && Depth(TablePath(virt).up.up) == 1
  {
    var t := TablePath(virt);
    PathDepth(virt);
    assert Trail(t.up.up) == {Top, t.up.up};
    assert Trail(t.up) == {Top, t.up.up, t.up};
    assert Trail(t) == {Top, t.up.up, t.up, t};
  }

  /** What mapping `virt` has to add. */
  ghost function Added(s: Shape, root: nat, virt: nat): set<Path> {
    Trail(PagePath(virt)) - NodesOf(s, root)
  }

  lemma AddedSize(s: Shape, root: nat, virt: nat)
    requires Node(root, Top) in s.nodes && Leaf(root, virt) !in s.nodes
    ensures |Added(s, root, virt)| == 1 + Missing(s, root, virt)
  {
    var t, have := TablePath(virt), NodesOf(s, root);
    TrailCount(have, PagePath(virt));
    assert NewOn(have, t.up.up) == if t.up.up in have then 0 else 1;
    assert NewOn(have, t) == Missing(s, root, virt);
  }

  /** How much of a trail is not there yet. */
  ghost function NewOn(have: set<Path>, p: Path): nat {
    (if p.Top? then 0 else NewOn(have, p.up)) + if p in have then 0 else 1
  }

  lemma {:induction false} TrailCount(have: set<Path>, p: Path)
    ensures |Trail(p) - have| == NewOn(have, p)
  {
    if p.Top? {
      assert {Top} - have == if Top in have then {} else {Top};
    } else {
      TrailCount(have, p.up);
      if p in Trail(p.up) { TrailShort(p.up, p); }
      OneNew(have, Trail(p.up), p);
    }
  }

  lemma {:induction false} TrailShort(p: Path, x: Path)
    requires x in Trail(p)
    ensures Depth(x) <= Depth(p)
  {
    if p.Down? && x != p { TrailShort(p.up, x); }
  }

  lemma OneNew(have: set<Path>, rest: set<Path>, x: Path)
    requires x !in rest
    ensures |rest + {x} - have| == |rest - have| + if x in have then 0 else 1
  {
    assert rest + {x} - have == if x in have then rest - have else rest - have + {x};
  }

  /** A wanted page that is not there yet fits into what the wanted pages take in all. */
  lemma Room(s: Shape, root: nat, virt: nat, wanted: set<Path>)
    requires Node(root, Top) in s.nodes && Leaf(root, virt) !in s.nodes && PagePath(virt) in wanted && Lean(s, root, wanted)
    ensures |NodesOf(s, root)| + 1 + Missing(s, root, virt) <= |Tree(wanted)|
  {
    AddedSize(s, root, virt);
    var have, more := NodesOf(s, root), Added(s, root, virt);
    assert |have + more| == |have| + |more|;
    forall x | x in have + more ensures x in Tree(wanted) { assert Above(x, wanted); }
    SmallerSize(have + more, Tree(wanted));
  }

  lemma {:induction false} TrailThere(s: Shape, mem: Memory, root: nat, p: Path)
    requires NodesOk(s, mem) && Node(root, p) in s.nodes
    ensures Trail(p) <= NodesOf(s, root)
  {
    if p.Down? {
      assert NodeOk(s, mem, Node(root, p));
      TrailThere(s, mem, root, p.up);
    }
  }

  /** Mapping the page added exactly what was missing. */
  lemma Grew(s: Shape, root: nat, virt: nat, s': Shape, mem': Memory, wanted: set<Path>)
    requires NodesOk(s', mem') && Grown(s, s') && AddedOn(s, s', root, virt) && Node(root, Top) in s.nodes
    requires Leaf(root, virt) !in s.nodes && Leaf(root, virt) in s'.nodes && PagePath(virt) in wanted && Lean(s, root, wanted)
    ensures Lean(s', root, wanted) && |NodesOf(s', root)| == |NodesOf(s, root)| + 1 + Missing(s, root, virt)
  {
    AddedSize(s, root, virt);
    TrailOf(virt);
    TrailThere(s', mem', root, PagePath(virt));
    var have, more := NodesOf(s, root), Added(s, root, virt);
    forall p ensures p in NodesOf(s', root) <==> p in have + more {
      if Node(root, p) in s'.nodes && Node(root, p) !in s.nodes { assert OnWay(p, virt); }
    }
    assert NodesOf(s', root) == have + more && |have + more| == |have| + |more|;
    forall x | Node(root, x) in s'.nodes ensures Above(x, wanted) {
      assert x in have ==> Above(x, wanted);
    }
  }

  /** With all wanted pages there, the space takes as many frames as their tree. */
  lemma AllThere(s: Shape, mem: Memory, root: nat, wanted: set<Path>)
    requires NodesOk(s, mem) && Lean(s, root, wanted) && forall p :: p in wanted ==> Node(root, p) in s.nodes
    ensures |NodesOf(s, root)| == |Tree(wanted)|
  {
    forall x | x in Tree(wanted) ensures x in NodesOf(s, root) { TreeThere(s, mem, root, wanted, x); }
    SmallerSize(Tree(wanted), NodesOf(s, root));
    forall x | x in NodesOf(s, root) ensures x in Tree(wanted) { assert Above(x, wanted); }
    SmallerSize(NodesOf(s, root), Tree(wanted));
  }

  lemma TreeThere(s: Shape, mem: Memory, root: nat, wanted: set<Path>, x: Path)
    requires NodesOk(s, mem) && x in Tree(wanted) && forall p :: p in wanted ==> Node(root, p) in s.nodes
    ensures x in NodesOf(s, root)
  {
    var p :| p in wanted && x in Trail(p);
    TrailThere(s, mem, root, p);
  }

  /** Of `n` frames those not free any more are in the space, which has nothing but what is wanted. */
  ghost predicate OnBudget(s: Shape, root: nat, free: set<nat>, n: nat, wanted: set<Path>) {
    Lean(s, root, wanted) && |free| + |NodesOf(s, root)| == n
  }
}
