/** The page-table forest behind kernel/mm/vmm.c, as values.

    `Shape` names every table and every mapped page by its root and its path of
    indices, and says which frame holds it.  `Consistent` ties a shape to the frame
    contents and to the reference counts; each lemma below shows that one elementary
    update of the C code keeps it. */
module PageTables {
  import opened Pmm

  /** A page-table entry; the flag bits the kernel reads or writes. */
  datatype Pte = Pte(present: bool, frame: nat, writable: bool, user: bool, cow: bool, nx: bool)

  const ABSENT: Pte := Pte(false, 0, false, false, false, false)

  datatype Frame = Table(ptes: seq<Pte>) | Data(bytes: seq<bv8>)

  /** Indices from the root table downwards. */
  datatype Path = Top | Down(up: Path, idx: nat)

  function Depth(p: Path): nat {
    if p.Top? then 0 else Depth(p.up) + 1
  }

  datatype Node = Node(root: nat, path: Path)

  function Up(n: Node): Node
    requires n.path.Down?
  {
    Node(n.root, n.path.up)
  }

  function Kid(n: Node, i: nat): Node {
    Node(n.root, Down(n.path, i))
  }

  /** Only the lower half of a root table belongs to the process. */
  function Width(p: Path): nat {
    if p.Top? then 256 else 512
  }

  /** `nodes`: where every table (depth 0-3) and mapped page (depth 4) is.  `building`: tables not yet
      entered in their parent.  `dying`: tables being torn down, whose entries may point at freed frames.
      `held`: pages allocated but not mapped.  `others`: frames handed to other parts of the kernel, with their counts. */
  datatype Shape = Shape(nodes: map<Node, nat>, building: set<Node>, dying: set<Node>, held: set<nat>, others: map<nat, nat>)

  type Memory = map<nat, Frame>

  ghost predicate IsTable(mem: Memory, f: nat) {
    f in mem && mem[f].Table? && |mem[f].ptes| == 512
  }

  ghost predicate IsData(mem: Memory, f: nat) {
    f in mem && mem[f].Data? && |mem[f].bytes| == 4096
  }

  ghost predicate PointsTo(mem: Memory, f: nat, i: nat, g: nat) {
    IsTable(mem, f) && i < 512 && mem[f].ptes[i].present && mem[f].ptes[i].frame == g
  }

  /** What holds of one table or page. */
  ghost predicate NodeOk(s: Shape, mem: Memory, n: Node)
    requires n in s.nodes
  {
    var f := s.nodes[n];
    && Depth(n.path) <= 4
    && (n.path.Top? ==> f == n.root)
    && (n.path.Down? ==> Up(n) in s.nodes && n.path.idx < Width(n.path.up))
    && (n.path.Down? && n !in s.building ==> PointsTo(mem, s.nodes[Up(n)], n.path.idx, f))
    && (n in s.building ==> 0 < Depth(n.path) < 4)
    && (Depth(n.path) == 4 ==> IsData(mem, f))
    && (Depth(n.path) < 4 ==> IsTable(mem, f))
    && (Depth(n.path) < 4 && n !in s.dying ==> EntriesOk(s, mem[f].ptes, n))
  }

  /** Every entry of a live table leads to a node of the shape. */
  ghost predicate EntriesOk(s: Shape, ptes: seq<Pte>, n: Node) {
    forall i :: 0 <= i < Width(n.path) && i < |ptes| && ptes[i].present ==> Kid(n, i) in s.nodes && Kid(n, i) !in s.building
  }

  /** The entry that maps a page. */
  ghost function LeafPte(s: Shape, mem: Memory, n: Node): Pte {
    if n.path.Down? && Up(n) in s.nodes && IsTable(mem, s.nodes[Up(n)]) && n.path.idx < 512
    then mem[s.nodes[Up(n)]].ptes[n.path.idx] else ABSENT
  }

  /** Two nodes share a frame only if both are pages at the same address, and then both are read-only and marked copy-on-write. */
  ghost predicate PairOk(s: Shape, mem: Memory, n: Node, m: Node) {
    n in s.nodes && m in s.nodes && n != m && s.nodes[n] == s.nodes[m] ==>
      n.path == m.path && Depth(n.path) == 4 && !LeafPte(s, mem, n).writable && LeafPte(s, mem, n).cow
  }

  ghost predicate SharingOk(s: Shape, mem: Memory) {
    forall n, m {:trigger PairOk(s, mem, n, m)} :: PairOk(s, mem, n, m)
  }

  ghost function Users(nodes: map<Node, nat>, f: nat): set<Node> {
    set n | n in nodes && nodes[n] == f
  }

  /** The reference count of a frame is exactly the number of its users. */
  ghost predicate FrameOk(s: Shape, counts: map<nat, nat>, f: nat) {
    if f in s.others then
      f in counts && counts[f] == s.others[f] && f !in s.held && Users(s.nodes, f) == {}
    else if f in s.held then
      f in counts && counts[f] == 1 && Users(s.nodes, f) == {}
    else
      && (f in counts <==> Users(s.nodes, f) != {})
      && (f in counts ==> counts[f] == |Users(s.nodes, f)|)
  }

  ghost predicate NodesOk(s: Shape, mem: Memory) {
    forall n {:trigger NodeOk(s, mem, n)} :: n in s.nodes ==> NodeOk(s, mem, n)
  }

  ghost predicate FramesOk(s: Shape, counts: map<nat, nat>) {
    forall f {:trigger FrameOk(s, counts, f)} :: FrameOk(s, counts, f)
  }

  ghost predicate HeldOk(s: Shape, mem: Memory) {
    forall f :: f in s.held ==> IsData(mem, f)
  }

  ghost predicate Consistent(s: Shape, mem: Memory, counts: map<nat, nat>) {
    && NodesOk(s, mem)
    && SharingOk(s, mem)
    && FramesOk(s, counts)
    && HeldOk(s, mem)
    && s.building <= s.nodes.Keys
  }

  // ----- Users -----

  lemma UsersAdd(nodes: map<Node, nat>, n: Node, f: nat, g: nat)
    requires n !in nodes
    ensures Users(nodes[n := f], g) == if g == f then Users(nodes, g) + {n} else Users(nodes, g)
  {
  }

  lemma UsersRemove(nodes: map<Node, nat>, n: Node, g: nat)
    requires n in nodes
    ensures Users(nodes - {n}, g) == if g == nodes[n] then Users(nodes, g) - {n} else Users(nodes, g)
  {
  }

  // ----- elementary updates -----

  ghost function SetPte(mem: Memory, f: nat, i: nat, p: Pte): Memory
    requires IsTable(mem, f) && i < 512
  {
    mem[f := Table(mem[f].ptes[i := p])]
  }

  /** A frame the allocator has just handed out belongs to no node. */
  lemma FreshFrame(s: Shape, mem: Memory, counts: map<nat, nat>, f: nat)
    requires Consistent(s, mem, counts) && f !in counts
    ensures f !in s.held && f !in s.others
    ensures forall m :: m in s.nodes ==> s.nodes[m] != f
  {
    assert FrameOk(s, counts, f);
    forall m | m in s.nodes ensures s.nodes[m] != f {
      assert m !in Users(s.nodes, f);
    }
  }

  /** `n` keeps its frame, does not become writable and stays copy-on-write. */
  ghost predicate Kept(s: Shape, mem: Memory, s': Shape, mem': Memory, n: Node) {
    && n in s.nodes && n in s'.nodes && s'.nodes[n] == s.nodes[n]
    && (Depth(n.path) == 4 && LeafPte(s', mem', n).writable ==> LeafPte(s, mem, n).writable)
    && (Depth(n.path) == 4 && LeafPte(s, mem, n).cow ==> LeafPte(s', mem', n).cow)
  }

  /** No other node uses the frame of `n`. */
  ghost predicate Alone(s: Shape, n: Node) {
    forall m :: n in s.nodes && m in s.nodes && s.nodes[m] == s.nodes[n] ==> m == n
  }

  lemma PairsKept(s: Shape, mem: Memory, s': Shape, mem': Memory, x: Node)
    requires SharingOk(s, mem)
    requires forall n {:trigger Kept(s, mem, s', mem', n)} :: n in s'.nodes && n != x ==> Kept(s, mem, s', mem', n)
    requires Alone(s', x)
    ensures SharingOk(s', mem')
  {
    forall n, m ensures PairOk(s', mem', n, m) {
      if n in s'.nodes && m in s'.nodes && n != m && s'.nodes[n] == s'.nodes[m] {
        assert Kept(s, mem, s', mem', n) && Kept(s, mem, s', mem', m);
        assert PairOk(s, mem, n, m);
      }
    }
  }

  lemma FramesAdd(s: Shape, counts: map<nat, nat>, n: Node, f: nat, s': Shape, counts': map<nat, nat>)
    requires FramesOk(s, counts) && n !in s.nodes
    requires s'.nodes == s.nodes[n := f] && s'.others == s.others && f !in s.others
    requires if f in s.held then s'.held == s.held - {f} && counts' == counts
             else s'.held == s.held && counts' == counts[f := if f in counts then counts[f] + 1 else 1]
    ensures FramesOk(s', counts')
  {
    forall g ensures FrameOk(s', counts', g) {
      assert FrameOk(s, counts, g);
      UsersAdd(s.nodes, n, f, g);
      if g == f {
        assert n !in Users(s.nodes, f) && n in Users(s'.nodes, f);
        assert |Users(s'.nodes, f)| == |Users(s.nodes, f)| + 1;
      }
    }
  }

  lemma FramesRemove(s: Shape, counts: map<nat, nat>, n: Node, s': Shape, counts': map<nat, nat>)
    requires FramesOk(s, counts) && n in s.nodes
    requires s'.nodes == s.nodes - {n} && s'.others == s.others && s'.held == s.held
    requires counts' == Drop(counts, s.nodes[n])
    ensures FramesOk(s', counts')
  {
    forall g ensures FrameOk(s', counts', g) {
      assert FrameOk(s, counts, g);
      UsersRemove(s.nodes, n, g);
      if g == s.nodes[n] {
        assert n in Users(s.nodes, g);
        assert |Users(s'.nodes, g)| == |Users(s.nodes, g)| - 1;
      }
    }
  }

  /** alloc_page_table: a zeroed table, not yet entered in its parent. */
  lemma NewTable(s: Shape, mem: Memory, counts: map<nat, nat>, n: Node, f: nat, s': Shape, mem': Memory)
    requires Consistent(s, mem, counts)
    requires f !in counts && n !in s.nodes && n.path.Down? && Depth(n.path) < 4
    requires Up(n) in s.nodes && n.path.idx < Width(n.path.up)
    requires s' == s.(nodes := s.nodes[n := f], building := s.building + {n}, dying := s.dying - {n})
    requires mem' == mem[f := Table(seq(512, _ => ABSENT))]
    ensures Consistent(s', mem', counts[f := 1])
  {
    FreshFrame(s, mem, counts, f);
    FramesAdd(s, counts, n, f, s', counts[f := 1]);
    forall m | m in s'.nodes ensures NodeOk(s', mem', m) {
      if m != n { assert NodeOk(s, mem, m); }
    }
    forall m | m in s'.nodes && m != n ensures Kept(s, mem, s', mem', m) {
      assert NodeOk(s, mem, m);
    }
    PairsKept(s, mem, s', mem', n);
  }

  /** Entering a finished table in its parent. */
  lemma LinkTable(s: Shape, mem: Memory, counts: map<nat, nat>, n: Node, p: Pte, s': Shape, mem': Memory)
    requires Consistent(s, mem, counts)
    requires n in s.building && NodeOk(s, mem, n) && NodeOk(s, mem, Up(n))
    requires p.present && p.frame == s.nodes[n]
    requires s' == s.(building := s.building - {n})
    requires mem' == SetPte(mem, s.nodes[Up(n)], n.path.idx, p)
    ensures Consistent(s', mem', counts)
  {
    forall m | m in s'.nodes ensures NodeOk(s', mem', m) {
      TablesApart(s, mem, m, Up(n));
      if m.path.Down? { TablesApart(s, mem, Up(m), Up(n)); }
    }
    forall m | m in s'.nodes && m != n ensures Kept(s, mem, s', mem', m) {
      assert NodeOk(s, mem, m);
      if m.path.Down? { TablesApart(s, mem, Up(m), Up(n)); }
    }
    TableAlone(s, mem, n);
    PairsKept(s, mem, s', mem', n);
    forall g ensures FrameOk(s', counts, g) { assert FrameOk(s, counts, g); }
  }

  lemma TablesApart(s: Shape, mem: Memory, m: Node, t: Node)
    requires NodesOk(s, mem) && SharingOk(s, mem) && m in s.nodes && t in s.nodes && Depth(t.path) < 4
    ensures NodeOk(s, mem, m)
    ensures m != t ==> s.nodes[m] != s.nodes[t]
  {
    assert PairOk(s, mem, m, t) && PairOk(s, mem, t, m);
  }

  lemma TableAlone(s: Shape, mem: Memory, t: Node)
    requires NodesOk(s, mem) && SharingOk(s, mem) && t in s.nodes && Depth(t.path) < 4
    ensures Alone(s, t)
  {
    forall m | m in s.nodes && s.nodes[m] == s.nodes[t] ensures m == t {
      assert PairOk(s, mem, t, m);
    }
  }

  /** copy_pt, one entry: the child gets the parent's frame, both entries read-only. */
  lemma ShareLeaf(s: Shape, mem: Memory, counts: map<nat, nat>, d: Node, t: Node, i: nat, p: Pte,
                  s': Shape, mem': Memory, counts': map<nat, nat>)
    requires Consistent(s, mem, counts)
    requires d in s.nodes && t in s.nodes && d != t && d.path == t.path && Depth(t.path) == 3 && i < 512
    requires Kid(t, i) in s.nodes && Kid(d, i) !in s.nodes
    requires p.present && p.frame == s.nodes[Kid(t, i)] && !p.writable && p.cow
    requires IsTable(mem, s.nodes[d]) && IsTable(mem, s.nodes[t]) && s.nodes[d] != s.nodes[t]
    requires s' == s.(nodes := s.nodes[Kid(d, i) := p.frame])
    requires mem' == SetPte(SetPte(mem, s.nodes[d], i, p), s.nodes[t], i, p)
    requires counts' == counts[p.frame := |Users(s.nodes, p.frame)| + 1]
    ensures Consistent(s', mem', counts')
  {
    var x, k := Kid(d, i), Kid(t, i);
    ShareLeafNodes(s, mem, d, t, i, p, s', mem');
    ShareLeafKept(s, mem, d, t, i, p, s', mem');
    forall n, m ensures PairOk(s', mem', n, m) {
      assert PairOk(s, mem, n, m) && PairOk(s, mem, n, k) && PairOk(s, mem, k, m);
      if n in s.nodes { assert Kept(s, mem, s', mem', n); }
      assert LeafPte(s', mem', x) == p && LeafPte(s', mem', k) == p;
    }
    assert FrameOk(s, counts, p.frame) && k in Users(s.nodes, p.frame);
    FramesAdd(s, counts, x, p.frame, s', counts');
  }

  lemma ShareLeafNodes(s: Shape, mem: Memory, d: Node, t: Node, i: nat, p: Pte, s': Shape, mem': Memory)
    requires NodesOk(s, mem) && SharingOk(s, mem) && s.building <= s.nodes.Keys
    requires d in s.nodes && t in s.nodes && d != t && d.path == t.path && Depth(t.path) == 3 && i < 512
    requires Kid(t, i) in s.nodes && Kid(d, i) !in s.nodes
    requires p.present && p.frame == s.nodes[Kid(t, i)]
    requires IsTable(mem, s.nodes[d]) && IsTable(mem, s.nodes[t]) && s.nodes[d] != s.nodes[t]
    requires s' == s.(nodes := s.nodes[Kid(d, i) := p.frame])
    requires mem' == SetPte(SetPte(mem, s.nodes[d], i, p), s.nodes[t], i, p)
    ensures NodesOk(s', mem')
  {
    assert NodeOk(s, mem, Kid(t, i));
    forall m | m in s'.nodes ensures NodeOk(s', mem', m) {
      if m != Kid(d, i) {
        TablesApart(s, mem, m, d);
        TablesApart(s, mem, m, t);
        if m.path.Down? { TablesApart(s, mem, Up(m), d); TablesApart(s, mem, Up(m), t); }
      }
    }
  }

  lemma ShareLeafKept(s: Shape, mem: Memory, d: Node, t: Node, i: nat, p: Pte, s': Shape, mem': Memory)
    requires NodesOk(s, mem) && SharingOk(s, mem)
    requires d in s.nodes && t in s.nodes && d != t && d.path == t.path && Depth(t.path) == 3 && i < 512
    requires !p.writable && p.cow
    requires IsTable(mem, s.nodes[d]) && IsTable(mem, s.nodes[t]) && s.nodes[d] != s.nodes[t]
    requires s' == s.(nodes := s.nodes[Kid(d, i) := p.frame]) && Kid(d, i) !in s.nodes
    requires mem' == SetPte(SetPte(mem, s.nodes[d], i, p), s.nodes[t], i, p)
    ensures forall m {:trigger Kept(s, mem, s', mem', m)} :: m in s.nodes ==> Kept(s, mem, s', mem', m)
    ensures LeafPte(s', mem', Kid(d, i)) == p && LeafPte(s', mem', Kid(t, i)) == p
  {
    forall m | m in s.nodes ensures Kept(s, mem, s', mem', m) {
      assert NodeOk(s, mem, m);
      if m.path.Down? { TablesApart(s, mem, Up(m), d); TablesApart(s, mem, Up(m), t); }
    }
  }

  /** vmm_map_page, last step: a held page becomes a leaf. */
  lemma MapLeaf(s: Shape, mem: Memory, counts: map<nat, nat>, n: Node, p: Pte, s': Shape, mem': Memory)
    requires Consistent(s, mem, counts)
    requires n !in s.nodes && Depth(n.path) == 4 && Up(n) in s.nodes && n.path.idx < 512
    requires p.present && p.frame in s.held
    requires IsTable(mem, s.nodes[Up(n)])
    requires s' == s.(nodes := s.nodes[n := p.frame], held := s.held - {p.frame})
    requires mem' == SetPte(mem, s.nodes[Up(n)], n.path.idx, p)
    ensures Consistent(s', mem', counts)
  {
    assert FrameOk(s, counts, p.frame);
    assert NodeOk(s, mem, Up(n));
    forall m | m in s.nodes ensures s.nodes[m] != p.frame { assert m !in Users(s.nodes, p.frame); }
    forall m | m in s'.nodes ensures NodeOk(s', mem', m) {
      if m != n {
        TablesApart(s, mem, m, Up(n));
        if m.path.Down? { TablesApart(s, mem, Up(m), Up(n)); }
      }
    }
    forall m | m in s'.nodes && m != n ensures Kept(s, mem, s', mem', m) {
      assert NodeOk(s, mem, m);
      if m.path.Down? { TablesApart(s, mem, Up(m), Up(n)); }
    }
    PairsKept(s, mem, s', mem', n);
    FramesAdd(s, counts, n, p.frame, s', counts);
    HeldApart(s, mem, counts, s.nodes[Up(n)], Up(n));
  }

  lemma HeldApart(s: Shape, mem: Memory, counts: map<nat, nat>, f: nat, n: Node)
    requires Consistent(s, mem, counts) && n in s.nodes && s.nodes[n] == f
    ensures f !in s.held && f !in s.others
  {
    assert FrameOk(s, counts, f) && n in Users(s.nodes, f);
  }

  /** free_user_pt, one entry, or any childless table: its parent no longer vouches for its entries. */
  lemma DropNode(s: Shape, mem: Memory, counts: map<nat, nat>, n: Node, s': Shape, counts': map<nat, nat>)
    requires Consistent(s, mem, counts)
    requires n in s.nodes && n !in s.building && (n.path.Down? ==> Up(n) in s.dying)
    requires forall m :: m in s.nodes && m.path.Down? ==> Up(m) != n
    requires s' == s.(nodes := s.nodes - {n}, dying := s.dying - {n})
    requires counts' == Drop(counts, s.nodes[n])
    ensures Consistent(s', mem, counts')
  {
    forall m | m in s'.nodes ensures NodeOk(s', mem, m) {
      assert NodeOk(s, mem, m);
    }
    forall m | m in s'.nodes && m != n ensures Kept(s, mem, s', mem, m) {
      assert NodeOk(s, mem, m);
    }
    PairsKept(s, mem, s', mem, n);
    FramesRemove(s, counts, n, s', counts');
  }

  /** Storing an absent entry where there was no child. */
  lemma ClearEntry(s: Shape, mem: Memory, counts: map<nat, nat>, t: Node, i: nat, p: Pte, mem': Memory)
    requires Consistent(s, mem, counts)
    requires t in s.nodes && Depth(t.path) < 4 && IsTable(mem, s.nodes[t]) && i < 512
    requires Kid(t, i) !in s.nodes
    requires !p.present && mem' == SetPte(mem, s.nodes[t], i, p)
    ensures Consistent(s, mem', counts)
  {
    forall m | m in s.nodes ensures NodeOk(s, mem', m) {
      TablesApart(s, mem, m, t);
      if m.path.Down? { TablesApart(s, mem, Up(m), t); }
    }
    forall m | m in s.nodes && m != t ensures Kept(s, mem, s, mem', m) {
      assert NodeOk(s, mem, m);
      if m.path.Down? { TablesApart(s, mem, Up(m), t); }
    }
    TableAlone(s, mem, t);
    PairsKept(s, mem, s, mem', t);
    HeldApart(s, mem, counts, s.nodes[t], t);
  }

  /** A table starts to be torn down, or has no entries left and is whole again. */
  lemma SetDying(s: Shape, mem: Memory, counts: map<nat, nat>, s': Shape)
    requires Consistent(s, mem, counts)
    requires s' == s.(dying := s'.dying)
    requires forall n :: n in s.dying && n !in s'.dying && n in s.nodes && NodeOk(s, mem, n) ==>
               Depth(n.path) < 4 ==> EntriesOk(s, mem[s.nodes[n]].ptes, n)
    ensures Consistent(s', mem, counts)
  {
    forall m | m in s'.nodes ensures NodeOk(s', mem, m) {
      assert NodeOk(s, mem, m);
    }
    forall n, m ensures PairOk(s', mem, n, m) { assert PairOk(s, mem, n, m); }
    forall g ensures FrameOk(s', counts, g) { assert FrameOk(s, counts, g); }
  }

  /** vmm_create_pml4. */
  lemma NewRoot(s: Shape, mem: Memory, counts: map<nat, nat>, f: nat, s': Shape, mem': Memory)
    requires Consistent(s, mem, counts) && f !in counts
    requires Node(f, Top) !in s.nodes
    requires s' == s.(nodes := s.nodes[Node(f, Top) := f], dying := s.dying - {Node(f, Top)})
    requires mem' == mem[f := Table(seq(512, _ => ABSENT))]
    ensures Consistent(s', mem', counts[f := 1])
  {
    var n := Node(f, Top);
    FreshFrame(s, mem, counts, f);
    FramesAdd(s, counts, n, f, s', counts[f := 1]);
    forall m | m in s'.nodes ensures NodeOk(s', mem', m) {
      if m != n { assert NodeOk(s, mem, m); }
    }
    forall m | m in s'.nodes && m != n ensures Kept(s, mem, s', mem', m) {
      assert NodeOk(s, mem, m);
    }
    PairsKept(s, mem, s', mem', n);
  }

  /** pmm_alloc_page for a page that will be mapped, and its contents. */
  lemma HoldPage(s: Shape, mem: Memory, counts: map<nat, nat>, f: nat, bytes: seq<bv8>, s': Shape, mem': Memory)
    requires Consistent(s, mem, counts) && f !in counts && |bytes| == 4096
    requires s' == s.(held := s.held + {f}) && mem' == mem[f := Data(bytes)]
    ensures Consistent(s', mem', counts[f := 1])
  {
    FreshFrame(s, mem, counts, f);
    forall m | m in s'.nodes ensures NodeOk(s', mem', m) { assert NodeOk(s, mem, m); }
    forall n, m ensures PairOk(s', mem', n, m) {
      assert PairOk(s, mem, n, m);
      if n in s.nodes { assert NodeOk(s, mem, n); }
    }
    var counts' := counts[f := 1];
    forall g ensures FrameOk(s', counts', g) { assert FrameOk(s, counts, g); }
  }

  /** A held page is given back. */
  lemma UnholdPage(s: Shape, mem: Memory, counts: map<nat, nat>, f: nat, s': Shape)
    requires Consistent(s, mem, counts) && f in s.held
    requires s' == s.(held := s.held - {f})
    ensures Consistent(s', mem, Drop(counts, f))
  {
    forall m | m in s'.nodes ensures NodeOk(s', mem, m) { assert NodeOk(s, mem, m); }
    forall n, m ensures PairOk(s', mem, n, m) { assert PairOk(s, mem, n, m); }
    var counts' := Drop(counts, f);
    assert FrameOk(s, counts, f);
    forall g ensures FrameOk(s', counts', g) { assert FrameOk(s, counts, g); }
  }

  /** pmm_alloc_page for another part of the kernel. */
  lemma TakeOther(s: Shape, mem: Memory, counts: map<nat, nat>, f: nat, s': Shape)
    requires Consistent(s, mem, counts) && f !in counts && s' == s.(others := s.others[f := 1])
    ensures Consistent(s', mem, counts[f := 1])
  {
    forall m | m in s'.nodes ensures NodeOk(s', mem, m) { assert NodeOk(s, mem, m); }
    forall n, m ensures PairOk(s', mem, n, m) { assert PairOk(s, mem, n, m); }
    var counts' := counts[f := 1];
    assert FrameOk(s, counts, f);
    forall g ensures FrameOk(s', counts', g) { assert FrameOk(s, counts, g); }
  }

  /** pmm_free_page by that part. */
  lemma GiveOther(s: Shape, mem: Memory, counts: map<nat, nat>, f: nat, s': Shape)
    requires Consistent(s, mem, counts) && f in s.others && s' == s.(others := Drop(s.others, f))
    ensures Consistent(s', mem, Drop(counts, f))
  {
    forall m | m in s'.nodes ensures NodeOk(s', mem, m) { assert NodeOk(s, mem, m); }
    forall n, m ensures PairOk(s', mem, n, m) { assert PairOk(s, mem, n, m); }
    var counts' := Drop(counts, f);
    assert FrameOk(s, counts, f);
    forall g ensures FrameOk(s', counts', g) { assert FrameOk(s, counts, g); }
  }

  /** vmm_handle_cow_fault, only user: the entry becomes writable. */
  lemma MakeWritable(s: Shape, mem: Memory, counts: map<nat, nat>, n: Node, p: Pte, mem': Memory)
    requires Consistent(s, mem, counts)
    requires n in s.nodes && Depth(n.path) == 4 && NodeOk(s, mem, n) && n !in s.building
    requires p.present && p.frame == s.nodes[n] && p.frame in counts && counts[p.frame] == 1
    requires mem' == SetPte(mem, s.nodes[Up(n)], n.path.idx, p)
    ensures Consistent(s, mem', counts)
  {
    SingleUser(s, mem, counts, n);
    assert NodeOk(s, mem, Up(n));
    forall m | m in s.nodes ensures NodeOk(s, mem', m) {
      TablesApart(s, mem, m, Up(n));
      if m.path.Down? { TablesApart(s, mem, Up(m), Up(n)); }
    }
    forall m | m in s.nodes && m != n ensures Kept(s, mem, s, mem', m) {
      assert NodeOk(s, mem, m);
      if m.path.Down? { TablesApart(s, mem, Up(m), Up(n)); }
    }
    PairsKept(s, mem, s, mem', n);
    HeldApart(s, mem, counts, s.nodes[Up(n)], Up(n));
  }

  lemma SingleUser(s: Shape, mem: Memory, counts: map<nat, nat>, n: Node)
    requires Consistent(s, mem, counts) && n in s.nodes
    requires s.nodes[n] in counts && counts[s.nodes[n]] == 1
    ensures Alone(s, n)
  {
    var f := s.nodes[n];
    assert FrameOk(s, counts, f) && n in Users(s.nodes, f);
    assert |Users(s.nodes, f) - {n}| == 0;
    forall m | m in s.nodes && s.nodes[m] == f ensures m == n {
      assert m in Users(s.nodes, f) && m !in Users(s.nodes, f) - {n};
    }
  }

  /** vmm_handle_cow_fault, shared page: one user moves to a private copy. */
  lemma Unshare(s: Shape, mem: Memory, counts: map<nat, nat>, n: Node, f: nat, p: Pte,
                s': Shape, mem': Memory, counts': map<nat, nat>)
    requires Consistent(s, mem, counts) && f !in counts
    requires n in s.nodes && Depth(n.path) == 4 && NodeOk(s, mem, n) && n !in s.building
    requires p.present && p.frame == f && IsTable(mem, s.nodes[Up(n)]) && f != s.nodes[Up(n)]
    requires s' == s.(nodes := s.nodes[n := f])
    requires mem' == SetPte(mem[f := mem[s.nodes[n]]], s.nodes[Up(n)], n.path.idx, p)
    requires counts' == Drop(counts[f := 1], s.nodes[n])
    ensures Consistent(s', mem', counts')
  {
    FreshFrame(s, mem, counts, f);
    assert NodeOk(s, mem, Up(n));
    forall m | m in s'.nodes ensures NodeOk(s', mem', m) {
      TablesApart(s, mem, m, Up(n));
      if m.path.Down? { TablesApart(s, mem, Up(m), Up(n)); }
    }
    UnsharePairs(s, mem, n, f, p, s', mem');
    UnshareFrames(s, counts, n, f, s', counts');
    HeldApart(s, mem, counts, s.nodes[Up(n)], Up(n));
  }

  lemma UnsharePairs(s: Shape, mem: Memory, n: Node, f: nat, p: Pte, s': Shape, mem': Memory)
    requires NodesOk(s, mem) && SharingOk(s, mem) && (forall m :: m in s.nodes ==> s.nodes[m] != f)
    requires n in s.nodes && Depth(n.path) == 4 && NodeOk(s, mem, n)
    requires IsTable(mem, s.nodes[Up(n)]) && f != s.nodes[Up(n)]
    requires s' == s.(nodes := s.nodes[n := f])
    requires mem' == SetPte(mem[f := mem[s.nodes[n]]], s.nodes[Up(n)], n.path.idx, p)
    ensures SharingOk(s', mem')
  {
    forall m | m in s'.nodes && m != n ensures Kept(s, mem, s', mem', m) {
      assert NodeOk(s, mem, m);
      if m.path.Down? { TablesApart(s, mem, Up(m), Up(n)); }
    }
    PairsKept(s, mem, s', mem', n);
  }

  lemma UnshareFrames(s: Shape, counts: map<nat, nat>, n: Node, f: nat, s': Shape, counts': map<nat, nat>)
    requires FramesOk(s, counts) && f !in counts && n in s.nodes && s.nodes[n] != f
    requires s' == s.(nodes := s.nodes[n := f])
    requires counts' == Drop(counts[f := 1], s.nodes[n])
    ensures FramesOk(s', counts')
  {
    var s1, c1 := s.(nodes := s.nodes - {n}), Drop(counts, s.nodes[n]);
    FramesRemove(s, counts, n, s1, c1);
    assert s1.nodes[n := f] == s'.nodes;
    assert FrameOk(s, counts, f);
    assert counts' == c1[f := 1];
    FramesAdd(s1, c1, n, f, s', counts');
  }

  /** Storing into a page changes no table. */
  lemma SetData(s: Shape, mem: Memory, counts: map<nat, nat>, f: nat, bytes: seq<bv8>)
    requires Consistent(s, mem, counts) && IsData(mem, f) && |bytes| == 4096
    ensures Consistent(s, mem[f := Data(bytes)], counts)
  {
    var mem' := mem[f := Data(bytes)];
    forall m | m in s.nodes ensures NodeOk(s, mem', m) {
      assert NodeOk(s, mem, m);
      if m.path.Down? { assert NodeOk(s, mem, Up(m)); }
    }
    forall n, m ensures PairOk(s, mem', n, m) {
      assert PairOk(s, mem, n, m);
      if n in s.nodes { assert NodeOk(s, mem, n); }
    }
  }

  // ----- at most one use of a frame per root -----

  ghost function Roots(s: Shape): set<nat> {
    set n | n in s.nodes && n.path.Top? :: n.root
  }

  lemma RootPresent(s: Shape, mem: Memory, n: Node)
    requires NodesOk(s, mem) && n in s.nodes
    ensures n.root in Roots(s)
    decreases n.path
  {
    assert NodeOk(s, mem, n);
    if n.path.Down? { RootPresent(s, mem, Up(n)); }
  }

  /** A frame has at most one user per address space, so its count never exceeds their number. */
  lemma UsersBound(s: Shape, mem: Memory, counts: map<nat, nat>, f: nat)
    requires Consistent(s, mem, counts)
    ensures |Users(s.nodes, f)| <= |Roots(s)|
  {
    var us := Users(s.nodes, f);
    forall n, m | n in us && m in us && n.root == m.root ensures n == m {
      assert PairOk(s, mem, n, m);
    }
    forall n | n in us ensures n.root in Roots(s) { RootPresent(s, mem, n); }
    RootsInject(us, Roots(s));
  }

  lemma RootsInject(us: set<Node>, roots: set<nat>)
    requires forall n, m :: n in us && m in us && n.root == m.root ==> n == m
    requires forall n :: n in us ==> n.root in roots
    ensures |us| <= |roots|
  {
    if us != {} {
      var n :| n in us;
      RootsInject(us - {n}, roots - {n.root});
    }
  }

  /** The shape determines every reference count. */
  lemma CountsDetermined(s: Shape, c: map<nat, nat>, s': Shape, c': map<nat, nat>)
    requires FramesOk(s, c) && FramesOk(s', c')
    requires s'.nodes == s.nodes && s'.held == s.held && s'.others == s.others
    ensures c' == c
  {
    forall f ensures f in c <==> f in c' {
      assert FrameOk(s, c, f) && FrameOk(s', c', f);
    }
    forall f | f in c ensures c[f] == c'[f] {
      assert FrameOk(s, c, f) && FrameOk(s', c', f);
    }
  }

  /** Entries of the kernel half are not part of the shape. */
  lemma KernelEntry(s: Shape, mem: Memory, counts: map<nat, nat>, n: Node, i: nat, p: Pte, mem': Memory)
    requires Consistent(s, mem, counts)
    requires n in s.nodes && n.path.Top? && 256 <= i < 512 && IsTable(mem, s.nodes[n])
    requires mem' == SetPte(mem, s.nodes[n], i, p)
    ensures Consistent(s, mem', counts)
  {
    forall m | m in s.nodes ensures NodeOk(s, mem', m) {
      TablesApart(s, mem, m, n);
      if m.path.Down? { TablesApart(s, mem, Up(m), n); }
    }
    forall m | m in s.nodes && m != n ensures Kept(s, mem, s, mem', m) {
      assert NodeOk(s, mem, m);
      if m.path.Down? { TablesApart(s, mem, Up(m), n); }
    }
    TableAlone(s, mem, n);
    PairsKept(s, mem, s, mem', n);
    HeldApart(s, mem, counts, s.nodes[n], n);
  }
}
