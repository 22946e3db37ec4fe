/** Virtual memory (kernel/mm/vmm.c): the four-level walk, mapping, copy-on-write
    copying and freeing of user address spaces.  Frame contents are the field `mem`
    (what the higher-half direct map shows); the ghost `shape` names every table and
    page, and `Consistent` is kept by every method. */
module Vmm {
  import opened Pmm
  import opened PageTables
  import opened Subtrees
  import opened FrameBudget
  import opened CopyOrder
  import opened EntryMarks

  // ----- virtual addresses -----

  /** `(virt >> (12 + 9 * level)) & 0x1FF`. */
  function Index(virt: nat, level: nat): nat
    requires level < 4
  {
    match level
    case 0 => (virt / 0x1000) % 512
    case 1 => (virt / 0x20_0000) % 512
    case 2 => (virt / 0x4000_0000) % 512
    case 3 => (virt / 0x80_0000_0000) % 512
  }

  function TablePath(virt: nat): Path {
    Down(Down(Down(Top, Index(virt, 3)), Index(virt, 2)), Index(virt, 1))
  }

  function PagePath(virt: nat): Path {
    Down(TablePath(virt), Index(virt, 0))
  }

  lemma PathDepth(virt: nat)
    ensures Depth(TablePath(virt)) == 3 && Depth(PagePath(virt)) == 4
  {
    assert Depth(Down(Top, Index(virt, 3))) == 1;
    assert Depth(Down(Down(Top, Index(virt, 3)), Index(virt, 2))) == 2;
  }

  /** The page of address space `root` that holds `virt`. */
  function Leaf(root: nat, virt: nat): Node {
    Node(root, PagePath(virt))
  }

  predicate IsUser(virt: nat) {
    Index(virt, 3) < 256
  }

  /** The four indices name exactly the 48-bit page number. */
  lemma PathIsPageNumber(v: nat, w: nat)
    ensures PagePath(v) == PagePath(w) <==> (v / 4096) % 0x10_0000_0000 == (w / 4096) % 0x10_0000_0000
  {
    PageNumberFromIndices(v);
    PageNumberFromIndices(w);
    var v3, w3 := Index(v, 3), Index(w, 3);
    var v2, w2 := v3 * 512 + Index(v, 2), w3 * 512 + Index(w, 2);
    var v1, w1 := v2 * 512 + Index(v, 1), w2 * 512 + Index(w, 1);
    LastDigit(v1, Index(v, 0), w1, Index(w, 0));
    LastDigit(v2, Index(v, 1), w2, Index(w, 1));
    LastDigit(v3, Index(v, 2), w3, Index(w, 2));
  }

  lemma LastDigit(a: nat, b: nat, c: nat, d: nat)
    requires b < 512 && d < 512
    ensures a * 512 + b == c * 512 + d <==> a == c && b == d
  {
  }

  lemma PageNumberFromIndices(v: nat)
    ensures (v / 4096) % 0x10_0000_0000 ==
            ((Index(v, 3) * 512 + Index(v, 2)) * 512 + Index(v, 1)) * 512 + Index(v, 0)
  {
    var p := v / 4096;
    assert v / 0x20_0000 == p / 512 && v / 0x4000_0000 == p / 512 / 512 && v / 0x80_0000_0000 == p / 512 / 512 / 512;
  }

  // ----- what clients see -----

  /** The flat map an address space amounts to: page to frame. */
  ghost function Leaves(s: Shape): map<Node, nat> {
    map n | n in s.nodes && Depth(n.path) == 4 :: s.nodes[n]
  }

  /** The bytes the pages of one address space show. */
  ghost function Space(s: Shape, mem: Memory, root: nat): map<Path, seq<bv8>> {
    map n | n in s.nodes && n.root == root && Depth(n.path) == 4 && IsData(mem, s.nodes[n]) :: n.path := mem[s.nodes[n]].bytes
  }

  ghost predicate Single(counts: map<nat, nat>, f: nat) {
    f in counts && counts[f] == 1
  }

  /** The page is present, read-only and copy-on-write, and its frame has another user. */
  ghost predicate PageShared(s: Shape, mem: Memory, counts: map<nat, nat>, n: Node) {
    var pte := LeafPte(s, mem, n);
    n in s.nodes && pte.present && !pte.writable && pte.cow && !Single(counts, s.nodes[n])
  }

  ghost predicate SharedReadOnly(s: Shape, mem: Memory, counts: map<nat, nat>, root: nat) {
    forall n :: n in s.nodes && n.root == root && Depth(n.path) == 4 ==> PageShared(s, mem, counts, n)
  }

  ghost predicate ForkMarkOk(s: Shape, m: Memory, s': Shape, m': Memory, src: nat, n: nat, k: Node) {
    k in s.nodes && Depth(k.path) == 4 ==>
      LeafPte(s', m', k) == if k.root == src && CopyRank(s, src, k.path.up) <= n then Marked(LeafPte(s, m, k)) else LeafPte(s, m, k)
  }

  /** What a fork of `src` with `n` free frames leaves of the entries there were, whether or not it succeeds: those in tables
      that the frames reach to, in the order of copying, are marked.  All others are as they were. */
  ghost predicate ForkMarks(s: Shape, m: Memory, s': Shape, m': Memory, src: nat, n: nat) {
    forall k {:trigger ForkMarkOk(s, m, s', m', src, n, k)} :: ForkMarkOk(s, m, s', m', src, n, k)
  }

  /** One byte of one page replaced. */
  ghost function Stored(space: map<Path, seq<bv8>>, p: Path, offset: nat, value: bv8): map<Path, seq<bv8>> {
    if p in space && offset < |space[p]| then space[p := space[p][offset := value]] else space
  }

  /** Pages in use keep their bytes. */
  ghost predicate DataKept(mem: Memory, mem': Memory, counts: map<nat, nat>) {
    forall f :: f in counts && IsData(mem, f) ==> f in mem' && mem'[f] == mem[f]
  }

  lemma DataKeptAgain(m0: Memory, c0: map<nat, nat>, m1: Memory, c1: map<nat, nat>, m2: Memory)
    requires DataKept(m0, m1, c0) && DataKept(m1, m2, c1) && c0.Keys <= c1.Keys
    ensures DataKept(m0, m2, c0)
  {
    forall f | f in c0 && IsData(m0, f) ensures f in m2 && m2[f] == m0[f] {
      assert f in c1.Keys && IsData(m1, f);
    }
  }

  lemma PageInUse(s: Shape, mem: Memory, counts: map<nat, nat>, n: Node)
    requires Consistent(s, mem, counts) && n in s.nodes && Depth(n.path) == 4
    ensures IsData(mem, s.nodes[n]) && s.nodes[n] in counts
  {
    assert NodeOk(s, mem, n);
    assert FrameOk(s, counts, s.nodes[n]) && n in Users(s.nodes, s.nodes[n]);
  }

  lemma SpaceAt(s: Shape, mem: Memory, counts: map<nat, nat>, root: nat, p: Path)
    requires Consistent(s, mem, counts)
    ensures p in Space(s, mem, root) <==> Node(root, p) in s.nodes && Depth(p) == 4
    ensures p in Space(s, mem, root) ==> Space(s, mem, root)[p] == mem[s.nodes[Node(root, p)]].bytes
  {
    if Node(root, p) in s.nodes && Depth(p) == 4 { PageInUse(s, mem, counts, Node(root, p)); }
  }

  /** Page `p` of `root` shows in the second state what page `p` of `from` showed in the first. */
  ghost predicate SamePage(s: Shape, mem: Memory, from: nat, s': Shape, mem': Memory, root: nat, p: Path) {
    && (Node(root, p) in s'.nodes <==> Node(from, p) in s.nodes)
    && (Node(from, p) in s.nodes && Node(root, p) in s'.nodes ==>
          && s.nodes[Node(from, p)] in mem && s'.nodes[Node(root, p)] in mem'
          && mem'[s'.nodes[Node(root, p)]] == mem[s.nodes[Node(from, p)]])
  }

  lemma SpaceSame(s: Shape, mem: Memory, counts: map<nat, nat>, from: nat,
                  s': Shape, mem': Memory, counts': map<nat, nat>, root: nat)
    requires Consistent(s, mem, counts) && Consistent(s', mem', counts')
    requires forall p {:trigger SamePage(s, mem, from, s', mem', root, p)} :: Depth(p) == 4 ==> SamePage(s, mem, from, s', mem', root, p)
    ensures Space(s', mem', root) == Space(s, mem, from)
  {
    var a, b := Space(s, mem, from), Space(s', mem', root);
    forall p ensures (p in b <==> p in a) && (p in a && p in b ==> b[p] == a[p]) {
      SpaceAt(s, mem, counts, from, p);
      SpaceAt(s', mem', counts', root, p);
      assert Depth(p) == 4 ==> SamePage(s, mem, from, s', mem', root, p);
    }
    PagesEqual(a, b);
  }

  lemma PagesEqual(a: map<Path, seq<bv8>>, b: map<Path, seq<bv8>>)
    requires forall p :: (p in b <==> p in a) && (p in a && p in b ==> b[p] == a[p])
    ensures a == b
  {
  }

  /** A space whose pages kept frame and bytes is unchanged. */
  lemma SpaceKept(s: Shape, mem: Memory, counts: map<nat, nat>, s': Shape, mem': Memory, counts': map<nat, nat>, root: nat)
    requires Consistent(s, mem, counts) && Consistent(s', mem', counts') && DataKept(mem, mem', counts)
    requires forall n :: n in s'.nodes && n.root == root && Depth(n.path) == 4 ==> n in s.nodes
    requires forall n :: n in s.nodes && n.root == root && Depth(n.path) == 4 ==> n in s'.nodes && s'.nodes[n] == s.nodes[n]
    ensures Space(s', mem', root) == Space(s, mem, root)
  {
    forall p | Depth(p) == 4 ensures SamePage(s, mem, root, s', mem', root, p) {
      if Node(root, p) in s.nodes { PageInUse(s, mem, counts, Node(root, p)); }
    }
    SpaceSame(s, mem, counts, root, s', mem', counts', root);
  }

  /** The flat map gained one page. */
  lemma SpaceMapped(s: Shape, mem: Memory, counts: map<nat, nat>, s': Shape, mem': Memory, counts': map<nat, nat>, n: Node, f: nat)
    requires Consistent(s, mem, counts) && Consistent(s', mem', counts') && DataKept(mem, mem', counts)
    requires Leaves(s') == Leaves(s)[n := f] && Depth(n.path) == 4 && IsData(mem', f)
    ensures Space(s', mem', n.root) == Space(s, mem, n.root)[n.path := mem'[f].bytes]
    ensures forall r :: r != n.root ==> Space(s', mem', r) == Space(s, mem, r)
  {
    forall k: Node | Depth(k.path) == 4 && k != n ensures SameLeaf(s, s', k) {
      assert k in Leaves(s) <==> k in Leaves(s');
    }
    assert n in Leaves(s');
    var a, b := Space(s, mem, n.root)[n.path := mem'[f].bytes], Space(s', mem', n.root);
    forall p ensures (p in b <==> p in a) && (p in a && p in b ==> b[p] == a[p]) {
      SpaceAt(s, mem, counts, n.root, p);
      SpaceAt(s', mem', counts', n.root, p);
      assert Depth(p) == 4 && Node(n.root, p) != n ==> SameLeaf(s, s', Node(n.root, p));
      if p in Space(s, mem, n.root) { PageInUse(s, mem, counts, Node(n.root, p)); }
    }
    PagesEqual(a, b);
    forall r | r != n.root ensures Space(s', mem', r) == Space(s, mem, r) {
      forall k: Node | k.root == r && Depth(k.path) == 4 ensures SameLeaf(s, s', k) {}
      SpaceKept(s, mem, counts, s', mem', counts', r);
    }
  }

  lemma SameLeaves(s: Shape, mem: Memory, counts: map<nat, nat>, s': Shape, mem': Memory, counts': map<nat, nat>, r: nat)
    requires Consistent(s, mem, counts) && Consistent(s', mem', counts') && DataKept(mem, mem', counts)
    requires Leaves(s') == Leaves(s)
    ensures Space(s', mem', r) == Space(s, mem, r)
  {
    forall k: Node | Depth(k.path) == 4 ensures SameLeaf(s, s', k) {
      assert k in Leaves(s) <==> k in Leaves(s');
    }
    forall k | k in s.nodes && k.root == r && Depth(k.path) == 4 ensures SameLeaf(s, s', k) {}
    SpaceKept(s, mem, counts, s', mem', counts', r);
  }

  lemma GrownRoots(s: Shape, s': Shape)
    requires Grown(s, s')
    ensures Roots(s') == Roots(s)
  {
  }

  ghost predicate SameLeaf(s: Shape, s': Shape, k: Node) {
    (k in s.nodes <==> k in s'.nodes) && (k in s.nodes && k in s'.nodes ==> s'.nodes[k] == s.nodes[k])
  }

  /** Nodes are only added, and no root among them. */
  ghost predicate Grown(s: Shape, s': Shape) {
    && (forall n :: n in s.nodes ==> n in s'.nodes && s'.nodes[n] == s.nodes[n])
    && (forall n :: n in s'.nodes && n !in s.nodes ==> n.path.Down?)
    && s'.others == s.others
  }

  /** Whatever was added belongs to one address space, so freeing that space frees it. */
  ghost predicate AddedTo(s: Shape, s': Shape, root: nat) {
    forall n :: n in s'.nodes && n !in s.nodes ==> n.root == root
  }

  /** It even lies on the way to `virt`: the page, or one of the three tables above it. */
  ghost predicate AddedOn(s: Shape, s': Shape, root: nat, virt: nat) {
    forall n :: n in s'.nodes && n !in s.nodes ==> n.root == root && OnWay(n.path, virt)
  }

  ghost predicate OnWay(p: Path, virt: nat) {
    p == PagePath(virt) || p == TablePath(virt) || p == TablePath(virt).up || p == TablePath(virt).up.up
  }

  /** The only page that was added, if any, is `n`, on frame `f`. */
  ghost predicate NewLeafOnly(s: Shape, s': Shape, n: Node, f: nat) {
    forall k :: k in s'.nodes && Depth(k.path) == 4 && k !in s.nodes ==> k == n && s'.nodes[k] == f
  }

  /** How many tables on the way to `virt` are not there yet. */
  ghost function Missing(s: Shape, root: nat, virt: nat): (n: nat)
    ensures n <= 3
  {
    MissingAbove(s, root, virt) + if Node(root, TablePath(virt)) in s.nodes then 0 else 1
  }

  ghost function MissingAbove(s: Shape, root: nat, virt: nat): nat {
    (if Kid(Node(root, Top), Index(virt, 3)) in s.nodes then 0 else 1) + if Directory(root, virt) in s.nodes then 0 else 1
  }

  /** The page directory on the way to `virt`. */
  ghost function Directory(root: nat, virt: nat): (n: Node)
    ensures Depth(n.path) == 2
  {
    assert Depth(Down(Top, Index(virt, 3))) == 1;
    Kid(Kid(Node(root, Top), Index(virt, 3)), Index(virt, 2))
  }

  /** Only tables were added: every answer and every byte is as before. */
  ghost predicate OnlyTables(s: Shape, mem: Memory, counts: map<nat, nat>, s': Shape, mem': Memory, counts': map<nat, nat>) {
    && Grown(s, s') && s'.held == s.held
    && (forall n :: n in s'.nodes && Depth(n.path) == 4 ==> n in s.nodes)
    && DataKept(mem, mem', counts) && EntriesKept(s, mem, s', mem')
    && counts.Keys <= counts'.Keys
  }

  lemma OnlyTablesLeaves(s: Shape, mem: Memory, counts: map<nat, nat>, s': Shape, mem': Memory, counts': map<nat, nat>)
    requires OnlyTables(s, mem, counts, s', mem', counts')
    ensures Leaves(s') == Leaves(s)
  {
  }

  /** In a quiet shape an entry is present exactly when its child exists. */
  lemma StepDown(s: Shape, mem: Memory, n: Node, i: nat)
    requires NodesOk(s, mem) && n in s.nodes && Depth(n.path) < 4 && i < Width(n.path)
    requires n !in s.dying && Kid(n, i) !in s.building
    ensures IsTable(mem, s.nodes[n]) && (n.path.Top? ==> s.nodes[n] == n.root)
    ensures mem[s.nodes[n]].ptes[i].present <==> Kid(n, i) in s.nodes
    ensures Kid(n, i) in s.nodes ==> s.nodes[Kid(n, i)] == mem[s.nodes[n]].ptes[i].frame
  {
    assert NodeOk(s, mem, n);
    if Kid(n, i) in s.nodes { assert NodeOk(s, mem, Kid(n, i)); }
  }

  lemma NoOrphan(s: Shape, mem: Memory, n: Node)
    requires NodesOk(s, mem) && n.path.Down?
    ensures Up(n) !in s.nodes ==> n !in s.nodes
  {
    if n in s.nodes { assert NodeOk(s, mem, n); }
  }

  datatype Flags = Flags(present: bool, writable: bool, user: bool, cow: bool, nx: bool)

  class AddressSpaces {
    const pmm: FrameAllocator
    var mem: Memory
    ghost var shape: Shape

    ghost predicate Valid()
      reads this, pmm, pmm.bitmap, pmm.bitmap.bytes, pmm.refs
    {
      pmm.Valid() && Consistent(shape, mem, pmm.counts)
    }

    /** No operation is under way. */
    ghost predicate Quiet()
      reads this
    {
      shape.building == {} && shape.dying == {}
    }

    constructor (pmm: FrameAllocator)
      requires pmm.Valid()
      ensures this.pmm == pmm && Valid() && Quiet() && shape.nodes == map[] && shape.held == {}
    {
      this.pmm := pmm;
      mem := map[];
      shape := Shape(map[], {}, {}, {}, pmm.counts);
    }

    lemma InUse(n: Node)
      requires Valid() && n in shape.nodes
      ensures shape.nodes[n] in pmm.counts && shape.nodes[n] != 0
    {
      assert FrameOk(shape, pmm.counts, shape.nodes[n]) && n in Users(shape.nodes, shape.nodes[n]);
    }

    /** The first three levels of vmm_get_phys and vmm_handle_cow_fault: the last-level table, or 0. */
    method FindPt(root: nat, virt: nat) returns (pt: nat)
      requires Valid() && Quiet() && Node(root, Top) in shape.nodes && IsUser(virt)
      ensures pt == 0 <==> Node(root, TablePath(virt)) !in shape.nodes
      ensures pt != 0 ==> pt == shape.nodes[Node(root, TablePath(virt))]
      ensures Node(root, TablePath(virt)) !in shape.nodes ==> Leaf(root, virt) !in shape.nodes
    {
      ghost var n4 := Node(root, Top);
      ghost var n3 := Kid(n4, Index(virt, 3));
      ghost var n2 := Kid(n3, Index(virt, 2));
      ghost var n1 := Kid(n2, Index(virt, 1));
      NoOrphan(shape, mem, Leaf(root, virt));
      StepDown(shape, mem, n4, Index(virt, 3));
      if !mem[root].ptes[Index(virt, 3)].present {
        NoOrphan(shape, mem, n2);
        NoOrphan(shape, mem, n1);
        return 0;
      }
      var pdpt := mem[root].ptes[Index(virt, 3)].frame;
      StepDown(shape, mem, n3, Index(virt, 2));
      if !mem[pdpt].ptes[Index(virt, 2)].present {
        NoOrphan(shape, mem, n1);
        return 0;
      }
      var pd := mem[pdpt].ptes[Index(virt, 2)].frame;
      StepDown(shape, mem, n2, Index(virt, 1));
      if !mem[pd].ptes[Index(virt, 1)].present { return 0; }
      InUse(n1);
      return mem[pd].ptes[Index(virt, 1)].frame;
    }

    /** vmm_get_phys: the frame the flat map gives, or 0. */
    method GetPhys(root: nat, virt: nat) returns (frame: nat)
      requires Valid() && Quiet() && Node(root, Top) in shape.nodes && IsUser(virt)
      ensures frame == if Leaf(root, virt) in Leaves(shape) then Leaves(shape)[Leaf(root, virt)] else 0
    {
      var pt := FindPt(root, virt);
      if pt == 0 { return 0; }
      PathDepth(virt);
      StepDown(shape, mem, Node(root, TablePath(virt)), Index(virt, 0));
      assert Kid(Node(root, TablePath(virt)), Index(virt, 0)) == Leaf(root, virt);
      if !mem[pt].ptes[Index(virt, 0)].present { return 0; }
      return mem[pt].ptes[Index(virt, 0)].frame;
    }

    /** alloc_page_table, for the table that will be node `n`. */
    method AllocTable(ghost n: Node) returns (f: nat)
      requires Valid() && n !in shape.nodes && n.path.Down? && Depth(n.path) < 4
      requires Up(n) in shape.nodes && n.path.idx < Width(n.path.up)
      modifies this, pmm, pmm.bitmap, pmm.bitmap.bytes, pmm.refs
      ensures Valid() && pmm.managed == old(pmm.managed)
      ensures f == 0 <==> old(pmm.Free()) == {}
      ensures f == 0 ==> shape == old(shape) && mem == old(mem) && pmm.counts == old(pmm.counts) && pmm.Free() == {}
      ensures f != 0 ==>
                && f !in old(pmm.counts) && pmm.counts == old(pmm.counts)[f := 1] && |pmm.Free()| == |old(pmm.Free())| - 1
                && mem == old(mem)[f := Table(seq(512, _ => ABSENT))]
                && shape == old(shape).(nodes := old(shape).nodes[n := f], building := old(shape).building + {n},
                                        dying := old(shape).dying - {n})
    {
      f := pmm.AllocPage();
      if f == 0 { return; }
      ghost var s, m := shape, mem;
      mem := mem[f := Table(seq(512, _ => ABSENT))];
      shape := shape.(nodes := shape.nodes[n := f], building := shape.building + {n}, dying := shape.dying - {n});
      NewTable(s, m, old(pmm.counts), n, f, shape, mem);
    }

    /** Enter table `f`, node `n`, in its parent table `t`. */
    method Link(ghost n: Node, t: nat, i: nat, f: nat, flags: Flags)
      requires Valid() && n in shape.building && n in shape.nodes && n.path.Down? && n.path.idx == i && Up(n) in shape.nodes
      requires shape.nodes[Up(n)] == t && shape.nodes[n] == f
      modifies this
      ensures Valid() && shape == old(shape).(building := old(shape).building - {n})
      ensures IsTable(old(mem), t) && i < 512
      ensures mem == SetPte(old(mem), t, i, Pte(true, f, flags.writable, flags.user, flags.cow, flags.nx))
    {
      assert n in shape.nodes.Keys;
      assert NodeOk(shape, mem, n);
      assert NodeOk(shape, mem, Up(n));
      ghost var s, m := shape, mem;
      mem := mem[t := Table(mem[t].ptes[i := Pte(true, f, flags.writable, flags.user, flags.cow, flags.nx)])];
      shape := shape.(building := shape.building - {n});
      LinkTable(s, m, pmm.counts, n, Pte(true, f, flags.writable, flags.user, flags.cow, flags.nx), shape, mem);
    }

    /** One level of vmm_map_page: the next table, allocated if its entry is absent; 0 on failure. */
    method Descend(ghost n: Node, t: nat, i: nat, user: bool) returns (f: nat)
      requires Valid() && Quiet() && n in shape.nodes && shape.nodes[n] == t && Depth(n.path) < 3 && i < Width(n.path)
      modifies this, pmm, pmm.bitmap, pmm.bitmap.bytes, pmm.refs
      ensures Valid() && Quiet() && pmm.managed == old(pmm.managed)
      ensures f == 0 <==> Kid(n, i) !in old(shape.nodes) && old(pmm.Free()) == {}
      ensures f == 0 ==> shape == old(shape) && pmm.Free() == {}
      ensures f != 0 ==> shape == old(shape).(nodes := old(shape).nodes[Kid(n, i) := f])
      ensures f != 0 ==> |pmm.Free()| == |old(pmm.Free())| - if Kid(n, i) in old(shape.nodes) then 0 else 1
      ensures OnlyTables(old(shape), old(mem), old(pmm.counts), shape, mem, pmm.counts) && AddedTo(old(shape), shape, n.root)
    {
      StepDown(shape, mem, n, i);
      if !mem[t].ptes[i].present {
        ghost var s, m, c := shape, mem, pmm.counts;
        f := AllocTable(Kid(n, i));
        if f == 0 { return; }
        Link(Kid(n, i), t, i, f, Flags(true, true, user, false, false));
        LinkedKeeps(s, m, c, n, f, shape, mem);
      } else {
        f := mem[t].ptes[i].frame;
        InUse(Kid(n, i));
      }
    }

    /** A new table changes the entry of no page. */
    static lemma LinkedKeeps(s: Shape, m: Memory, c: map<nat, nat>, n: Node, f: nat, s': Shape, m': Memory)
      requires Consistent(s, m, c) && n in s.nodes && Depth(n.path) < 3 && f !in c && Extends(s, s')
      requires forall g :: g in m && g != f && g != s.nodes[n] ==> g in m' && m'[g] == m[g]
      ensures EntriesKept(s, m, s', m')
    {
      forall k | k in s.nodes && Depth(k.path) == 3 ensures s.nodes[k] in m && s.nodes[k] in m' && m'[s.nodes[k]] == m[s.nodes[k]] {
        assert NodeOk(s, m, k) && PairOk(s, m, k, n);
        assert FrameOk(s, c, s.nodes[k]) && k in Users(s.nodes, s.nodes[k]);
      }
      SameEntries(s, m, s', m');
    }

    /** vmm_map_page: on success the flat map gains this page; a failure changes no answer. */
    method MapPage(root: nat, virt: nat, frame: nat, flags: Flags) returns (ok: bool)
      requires Valid() && Quiet() && Node(root, Top) in shape.nodes && IsUser(virt) && frame in shape.held
      modifies this, pmm, pmm.bitmap, pmm.bitmap.bytes, pmm.refs
      ensures Valid() && Quiet() && pmm.managed == old(pmm.managed)
      ensures ok <==> Leaf(root, virt) !in old(Leaves(shape)) && |old(pmm.Free())| >= Missing(old(shape), root, virt)
      ensures ok ==> |pmm.Free()| == |old(pmm.Free())| - Missing(old(shape), root, virt)
      ensures Leaves(shape) == if ok && flags.present then old(Leaves(shape))[Leaf(root, virt) := frame] else old(Leaves(shape))
      ensures shape.held == if ok && flags.present then old(shape.held) - {frame} else old(shape.held)
      ensures ok && flags.present ==>
                LeafPte(shape, mem, Leaf(root, virt)) == Pte(true, frame, flags.writable, flags.user, flags.cow, flags.nx)
      ensures Grown(old(shape), shape) && AddedOn(old(shape), shape, root, virt) && DataKept(old(mem), mem, old(pmm.counts))
      ensures EntriesKept(old(shape), old(mem), shape, mem)
    {
      ok := false;
      var pt := FindTable(root, virt, flags.user);
      ghost var s, m := shape, mem;
      OnlyTablesLeaves(old(shape), old(mem), old(pmm.counts), shape, mem, pmm.counts);
      if pt == 0 { return; }
      ghost var n1 := Node(root, TablePath(virt));
      PathDepth(virt);
      StepDown(shape, mem, n1, Index(virt, 0));
      assert Kid(n1, Index(virt, 0)) == Leaf(root, virt);
      if mem[pt].ptes[Index(virt, 0)].present { return; }
      SetLeaf(Leaf(root, virt), pt, Index(virt, 0), frame, flags);
      KeptTwice(old(shape), old(mem), s, m, shape, mem);
      ok := true;
    }

    /** The first three levels of vmm_map_page. */
    method FindTable(root: nat, virt: nat, user: bool) returns (pt: nat)
      requires Valid() && Quiet() && Node(root, Top) in shape.nodes && IsUser(virt)
      modifies this, pmm, pmm.bitmap, pmm.bitmap.bytes, pmm.refs
      ensures Valid() && Quiet() && pmm.managed == old(pmm.managed)
      ensures pt == 0 <==> |old(pmm.Free())| < Missing(old(shape), root, virt)
      ensures pt != 0 ==> |pmm.Free()| == |old(pmm.Free())| - Missing(old(shape), root, virt)
      ensures pt != 0 ==> Node(root, TablePath(virt)) in shape.nodes && shape.nodes[Node(root, TablePath(virt))] == pt
      ensures OnlyTables(old(shape), old(mem), old(pmm.counts), shape, mem, pmm.counts) && AddedOn(old(shape), shape, root, virt)
    {
      var pd := FindDirectory(root, virt, user);
      if pd == 0 { return 0; }
      ghost var s, m := shape, mem;
      assert Kid(Directory(root, virt), Index(virt, 1)) == Node(root, TablePath(virt));
      pt := Descend(Directory(root, virt), pd, Index(virt, 1), user);
      KeptTwice(old(shape), old(mem), s, m, shape, mem);
    }

    /** The first two of them. */
    method FindDirectory(root: nat, virt: nat, user: bool) returns (pd: nat)
      requires Valid() && Quiet() && Node(root, Top) in shape.nodes && IsUser(virt)
      modifies this, pmm, pmm.bitmap, pmm.bitmap.bytes, pmm.refs
      ensures Valid() && Quiet() && pmm.managed == old(pmm.managed)
      ensures pd == 0 <==> |old(pmm.Free())| < MissingAbove(old(shape), root, virt)
      ensures pd == 0 ==> pmm.Free() == {}
      ensures pd != 0 ==> |pmm.Free()| == |old(pmm.Free())| - MissingAbove(old(shape), root, virt)
      ensures pd != 0 ==> Directory(root, virt) in shape.nodes && shape.nodes[Directory(root, virt)] == pd
      ensures OnlyTables(old(shape), old(mem), old(pmm.counts), shape, mem, pmm.counts) && AddedOn(old(shape), shape, root, virt)
      ensures Node(root, TablePath(virt)) in shape.nodes <==> Node(root, TablePath(virt)) in old(shape.nodes)
    {
      ghost var n4 := Node(root, Top);
      assert NodeOk(shape, mem, n4);
      var pdpt := Descend(n4, root, Index(virt, 3), user);
      if pdpt == 0 { return 0; }
      ghost var s, m := shape, mem;
      pd := Descend(Kid(n4, Index(virt, 3)), pdpt, Index(virt, 2), user);
      KeptTwice(old(shape), old(mem), s, m, shape, mem);
    }

    /** The last store of vmm_map_page. */
    method SetLeaf(ghost n: Node, pt: nat, i: nat, frame: nat, flags: Flags)
      requires Valid() && Quiet() && n !in shape.nodes && Depth(n.path) == 4 && i < 512 && n.path.idx == i
      requires Up(n) in shape.nodes && shape.nodes[Up(n)] == pt && IsTable(mem, pt) && frame in shape.held
      modifies this
      ensures Valid()
      ensures mem == SetPte(old(mem), pt, i, Pte(flags.present, frame, flags.writable, flags.user, flags.cow, flags.nx))
      ensures shape == if flags.present
                       then old(shape).(nodes := old(shape).nodes[n := frame], held := old(shape).held - {frame})
                       else old(shape)
      ensures EntriesKept(old(shape), old(mem), shape, mem)
    {
      var p := Pte(flags.present, frame, flags.writable, flags.user, flags.cow, flags.nx);
      ghost var s, m := shape, mem;
      mem := mem[pt := Table(mem[pt].ptes[i := p])];
      if flags.present {
        shape := shape.(nodes := shape.nodes[n := frame], held := shape.held - {frame});
        MapLeaf(s, m, pmm.counts, n, p, shape, mem);
      } else {
        ClearEntry(s, m, pmm.counts, Up(n), i, p, mem);
      }
      NewEntry(s, m, pmm.counts, n, p, shape, mem);
    }

    /** What copying one table may assume: `d` is an empty table at the same place as `t` in another space,
        and with at most 255 spaces no reference count can saturate. */
    ghost predicate CanCopy(d: Node, t: Node)
      reads this
    {
      && d in shape.nodes && t in shape.nodes && d.path == t.path && d.root != t.root
      && shape.dying == {} && (forall n :: n in shape.building ==> n.root == d.root)
      && (forall n :: n in shape.nodes && n.root == d.root ==> !Under(n.path, d.path))
      && |Roots(shape)| <= 255
    }

    /** What copying one table guarantees, whether or not it ran out of frames. */
    twostate predicate CopyDone(d: Node, t: Node, bound: nat)
      reads this, pmm
    {
      && Copied(old(shape), shape, d, t, bound)
      && DataKept(old(mem), mem, old(pmm.counts))
      && old(pmm.counts).Keys <= pmm.counts.Keys
      && pmm.managed == old(pmm.managed)
      && CopyMarks(old(shape), old(mem), shape, mem, t.root, d.root)
    }

    /** One entry of copy_pt: share the page read-only on both sides. */
    method ShareEntry(ghost d: Node, ghost t: Node, dst: nat, src: nat, i: nat)
      requires Valid() && d in shape.nodes && t in shape.nodes && d.path == t.path && d.root != t.root
      requires Depth(t.path) == 3 && i < 512 && shape.nodes[d] == dst && shape.nodes[t] == src
      requires Kid(t, i) in shape.nodes && Kid(d, i) !in shape.nodes && Kid(t, i) !in shape.building && t !in shape.dying
      requires |Roots(shape)| <= 255
      modifies this, pmm, pmm.bitmap, pmm.bitmap.bytes, pmm.refs
      ensures Valid() && pmm.managed == old(pmm.managed) && pmm.counts.Keys == old(pmm.counts).Keys
      ensures shape == old(shape).(nodes := old(shape).nodes[Kid(d, i) := old(shape).nodes[Kid(t, i)]])
      ensures DataKept(old(mem), mem, old(pmm.counts)) && CopyMarks(old(shape), old(mem), shape, mem, t.root, d.root)
    {
      StepDown(shape, mem, t, i);
      assert NodeOk(shape, mem, d);
      TablesApart(shape, mem, d, t);
      var pte := mem[src].ptes[i];
      var shared := pte.(writable := false, cow := true);
      ghost var s, m, c := shape, mem, pmm.counts;
      mem := mem[dst := Table(mem[dst].ptes[i := shared])];
      mem := mem[src := Table(mem[src].ptes[i := shared])];
      shape := shape.(nodes := shape.nodes[Kid(d, i) := pte.frame]);
      ghost var c' := c[pte.frame := |Users(s.nodes, pte.frame)| + 1];
      ShareLeaf(s, m, c, d, t, i, shared, shape, mem, c');
      ShareMarks(s, m, d, t, i, shape, mem);
      CountBelow256(s, shape, mem, c, c', Kid(t, i), Kid(d, i));
      pmm.IncRef(pte.frame);
    }

    /** The increment of copy_pt does not saturate. */
    static lemma CountBelow256(s: Shape, s': Shape, mem': Memory, c: map<nat, nat>, c': map<nat, nat>, k: Node, x: Node)
      requires FramesOk(s, c) && k in s.nodes && x !in s.nodes && x.path.Down?
      requires s' == s.(nodes := s.nodes[x := s.nodes[k]]) && Consistent(s', mem', c')
      requires |Roots(s)| <= 255
      ensures s.nodes[k] in c && c[s.nodes[k]] == |Users(s.nodes, s.nodes[k])| < 255
    {
      var f := s.nodes[k];
      assert FrameOk(s, c, f) && k in Users(s.nodes, f);
      assert Roots(s') == Roots(s);
      UsersBound(s', mem', c', f);
      UsersAdd(s.nodes, x, f, f);
    }

    /** copy_pt: shares every present page; it allocates nothing and cannot fail. */
    method CopyPt(ghost d: Node, ghost t: Node, dst: nat, src: nat)
      requires Valid() && CanCopy(d, t) && Depth(t.path) == 3 && shape.nodes[d] == dst && shape.nodes[t] == src
      modifies this, pmm, pmm.bitmap, pmm.bitmap.bytes, pmm.refs
      ensures Valid() && CopyDone(d, t, 512) && Complete(old(shape), shape, d, t, 512)
    {
      ghost var s, m := shape, mem;
      NothingMarked(s, m, t.root, d.root);
      for i := 0 to 512
        invariant Valid() && CopyDone(d, t, i) && Complete(s, shape, d, t, i)
        invariant |Roots(shape)| <= 255
      {
        assert forall n :: n in s.nodes ==> Depth(n.path) <= 4 by {
          forall n | n in s.nodes ensures Depth(n.path) <= 4 { assert n in shape.nodes && NodeOk(shape, mem, n); }
        }
        NotYetCopied(s, shape, d, t, i);
        StepDown(shape, mem, t, i);
        CopiedLeaf(s, shape, d, t, i);
        if mem[src].ptes[i].present {
          ghost var a, ma := shape, mem;
          ShareEntry(d, t, dst, src, i);
          assert Roots(shape) == Roots(a);
          MarksAgain(s, m, a, ma, shape, mem, t.root, d.root);
        }
      }
    }

    static lemma NotYetCopied(s: Shape, a: Shape, d: Node, t: Node, i: nat)
      requires Copied(s, a, d, t, i)
      requires forall n :: n in s.nodes && n.root == d.root ==> !Under(n.path, d.path)
      requires forall n :: n in s.building ==> n.root == d.root
      requires d.root != t.root
      ensures Kid(d, i) !in a.nodes
      ensures Kid(t, i) !in a.building
    {
      assert Under(Kid(d, i).path, d.path) && Toward(Kid(d, i).path, d.path) == i;
      CopySource(s, a, d, t, i, Kid(d, i));
    }

    /** copy_pd (level 1), copy_pdpt (level 2) and vmm_copy_userspace (level 3): the same loop at three levels.
        A table that could not be finished is linked all the same, so that freeing reaches it. */
    method CopyTable(ghost d: Node, ghost t: Node, dst: nat, src: nat, level: nat) returns (ok: bool)
      requires Valid() && CanCopy(d, t) && 1 <= level <= 3 && Depth(t.path) == 3 - level
      requires shape.nodes[d] == dst && shape.nodes[t] == src
      modifies this, pmm, pmm.bitmap, pmm.bitmap.bytes, pmm.refs
      ensures Valid() && CopyDone(d, t, Width(t.path))
      ensures ok ==> Complete(old(shape), shape, d, t, Width(t.path))
      ensures !ok ==> pmm.Free() == {} && Stuck(old(shape), shape, d, t)
      decreases level, 3
    {
      ghost var s, m := shape, mem;
      NothingMarked(s, m, t.root, d.root);
      for i := 0 to if level == 3 then 256 else 512
        invariant Valid() && CopyDone(d, t, i) && Complete(s, shape, d, t, i)
        invariant |Roots(shape)| <= 255
      {
        NotYetCopied(s, shape, d, t, i);
        StepDown(shape, mem, t, i);
        if mem[src].ptes[i].present {
          ghost var a, ma := shape, mem;
          ok := CopyEntry(d, t, dst, src, i, level, s);
          MarksAgain(s, m, a, ma, shape, mem, t.root, d.root);
          if !ok {
            CopiedMore(s, shape, d, t, i + 1, Width(t.path));
            return;
          }
        } else {
          NothingThere(s, shape, mem, d, t, i);
        }
      }
      return true;
    }

    /** One present entry of CopyTable; `s` is the shape when the table was started. */
    method CopyEntry(ghost d: Node, ghost t: Node, dst: nat, src: nat, i: nat, level: nat, ghost s: Shape) returns (ok: bool)
      requires Valid() && 1 <= level <= 3 && Depth(t.path) == 3 - level && i < Width(t.path)
      requires d in shape.nodes && t in shape.nodes && d.path == t.path && d.root != t.root
      requires shape.nodes[d] == dst && shape.nodes[t] == src && |Roots(shape)| <= 255
      requires shape.dying == {} && forall n :: n in shape.building ==> n.root == d.root
      requires Kid(t, i) in shape.nodes && Kid(d, i) !in shape.nodes
      requires Copied(s, shape, d, t, i) && Complete(s, shape, d, t, i)
      requires forall n :: n in s.nodes && n.root == d.root ==> !Under(n.path, d.path)
      modifies this, pmm, pmm.bitmap, pmm.bitmap.bytes, pmm.refs
      ensures Valid() && Copied(s, shape, d, t, i + 1) && Roots(shape) == old(Roots(shape))
      ensures Extends(old(shape), shape) && CopyMarks(old(shape), old(mem), shape, mem, t.root, d.root)
      ensures DataKept(old(mem), mem, old(pmm.counts)) && old(pmm.counts).Keys <= pmm.counts.Keys
      ensures pmm.managed == old(pmm.managed)
      ensures ok ==> Complete(s, shape, d, t, i + 1)
      ensures !ok ==> pmm.Free() == {} && Stuck(s, shape, d, t)
      decreases level, 2
    {
      BeforeEntry(s, shape, mem, d, t, i);
      ghost var a, ma := shape, mem;
      var dstKid;
      dstKid, ok := CopyKid(d, t, src, i, level);
      if dstKid == 0 {
        CopiedMore(s, shape, d, t, i, i + 1);
        StuckAt(s, mem, shape, d, t, i);
        return false;
      }
      ghost var c, m, k := shape, mem, pmm.counts;
      LinkLike(Kid(d, i), t, dst, src, i, dstKid);
      DataKeptAgain(old(mem), old(pmm.counts), m, k, mem);
      MarksAgain(a, ma, c, m, shape, mem, t.root, d.root);
      CopiedEntry(s, a, WithKid(a, d, i, dstKid), c, d, t, i, dstKid);
      if ok {
        CompleteEntry(s, a, WithKid(a, d, i, dstKid), c, d, t, i, dstKid);
      } else {
        StuckBelow(s, mem, a, WithKid(a, d, i, dstKid), c, shape, d, t, i, dstKid);
      }
    }

    static ghost function WithKid(a: Shape, d: Node, i: nat, f: nat): Shape {
      a.(nodes := a.nodes[Kid(d, i) := f], building := a.building + {Kid(d, i)})
    }

    /** A new table for entry `i`, filled from the source but not linked yet. */
    method CopyKid(ghost d: Node, ghost t: Node, src: nat, i: nat, level: nat) returns (f: nat, ok: bool)
      requires Valid() && 1 <= level <= 3 && Depth(t.path) == 3 - level && i < Width(t.path)
      requires d in shape.nodes && t in shape.nodes && d.path == t.path && d.root != t.root
      requires shape.nodes[t] == src && |Roots(shape)| <= 255
      requires shape.dying == {} && forall n :: n in shape.building ==> n.root == d.root
      requires Kid(t, i) in shape.nodes && Kid(d, i) !in shape.nodes
      requires forall n :: n in shape.nodes && n.root == d.root ==> !Under(n.path, Kid(d, i).path)
      modifies this, pmm, pmm.bitmap, pmm.bitmap.bytes, pmm.refs
      ensures Valid() && Roots(shape) == old(Roots(shape)) && pmm.managed == old(pmm.managed)
      ensures DataKept(old(mem), mem, old(pmm.counts)) && old(pmm.counts).Keys <= pmm.counts.Keys
      ensures f == 0 ==> shape == old(shape)
      ensures f != 0 ==> Copied(WithKid(old(shape), d, i, f), shape, Kid(d, i), Kid(t, i), 512)
      ensures f != 0 && ok ==> Complete(WithKid(old(shape), d, i, f), shape, Kid(d, i), Kid(t, i), 512)
      ensures f == 0 || !ok ==> pmm.Free() == {}
      ensures f != 0 && !ok ==> Stuck(WithKid(old(shape), d, i, f), shape, Kid(d, i), Kid(t, i))
      ensures Extends(old(shape), shape) && CopyMarks(old(shape), old(mem), shape, mem, t.root, d.root)
      decreases level, 1
    {
      StepDown(shape, mem, t, i);
      var srcKid := mem[src].ptes[i].frame;
      f := StartKid(d, t, i);
      if f == 0 { return 0, false; }
      ghost var b, m, k := shape, mem, pmm.counts;
      ok := CopyNext(Kid(d, i), Kid(t, i), f, srcKid, level);
      CopyRoots(b, shape, Kid(d, i), Kid(t, i), 512);
      DataKeptAgain(old(mem), old(pmm.counts), m, k, mem);
      MarksAgain(old(shape), old(mem), b, m, shape, mem, t.root, d.root);
    }

    method StartKid(ghost d: Node, ghost t: Node, ghost i: nat) returns (f: nat)
      requires Valid() && d in shape.nodes && t in shape.nodes && d.path == t.path && d.root != t.root
      requires Depth(t.path) < 3 && i < Width(t.path) && |Roots(shape)| <= 255
      requires shape.dying == {} && forall n :: n in shape.building ==> n.root == d.root
      requires Kid(t, i) in shape.nodes && Kid(d, i) !in shape.nodes
      requires forall n :: n in shape.nodes && n.root == d.root ==> !Under(n.path, Kid(d, i).path)
      modifies this, pmm, pmm.bitmap, pmm.bitmap.bytes, pmm.refs
      ensures Valid() && Roots(shape) == old(Roots(shape)) && pmm.managed == old(pmm.managed)
      ensures DataKept(old(mem), mem, old(pmm.counts)) && old(pmm.counts).Keys <= pmm.counts.Keys
      ensures f == 0 ==> shape == old(shape) && pmm.Free() == {}
      ensures f != 0 ==> shape == WithKid(old(shape), d, i, f) && CanCopy(Kid(d, i), Kid(t, i))
      ensures Extends(old(shape), shape) && CopyMarks(old(shape), old(mem), shape, mem, t.root, d.root)
    {
      ghost var s, m, c := shape, mem, pmm.counts;
      f := AllocTable(Kid(d, i));
      NotUnderSelf(Kid(d, i).path);
      assert Roots(shape) == old(Roots(shape));
      FreshTable(s, m, c, shape, mem, f, t.root, d.root);
    }

    /** A store to a frame that was not in use marks nothing. */
    static lemma FreshTable(s: Shape, m: Memory, c: map<nat, nat>, s': Shape, m': Memory, f: nat, src: nat, dst: nat)
      requires Consistent(s, m, c) && Extends(s, s') && (forall n :: n in s'.nodes && Depth(n.path) == 4 ==> n in s.nodes)
      requires f !in c && (forall g :: g in m && g != f ==> g in m' && m'[g] == m[g])
      ensures CopyMarks(s, m, s', m', src, dst)
    {
      FreshSame(s, m, c, m', f);
      KeptMarks(s, m, s', m', src, dst);
    }

    static lemma NothingMarked(s: Shape, m: Memory, src: nat, dst: nat)
      requires NodesOk(s, m)
      ensures CopyMarks(s, m, s, m, src, dst)
    {
      forall n | n in s.nodes && Depth(n.path) == 3 ensures s.nodes[n] in m { assert NodeOk(s, m, n); }
      KeptMarks(s, m, s, m, src, dst);
    }

    /** Enter a copied table with the flags of the entry it was copied from. */
    method LinkLike(ghost n: Node, ghost t: Node, dst: nat, src: nat, i: nat, f: nat)
      requires Valid() && n in shape.building && n in shape.nodes && n.path.Down? && n.path.idx == i && Up(n) in shape.nodes
      requires shape.nodes[Up(n)] == dst && shape.nodes[n] == f
      requires t in shape.nodes && shape.nodes[t] == src && Depth(t.path) < 4 && i < 512
      modifies this
      ensures Valid() && shape == old(shape).(building := old(shape).building - {n})
      ensures DataKept(old(mem), mem, pmm.counts) && CopyMarks(old(shape), old(mem), shape, mem, t.root, n.root)
    {
      ghost var s, m := shape, mem;
      assert NodeOk(shape, mem, t) && NodeOk(shape, mem, n) && Depth(n.path) == Depth(n.path.up) + 1;
      var pte := mem[src].ptes[i];
      Link(n, dst, i, f, Flags(true, pte.writable, pte.user, pte.cow, pte.nx));
      UpperTable(s, m, Up(n), shape, mem, t.root, n.root);
    }

    /** Nor does a store to a table of tables. */
    static lemma UpperTable(s: Shape, m: Memory, u: Node, s': Shape, m': Memory, src: nat, dst: nat)
      requires NodesOk(s, m) && SharingOk(s, m) && u in s.nodes && Depth(u.path) < 3 && s'.nodes == s.nodes
      requires forall g :: g in m && g != s.nodes[u] ==> g in m' && m'[g] == m[g]
      ensures CopyMarks(s, m, s', m', src, dst)
    {
      OtherSame(s, m, u, m');
      KeptMarks(s, m, s', m', src, dst);
    }

    /** The level below: copy_pt or another table of tables. */
    method CopyNext(ghost d: Node, ghost t: Node, dst: nat, src: nat, level: nat) returns (ok: bool)
      requires Valid() && CanCopy(d, t) && 1 <= level <= 3 && Depth(t.path) == 4 - level
      requires shape.nodes[d] == dst && shape.nodes[t] == src
      modifies this, pmm, pmm.bitmap, pmm.bitmap.bytes, pmm.refs
      ensures Valid() && CopyDone(d, t, 512)
      ensures ok ==> Complete(old(shape), shape, d, t, 512)
      ensures !ok ==> pmm.Free() == {} && Stuck(old(shape), shape, d, t)
      decreases level, 0
    {
      if level == 1 {
        CopyPt(d, t, dst, src);
        return true;
      }
      ok := CopyTable(d, t, dst, src, level - 1);
    }

    /** Facts about the copy so far that the next entry needs. */
    static lemma BeforeEntry(s: Shape, a: Shape, mem: Memory, d: Node, t: Node, i: nat)
      requires NodesOk(a, mem) && a.building <= a.nodes.Keys && Copied(s, a, d, t, i)
      requires Kid(d, i) !in a.nodes && Kid(t, i) in a.nodes && d.root != t.root
      ensures Kid(t, i) in s.nodes && Kid(d, i) !in a.building
      ensures forall n :: n in a.nodes && n.root == d.root ==> !Under(n.path, Kid(d, i).path)
      ensures forall n :: n in s.nodes && n.root == t.root && Under(n.path, Kid(t, i).path) ==> Toward(n.path, Kid(t, i).path) < 512
    {
      CopySource(s, a, d, t, i, Kid(t, i));
      forall n | n in a.nodes && n.root == d.root ensures !Under(n.path, Kid(d, i).path) {
        if Under(n.path, Kid(d, i).path) { NoneUnder(a, mem, Kid(d, i), n); }
      }
      forall n | n in s.nodes && n.root == t.root && Under(n.path, Kid(t, i).path)
        ensures Toward(n.path, Kid(t, i).path) < 512
      {
        TowardInside(a, mem, Kid(t, i), n);
      }
    }

    /** pmm_free_page of a page or an emptied table whose parent is being torn down. */
    method FreeNode(ghost n: Node, f: nat)
      requires Valid() && n in shape.nodes && shape.nodes[n] == f && n !in shape.building
      requires n.path.Down? ==> Up(n) in shape.dying
      requires forall m :: m in shape.nodes && m.path.Down? ==> Up(m) != n
      modifies this, pmm, pmm.bitmap, pmm.bitmap.bytes, pmm.refs
      ensures Valid() && mem == old(mem) && pmm.managed == old(pmm.managed)
      ensures shape == old(shape).(nodes := old(shape).nodes - {n}, dying := old(shape).dying - {n})
    {
      InUse(n);
      ghost var s := shape;
      pmm.FreePage(f);
      shape := shape.(nodes := shape.nodes - {n}, dying := shape.dying - {n});
      DropNode(s, mem, old(pmm.counts), n, shape, pmm.counts);
    }

    /** `n` starts to be torn down. */
    ghost method BeginFree(n: Node)
      requires Valid()
      modifies this`shape
      ensures Valid() && shape == old(shape).(dying := old(shape).dying + {n})
    {
      ghost var s := shape;
      shape := shape.(dying := shape.dying + {n});
      SetDying(s, mem, pmm.counts, shape);
    }

    /** Nothing in the subtree at `n` is being built or torn down. */
    ghost predicate Untouched(n: Node)
      reads this
    {
      shape.building == {} && n !in shape.dying && forall m :: m in shape.dying && m.root == n.root ==> !Under(m.path, n.path)
    }

    /** free_user_pt. */
    method FreePt(ghost n: Node, pt: nat)
      requires Valid() && n in shape.nodes && shape.nodes[n] == pt && Depth(n.path) == 3
      requires Untouched(n)
      modifies this, pmm, pmm.bitmap, pmm.bitmap.bytes, pmm.refs
      ensures Valid() && mem == old(mem) && pmm.managed == old(pmm.managed)
      ensures Pruned(old(shape), shape, n, 512) && shape.dying == old(shape).dying + {n}
    {
      ghost var s := shape;
      assert forall m :: m in s.nodes ==> Depth(m.path) <= 4 by {
        forall m | m in s.nodes ensures Depth(m.path) <= 4 { assert NodeOk(s, mem, m); }
      }
      BeginFree(n);
      for i := 0 to 512
        invariant Valid() && mem == old(mem) && pmm.managed == old(pmm.managed)
        invariant Pruned(s, shape, n, i) && shape.dying == s.dying + {n}
      {
        StepDown(s, mem, n, i);
        if mem[pt].ptes[i].present {
          ghost var a := shape;
          assert Under(Kid(n, i).path, n.path);
          FreeLeaf(s, n, pt, i);
          PrunedLeaf(s, a, shape, n, i);
        } else {
          PrunedNothing(s, mem, shape, n, i);
        }
      }
    }

    method FreeLeaf(ghost s: Shape, ghost n: Node, pt: nat, i: nat)
      requires Valid() && Pruned(s, shape, n, i) && NodesOk(s, mem) && i < 512 && IsTable(mem, pt)
      requires Kid(n, i) in s.nodes && mem[pt].ptes[i].frame == s.nodes[Kid(n, i)] && Depth(n.path) == 3
      requires n in shape.dying && shape.building == {}
      modifies this, pmm, pmm.bitmap, pmm.bitmap.bytes, pmm.refs
      ensures Valid() && mem == old(mem) && pmm.managed == old(pmm.managed)
      ensures shape == old(shape).(nodes := old(shape).nodes - {Kid(n, i)}, dying := old(shape).dying - {Kid(n, i)})
    {
      assert Toward(Kid(n, i).path, n.path) == i;
      forall m | m in shape.nodes && m.path.Down? ensures Up(m) != Kid(n, i) {
        assert NodeOk(shape, mem, m);
        assert Depth(m.path) == Depth(Up(m).path) + 1;
      }
      FreeNode(Kid(n, i), mem[pt].ptes[i].frame);
    }

    /** free_user_pd (level 1) and free_user_pdpt (level 2): the same loop at two levels. */
    method FreeTable(ghost n: Node, t: nat, level: nat)
      requires Valid() && n in shape.nodes && shape.nodes[n] == t && 1 <= level <= 2 && Depth(n.path) == 3 - level
      requires Untouched(n)
      modifies this, pmm, pmm.bitmap, pmm.bitmap.bytes, pmm.refs
      ensures Valid() && mem == old(mem) && pmm.managed == old(pmm.managed)
      ensures Pruned(old(shape), shape, n, 512) && shape.dying == old(shape).dying + {n}
      decreases level, 2
    {
      ghost var s := shape;
      BeginFree(n);
      for i := 0 to 512
        invariant Valid() && mem == old(mem) && pmm.managed == old(pmm.managed)
        invariant Pruned(s, shape, n, i) && shape.dying == s.dying + {n}
      {
        StepDown(s, mem, n, i);
        if mem[t].ptes[i].present {
          NotUnderSelf(n.path);
          FreeEntry(s, n, mem[t].ptes[i].frame, i, level);
        } else {
          PrunedNothing(s, mem, shape, n, i);
        }
      }
    }

    /** The subtree at one entry, then the table it leads to. */
    method FreeEntry(ghost s: Shape, ghost n: Node, f: nat, i: nat, level: nat)
      requires Valid() && NodesOk(s, mem) && Pruned(s, shape, n, i) && i < Width(n.path)
      requires 1 <= level <= 3 && Depth(n.path) == 3 - level
      requires Kid(n, i) in s.nodes && s.nodes[Kid(n, i)] == f
      requires n in shape.dying && shape.building == {}
      requires forall m :: m in shape.dying && m.root == n.root ==> !Under(m.path, n.path)
      modifies this, pmm, pmm.bitmap, pmm.bitmap.bytes, pmm.refs
      ensures Valid() && mem == old(mem) && pmm.managed == old(pmm.managed)
      ensures Pruned(s, shape, n, i + 1) && shape.dying == old(shape).dying
      decreases level, 1
    {
      ghost var a := shape;
      ghost var k := Kid(n, i);
      assert Under(k.path, n.path) && Toward(k.path, n.path) == i;
      forall m | m in shape.dying && m.root == k.root ensures !Under(m.path, k.path) { UnderKid(m.path, n.path, i); }
      if level == 1 { FreePt(k, f); } else { FreeTable(k, f, level - 1); }
      ghost var b := shape;
      KidsGone(s, mem, a, b, n, k);
      FreeNode(k, f);
      PrunedEntry(s, a, b, shape, n, i);
    }

    static lemma KidBelow(m: Node, k: Node)
      requires m.path.Down? && m.path.idx < 512
      ensures Up(m) == k ==> Below(m, k, 512)
    {
    }

    static lemma KidsGone(s: Shape, mem: Memory, a: Shape, b: Shape, n: Node, k: Node)
      requires NodesOk(s, mem) && NodesOk(b, mem) && Pruned(a, b, k, 512) && k in a.nodes
      ensures k in b.nodes && b.nodes[k] == a.nodes[k]
      ensures forall m :: m in b.nodes && m.path.Down? ==> Up(m) != k
      ensures forall m :: m in s.nodes && m.root == k.root && Under(m.path, k.path) ==> Toward(m.path, k.path) < 512
    {
      NotUnderSelf(k.path);
      forall m | m in b.nodes && m.path.Down? ensures Up(m) != k {
        assert NodeOk(b, mem, m);
        KidBelow(m, k);
      }
      forall m | m in s.nodes && m.root == k.root && Under(m.path, k.path) ensures Toward(m.path, k.path) < 512 {
        TowardInside(s, mem, k, m);
      }
    }

    /** vmm_free_user_pages: the whole lower half, entry by entry. */
    method FreeUserPages(root: nat)
      requires Valid() && Quiet() && Node(root, Top) in shape.nodes
      modifies this, pmm, pmm.bitmap, pmm.bitmap.bytes, pmm.refs
      ensures Valid() && Quiet() && pmm.managed == old(pmm.managed)
      ensures Pruned(old(shape), shape, Node(root, Top), 256)
      ensures forall f :: f in old(mem) && f != root ==> f in mem && mem[f] == old(mem)[f]
    {
      ghost var s, n := shape, Node(root, Top);
      NotUnderSelf(Top);
      for i := 0 to 256
        invariant Valid() && Quiet() && pmm.managed == old(pmm.managed)
        invariant Pruned(s, shape, n, i)
        invariant forall f :: f in old(mem) && f != root ==> f in mem && mem[f] == old(mem)[f]
      {
        ghost var a := shape;
        assert Pruned(a, a, n, i);
        StepDown(shape, mem, n, i);
        if mem[root].ptes[i].present {
          FreeRootEntry(n, root, i);
        } else {
          PrunedNothing(a, mem, a, n, i);
        }
        PrunedTwice(s, a, shape, n, i);
      }
    }

    /** One entry of vmm_free_user_pages, which also clears it. */
    method FreeRootEntry(ghost n: Node, root: nat, i: nat)
      requires Valid() && Quiet() && n == Node(root, Top) && n in shape.nodes && Kid(n, i) in shape.nodes && i < 256
      requires Pruned(shape, shape, n, i)
      modifies this, pmm, pmm.bitmap, pmm.bitmap.bytes, pmm.refs
      ensures Valid() && Quiet() && pmm.managed == old(pmm.managed)
      ensures Pruned(old(shape), shape, n, i + 1)
      ensures forall f :: f in old(mem) && f != root ==> f in mem && mem[f] == old(mem)[f]
    {
      ghost var a := shape;
      StepDown(shape, mem, n, i);
      NotUnderSelf(n.path);
      BeginFree(n);
      FreeEntry(a, n, mem[root].ptes[i].frame, i, 3);
      assert Below(Kid(n, i), n, i + 1);
      assert n in shape.nodes;
      ghost var b, m := shape, mem;
      mem := mem[root := Table(mem[root].ptes[i := ABSENT])];
      ClearEntry(shape, m, pmm.counts, n, i, ABSENT, mem);
      EndFree(a, m, n, i);
    }

    /** The root is whole again: its remaining entries lead to nodes. */
    ghost method EndFree(a: Shape, m: Memory, n: Node, i: nat)
      requires Valid() && Pruned(a, a, n, i) && Pruned(a, shape, n, i + 1) && NodesOk(a, m)
      requires n in a.nodes && n in shape.nodes && n.path.Top? && n !in a.dying && a.building == {} && shape.dying == {n}
      requires IsTable(m, n.root) && i < 512 && mem == SetPte(m, n.root, i, ABSENT)
      modifies this`shape
      ensures Valid() && shape == old(shape).(dying := {})
    {
      ghost var s := shape;
      shape := shape.(dying := {});
      assert NodeOk(a, m, n) && NodeOk(s, mem, n);
      forall j | 0 <= j < 256 && mem[n.root].ptes[j].present ensures Kid(n, j) in s.nodes {
        assert Kid(n, j) in a.nodes && Toward(Kid(n, j).path, n.path) == j;
        assert Below(Kid(n, j), n, i) <==> j < i;
      }
      SetDying(s, mem, pmm.counts, shape);
    }

    /** vmm_create_pml4 followed by vmm_map_kernel from the entries of the running kernel's root table. */
    method CreateSpace(kernel: seq<Pte>) returns (root: nat)
      requires Valid() && Quiet() && |kernel| == 512
      modifies this, pmm, pmm.bitmap, pmm.bitmap.bytes, pmm.refs
      ensures Valid() && Quiet() && pmm.managed == old(pmm.managed)
      ensures root == 0 <==> old(pmm.Free()) == {}
      ensures root == 0 ==> shape == old(shape) && mem == old(mem) && pmm.counts == old(pmm.counts) && pmm.Free() == old(pmm.Free())
      ensures root != 0 ==>
                && Node(root, Top) !in old(shape.nodes) && root !in old(pmm.counts) && |pmm.Free()| == |old(pmm.Free())| - 1
                && pmm.counts == old(pmm.counts)[root := 1]
                && shape == old(shape).(nodes := old(shape).nodes[Node(root, Top) := root])
                && IsTable(mem, root) && mem == old(mem)[root := mem[root]]
                && forall i :: 256 <= i < 512 && kernel[i].present ==> mem[root].ptes[i] == kernel[i]
    {
      root := pmm.AllocPage();
      if root == 0 { return; }
      ghost var s, m, n := shape, mem, Node(root, Top);
      if n in shape.nodes { assert NodeOk(s, m, n); FreshFrame(s, m, old(pmm.counts), root); }
      mem := mem[root := Table(seq(512, _ => ABSENT))];
      shape := shape.(nodes := shape.nodes[n := root]);
      NewRoot(s, m, old(pmm.counts), root, shape, mem);
      for i := 256 to 512
        invariant Valid() && IsTable(mem, root) && mem == m[root := mem[root]]
        invariant shape == s.(nodes := s.nodes[n := root]) && pmm.counts == old(pmm.counts)[root := 1]
        invariant pmm.managed == old(pmm.managed) && |pmm.Free()| == |old(pmm.Free())| - 1
        invariant forall j :: 256 <= j < i && kernel[j].present ==> mem[root].ptes[j] == kernel[j]
      {
        if kernel[i].present {
          ghost var m' := mem;
          mem := mem[root := Table(mem[root].ptes[i := kernel[i]])];
          KernelEntry(shape, m', pmm.counts, n, i, kernel[i], mem);
        }
      }
    }

    /** A new space has no pages, and the others are as before. */
    lemma NewSpaceEmpty(s: Shape, m: Memory, c: map<nat, nat>, root: nat)
      requires Consistent(s, m, c) && Valid() && Node(root, Top) !in s.nodes && root !in c
      requires shape == s.(nodes := s.nodes[Node(root, Top) := root]) && IsTable(mem, root) && mem == m[root := mem[root]]
      ensures Space(shape, mem, root) == map[]
      ensures forall r :: r != root ==> Space(shape, mem, r) == Space(s, m, r)
      ensures Roots(shape) == Roots(s) + {root} && root !in Roots(s)
    {
      NewRootAlone(s, m, c, shape, root);
      forall r | r != root ensures Space(shape, mem, r) == Space(s, m, r) {
        SpaceKept(s, m, c, shape, mem, pmm.counts, r);
      }
    }

    /** vmm_free_user_pages and the release of the root table: nothing of the space is left. */
    method Destroy(root: nat)
      requires Valid() && Quiet() && Node(root, Top) in shape.nodes
      modifies this, pmm, pmm.bitmap, pmm.bitmap.bytes, pmm.refs
      ensures Valid() && Quiet() && pmm.managed == old(pmm.managed)
      ensures forall n :: n in shape.nodes <==> n in old(shape.nodes) && n.root != root
      ensures forall n :: n in shape.nodes ==> shape.nodes[n] == old(shape.nodes)[n]
      ensures shape == old(shape).(nodes := shape.nodes)
      ensures forall f :: f in old(mem) && f != root ==> f in mem && mem[f] == old(mem)[f]
      ensures Roots(shape) == old(Roots(shape)) - {root}
      ensures forall r :: r != root ==> Space(shape, mem, r) == old(Space(shape, mem, r))
      ensures |pmm.Free()| == |old(pmm.Free())| + |OnlyOf(old(shape), root)|
    {
      ghost var s, m, c, free := shape, mem, pmm.counts, pmm.Free();
      FreeUncounted();
      FreeUserPages(root);
      forall n | n in s.nodes && n.root == root && n.path.Down? ensures Below(n, Node(root, Top), 256) {
        UnderTop(n.path);
        TowardInside(s, m, Node(root, Top), n);
      }
      assert NodeOk(s, m, Node(root, Top));
      FreeNode(Node(root, Top), root);
      assert DataKept(m, mem, c);
      forall r | r != root ensures Space(shape, mem, r) == Space(s, m, r) {
        SpaceKept(s, m, c, shape, mem, pmm.counts, r);
      }
      FreeUncounted();
      FramesFreed(s, m, c, free, shape, mem, pmm.counts, pmm.Free(), root, pmm.base, pmm.managed);
    }

    /** What is left of the entries when a space is gone. */
    static lemma DestroyedEntries(s: Shape, m: Memory, s': Shape, m': Memory, root: nat)
      requires NodesOk(s, m) && SharingOk(s, m) && Node(root, Top) in s.nodes
      requires forall n :: n in s'.nodes <==> n in s.nodes && n.root != root
      requires forall n :: n in s'.nodes ==> s'.nodes[n] == s.nodes[n]
      requires forall f :: f in m && f != root ==> f in m' && m'[f] == m[f]
      ensures EntriesElsewhere(s, m, s', m', root)
    {
      assert NodeOk(s, m, Node(root, Top));
      OtherSame(s, m, Node(root, Top), m');
      forall k: Node | k.root != root ensures EntryKept(s, m, s', m', k) {
        if k in s.nodes { assert NodeOk(s, m, k); }
      }
    }

    lemma FreeUncounted()
      requires pmm.Valid()
      ensures Uncounted(pmm.Free(), pmm.managed, pmm.base, pmm.counts) && Managed(pmm.managed, pmm.base, pmm.counts)
    {
      pmm.FreeIsUncounted();
      pmm.CountedIsManaged();
    }

    /** The address-space part of task_fork, with its rollback. */
    method ForkSpace(src: nat, kernel: seq<Pte>) returns (dst: nat)
      requires Valid() && Quiet() && Node(src, Top) in shape.nodes && |kernel| == 512 && |Roots(shape)| <= 254
      modifies this, pmm, pmm.bitmap, pmm.bitmap.bytes, pmm.refs
      ensures Valid() && Quiet() && pmm.managed == old(pmm.managed)
      // one frame for every table of the space copied
      ensures dst != 0 <==> |old(pmm.Free())| >= |TablesOf(old(shape), src)|
      ensures dst != 0 ==> |pmm.Free()| == |old(pmm.Free())| - |TablesOf(old(shape), src)|
      // failure: every table and reference is given back
      ensures dst == 0 ==> shape == old(shape) && pmm.counts == old(pmm.counts) && pmm.Free() == old(pmm.Free())
      // success: the new space is a copy
      ensures dst != 0 ==> Roots(shape) == old(Roots(shape)) + {dst} && dst !in old(Roots(shape))
      ensures dst != 0 ==> Space(shape, mem, dst) == old(Space(shape, mem, src))
      ensures dst != 0 ==> SharedReadOnly(shape, mem, pmm.counts, src) && SharedReadOnly(shape, mem, pmm.counts, dst)
      // either way every existing space shows what it showed
      ensures forall r :: r in old(Roots(shape)) ==> Space(shape, mem, r) == old(Space(shape, mem, r))
      ensures shape.held == old(shape.held) && shape.others == old(shape.others)
      // either way the pages copied are marked, and no other entry changes
      ensures ForkMarks(old(shape), old(mem), shape, mem, src, |old(pmm.Free())|)
      ensures dst != 0 ==> CopyMarks(old(shape), old(mem), shape, mem, src, dst)
    {
      ghost var s, m, c, free := shape, mem, pmm.counts, pmm.Free();
      FreeUncounted();
      dst := CopySpace(src, kernel);
      if dst == 0 {
        FreeUncounted();
        SameUncounted(free, pmm.Free(), pmm.managed, pmm.base, c);
        forall r ensures Space(shape, mem, r) == Space(s, m, r) { SpaceKept(s, m, c, shape, mem, pmm.counts, r); }
      } else {
        RootPresent(s, m, Node(src, Top));
        SpacesAfterFork(s, m, c, shape, mem, pmm.counts, src, dst);
        AllShared(s, m, shape, mem, pmm.counts, src, dst);
      }
    }

    /** vmm_create_pml4, vmm_map_kernel and vmm_copy_userspace, undone if the copy fails. */
    method CopySpace(src: nat, kernel: seq<Pte>) returns (dst: nat)
      requires Valid() && Quiet() && Node(src, Top) in shape.nodes && |kernel| == 512 && |Roots(shape)| <= 254
      modifies this, pmm, pmm.bitmap, pmm.bitmap.bytes, pmm.refs
      ensures Valid() && Quiet() && pmm.managed == old(pmm.managed) && DataKept(old(mem), mem, old(pmm.counts))
      ensures dst != 0 <==> |old(pmm.Free())| >= |TablesOf(old(shape), src)|
      ensures dst != 0 ==> |pmm.Free()| == |old(pmm.Free())| - |TablesOf(old(shape), src)|
      ensures dst == 0 ==> shape == old(shape) && pmm.counts == old(pmm.counts)
      ensures dst != 0 ==> IsFork(old(shape), shape, src, dst) && Roots(shape) == old(Roots(shape)) + {dst} && dst !in old(Roots(shape))
      ensures ForkMarks(old(shape), old(mem), shape, mem, src, |old(pmm.Free())|)
      ensures dst != 0 ==> CopyMarks(old(shape), old(mem), shape, mem, src, dst)
    {
      ghost var s, m, c, free := shape, mem, pmm.counts, pmm.Free();
      FreeUncounted();
      assert Top in TablesOf(s, src);
      dst := CreateSpace(kernel);
      if dst == 0 {
        NoFrames(s, m, src);
        return;
      }
      NewRootAlone(s, m, c, shape, dst);
      FreshTable(s, m, c, shape, mem, dst, src, dst);
      assert NodeOk(s, m, Node(src, Top));
      var ok := FillSpace(s, m, c, free, src, dst);
      if !ok { dst := 0; }
    }

    /** Without a frame for the root table nothing is marked. */
    static lemma NoFrames(s: Shape, m: Memory, src: nat)
      requires NodesOk(s, m)
      ensures ForkMarks(s, m, s, m, src, 0)
    {
      forall k ensures ForkMarkOk(s, m, s, m, src, 0, k) {
        if k in s.nodes && Depth(k.path) == 4 && k.root == src {
          assert NodeOk(s, m, k);
          RankBounds(s, src, k.path.up);
        }
      }
    }

    method FillSpace(ghost s: Shape, ghost m: Memory, ghost c: map<nat, nat>, ghost free: set<nat>, src: nat, dst: nat) returns (ok: bool)
      requires Valid() && Quiet() && Consistent(s, m, c) && dst !in c && (forall n :: n in s.nodes ==> n.root != dst)
      requires shape == s.(nodes := s.nodes[Node(dst, Top) := dst]) && CanCopy(Node(dst, Top), Node(src, Top))
      requires shape.nodes[Node(src, Top)] == src && DataKept(m, mem, c) && c.Keys <= pmm.counts.Keys
      requires Node(src, Top) in s.nodes && Uncounted(free, pmm.managed, pmm.base, c) && CopyMarks(s, m, shape, mem, src, dst)
      modifies this, pmm, pmm.bitmap, pmm.bitmap.bytes, pmm.refs
      ensures ForkMarks(s, m, shape, mem, src, |free|) && (ok ==> CopyMarks(s, m, shape, mem, src, dst))
      ensures Valid() && Quiet() && pmm.managed == old(pmm.managed) && DataKept(m, mem, c)
      ensures ok <==> |free| >= |TablesOf(s, src)|
      ensures ok ==> |pmm.Free()| == |free| - |TablesOf(s, src)|
      ensures !ok ==> shape == s && pmm.counts == c
      ensures ok ==> IsFork(s, shape, src, dst) && Roots(shape) == old(Roots(shape))
    {
      ghost var s1, m1, c1 := shape, mem, pmm.counts;
      ok := CopyTable(Node(dst, Top), Node(src, Top), dst, src, 3);
      CopyRoots(s1, shape, Node(dst, Top), Node(src, Top), 256);
      DataKeptAgain(m, c, m1, c1, mem);
      MarksAgain(s, m, s1, m1, shape, mem, src, dst);
      FreeUncounted();
      CopyCost(s, m, c, free, s1, shape, mem, pmm.counts, pmm.Free(), src, dst, pmm.base, pmm.managed, ok);
      CopyReach(s, m, c, free, s1, shape, mem, pmm.counts, pmm.Free(), src, dst, pmm.base, pmm.managed, ok);
      if !ok { UndoCopy(s, m, c, s1, src, dst, |free|); }
    }

    /** The pages copied are those in tables that the frames reach to. */
    static lemma CopyReach(s: Shape, m: Memory, c: map<nat, nat>, free: set<nat>, s1: Shape, s2: Shape, m2: Memory, c2: map<nat, nat>,
                           free2: set<nat>, src: nat, dst: nat, base: nat, managed: set<nat>, ok: bool)
      requires Consistent(s, m, c) && Consistent(s2, m2, c2) && Node(src, Top) in s.nodes
      requires s1 == s.(nodes := s.nodes[Node(dst, Top) := dst]) && (forall n :: n in s.nodes ==> n.root != dst)
      requires Copied(s1, s2, Node(dst, Top), Node(src, Top), 256)
      requires ok ==> Complete(s1, s2, Node(dst, Top), Node(src, Top), 256) && |free| >= |TablesOf(s, src)|
      requires !ok ==> free2 == {} && Stuck(s1, s2, Node(dst, Top), Node(src, Top))
      requires Uncounted(free, managed, base, c) && Uncounted(free2, managed, base, c2) && Managed(managed, base, c2)
      requires CopyMarks(s, m, s2, m2, src, dst)
      ensures ForkMarks(s, m, s2, m2, src, |free|)
    {
      if !ok {
        CopyPlusSpace(s, m, c, s1, s2, src, dst);
        FramesTaken(s, m, c, free, s2, m2, c2, free2, dst, base, managed);
      }
      forall k ensures ForkMarkOk(s, m, s2, m2, src, |free|, k) {
        assert MarkOk(s, m, s2, m2, src, dst, k);
        if k in s.nodes && Depth(k.path) == 4 && k.root == src {
          assert NodeOk(s, m, k);
          RankBounds(s, src, k.path.up);
          if ok { PageCopied(s, m, s1, s2, src, dst, k); } else { PageReached(s, m, s1, s2, src, dst, k); }
        }
      }
    }

    static lemma PageCopied(s: Shape, m: Memory, s1: Shape, s2: Shape, src: nat, dst: nat, k: Node)
      requires NodesOk(s, m) && k in s.nodes && k.root == src && src != dst && Depth(k.path) == 4
      requires s1 == s.(nodes := s.nodes[Node(dst, Top) := dst]) && Complete(s1, s2, Node(dst, Top), Node(src, Top), 256)
      ensures Node(dst, k.path) in s2.nodes
    {
      UnderTop(k.path);
      TowardInside(s, m, Node(src, Top), k);
      assert k in s1.nodes;
    }

    static lemma PageReached(s: Shape, m: Memory, s1: Shape, s2: Shape, src: nat, dst: nat, k: Node)
      requires NodesOk(s, m) && k in s.nodes && k.root == src && src != dst && Depth(k.path) == 4 && Node(src, Top) in s.nodes
      requires s1 == s.(nodes := s.nodes[Node(dst, Top) := dst]) && (forall n :: n in s.nodes ==> n.root != dst)
      requires Copied(s1, s2, Node(dst, Top), Node(src, Top), 256) && Stuck(s1, s2, Node(dst, Top), Node(src, Top))
      requires TablesOf(s2, dst) <= TablesOf(s, src)
      ensures NewCopy(s, s2, src, dst, k) <==> CopyRank(s, src, k.path.up) <= |TablesOf(s2, dst)|
    {
      var x: Path :| StopsAt(s1, s2, Node(dst, Top), Node(src, Top), x);
      var done := TablesOf(s2, dst);
      assert NodeOk(s, m, k);
      NodeProper(s, m, Node(src, x));
      NodeProper(s, m, k);
      EarlierAbove(x, Top);
      forall p ensures p in done <==> p in TablesOf(s, src) && Earlier(p, x) {
        if p in TablesOf(s, src) && p.Down? {
          UnderTop(p);
          assert Node(src, p) in s1.nodes;
        }
      }
      UnderTop(k.path);
      assert k in s1.nodes && k.path.up in TablesOf(s, src);
      RankReached(s, src, done, x, k.path.up);
      PageWithTable(k.path, x);
    }

    /** A complete copy took a frame for every table; one that got stuck took all there were, and there were fewer. */
    static lemma CopyCost(s: Shape, m: Memory, c: map<nat, nat>, free: set<nat>, s1: Shape, s2: Shape, m2: Memory, c2: map<nat, nat>,
                          free2: set<nat>, src: nat, dst: nat, base: nat, managed: set<nat>, ok: bool)
      requires Consistent(s, m, c) && Consistent(s2, m2, c2) && Node(src, Top) in s.nodes
      requires s1 == s.(nodes := s.nodes[Node(dst, Top) := dst]) && (forall n :: n in s.nodes ==> n.root != dst)
      requires Copied(s1, s2, Node(dst, Top), Node(src, Top), 256)
      requires ok ==> Complete(s1, s2, Node(dst, Top), Node(src, Top), 256)
      requires !ok ==> free2 == {} && Stuck(s1, s2, Node(dst, Top), Node(src, Top))
      requires Uncounted(free, managed, base, c) && Uncounted(free2, managed, base, c2) && Managed(managed, base, c2)
      ensures ok ==> |free| == |free2| + |TablesOf(s, src)|
      ensures !ok ==> |free| < |TablesOf(s, src)|
    {
      CopyPlusSpace(s, m, c, s1, s2, src, dst);
      FramesTaken(s, m, c, free, s2, m2, c2, free2, dst, base, managed);
      SmallerSize(TablesOf(s2, dst), TablesOf(s, src));
      if ok {
        forall p | p in TablesOf(s, src) ensures p in TablesOf(s2, dst) { TableCopied(s, m, s1, s2, src, dst, p); }
        assert TablesOf(s2, dst) == TablesOf(s, src);
      } else {
        var p: Path :| StopsAt(s1, s2, Node(dst, Top), Node(src, Top), p);
        assert p in TablesOf(s2, src) && p !in TablesOf(s2, dst);
      }
    }

    static lemma TableCopied(s: Shape, m: Memory, s1: Shape, s2: Shape, src: nat, dst: nat, p: Path)
      requires NodesOk(s, m) && p in TablesOf(s, src) && src != dst && s1 == s.(nodes := s.nodes[Node(dst, Top) := dst])
      requires Copied(s1, s2, Node(dst, Top), Node(src, Top), 256) && Complete(s1, s2, Node(dst, Top), Node(src, Top), 256)
      ensures p in TablesOf(s2, dst)
    {
      if p.Down? {
        UnderTop(p);
        TowardInside(s, m, Node(src, Top), Node(src, p));
        assert Node(src, p) in s1.nodes;
      } else {
        assert Node(dst, Top) in s1.nodes;
      }
    }

    /** vmm_free_user_pages and pmm_free_page after a failed copy. */
    method UndoCopy(ghost s: Shape, ghost m: Memory, ghost c: map<nat, nat>, ghost s1: Shape, ghost src: nat, dst: nat, ghost n: nat)
      requires Valid() && Quiet() && Node(dst, Top) in shape.nodes && Consistent(s, m, c) && dst !in c
      requires s1 == s.(nodes := s.nodes[Node(dst, Top) := dst]) && (forall n :: n in s.nodes ==> n.root != dst)
      requires Copied(s1, shape, Node(dst, Top), Node(src, Top), 256) && DataKept(m, mem, c) && ForkMarks(s, m, shape, mem, src, n)
      modifies this, pmm, pmm.bitmap, pmm.bitmap.bytes, pmm.refs
      ensures Valid() && pmm.managed == old(pmm.managed)
      ensures shape == s && pmm.counts == c && DataKept(m, mem, c) && ForkMarks(s, m, shape, mem, src, n)
    {
      ghost var s2, m2 := shape, mem;
      Destroy(dst);
      RolledBack(s, s1, s2, shape, Node(src, Top), dst);
      CountsDetermined(s, c, shape, pmm.counts);
      MarksStay(s, m, c, s2, m2, mem, src, dst, n);
    }

    /** The rollback restores no entry. */
    static lemma MarksStay(s: Shape, m: Memory, c: map<nat, nat>, s2: Shape, m2: Memory, m3: Memory, src: nat, dst: nat, n: nat)
      requires Consistent(s, m, c) && NodesOk(s2, m2) && dst !in c && Extends(s, s2) && ForkMarks(s, m, s2, m2, src, n)
      requires forall f :: f in m2 && f != dst ==> f in m3 && m3[f] == m2[f]
      ensures ForkMarks(s, m, s, m3, src, n)
    {
      forall k ensures ForkMarkOk(s, m, s, m3, src, n, k) {
        assert ForkMarkOk(s, m, s2, m2, src, n, k);
        if k in s.nodes && Depth(k.path) == 4 {
          assert NodeOk(s, m, k) && NodeOk(s2, m2, Up(k));
          assert FrameOk(s, c, s.nodes[Up(k)]) && Up(k) in Users(s.nodes, s.nodes[Up(k)]);
        }
      }
    }

    /** `s2` is `s` plus a complete copy, rooted at `dst`, of the space at `src`. */
    static ghost predicate IsFork(s: Shape, s2: Shape, src: nat, dst: nat) {
      var s1 := s.(nodes := s.nodes[Node(dst, Top) := dst]);
      && (forall n :: n in s.nodes ==> n.root != dst)
      && Copied(s1, s2, Node(dst, Top), Node(src, Top), 256)
      && Complete(s1, s2, Node(dst, Top), Node(src, Top), 256)
    }

    /** After a fork every page has two users, both of them read-only and marked copy-on-write. */
    static lemma AllShared(s: Shape, m: Memory, s2: Shape, m2: Memory, c2: map<nat, nat>, src: nat, dst: nat)
      requires NodesOk(s, m) && Consistent(s2, m2, c2) && src != dst && IsFork(s, s2, src, dst)
      ensures SharedReadOnly(s2, m2, c2, src) && SharedReadOnly(s2, m2, c2, dst)
    {
      forall p | Depth(p) == 4 && (Node(src, p) in s2.nodes || Node(dst, p) in s2.nodes)
        ensures PageShared(s2, m2, c2, Node(src, p)) && PageShared(s2, m2, c2, Node(dst, p))
      {
        PageHasCopy(s, m, s2, src, dst, p);
        SharedPage(s2, m2, c2, Node(src, p), Node(dst, p));
        SharedPage(s2, m2, c2, Node(dst, p), Node(src, p));
      }
    }

    static lemma PageHasCopy(s: Shape, m: Memory, s2: Shape, src: nat, dst: nat, p: Path)
      requires NodesOk(s, m) && src != dst && IsFork(s, s2, src, dst) && Depth(p) == 4
      requires Node(src, p) in s2.nodes || Node(dst, p) in s2.nodes
      ensures Node(src, p) in s2.nodes && Node(dst, p) in s2.nodes && s2.nodes[Node(src, p)] == s2.nodes[Node(dst, p)]
    {
      var s1 := s.(nodes := s.nodes[Node(dst, Top) := dst]);
      var n, k := Node(dst, p), Node(src, p);
      assert n in s2.nodes && n !in s1.nodes ==> IsCopy(s1, s2, Node(dst, Top), Node(src, Top), n);
      assert k in s2.nodes && k !in s1.nodes ==> IsCopy(s1, s2, Node(dst, Top), Node(src, Top), k);
      if k in s.nodes {
        UnderTop(p);
        TowardInside(s, m, Node(src, Top), k);
        assert k in s1.nodes;
      }
    }

    static lemma SharedPage(s: Shape, m: Memory, c: map<nat, nat>, n: Node, k: Node)
      requires Consistent(s, m, c) && n in s.nodes && k in s.nodes && n != k && Depth(n.path) == 4 && s.nodes[n] == s.nodes[k]
      ensures PageShared(s, m, c, n)
    {
      assert PairOk(s, m, n, k) && NodeOk(s, m, n);
      var us := Users(s.nodes, s.nodes[n]);
      assert FrameOk(s, c, s.nodes[n]) && n in us && k in us;
      assert |us| == |us - {n}| + 1 && k in us - {n};
    }

    static lemma ForkedPage(s: Shape, m: Memory, c: map<nat, nat>, s2: Shape, m2: Memory, src: nat, dst: nat, p: Path)
      requires Consistent(s, m, c) && DataKept(m, m2, c) && src != dst && IsFork(s, s2, src, dst) && Depth(p) == 4
      ensures SamePage(s, m, src, s2, m2, dst, p)
    {
      var s1 := s.(nodes := s.nodes[Node(dst, Top) := dst]);
      var n, k := Node(dst, p), Node(src, p);
      assert n in s2.nodes && n !in s1.nodes ==> IsCopy(s1, s2, Node(dst, Top), Node(src, Top), n);
      if k in s.nodes {
        UnderTop(p);
        TowardInside(s, m, Node(src, Top), k);
        assert k in s1.nodes;
        PageInUse(s, m, c, k);
      }
    }

    static lemma OtherSpaces(s: Shape, m: Memory, c: map<nat, nat>, s2: Shape, m2: Memory, c2: map<nat, nat>, src: nat, dst: nat, r: nat)
      requires Consistent(s, m, c) && Consistent(s2, m2, c2) && DataKept(m, m2, c) && IsFork(s, s2, src, dst) && r != dst
      ensures Space(s2, m2, r) == Space(s, m, r)
    {
      var s1 := s.(nodes := s.nodes[Node(dst, Top) := dst]);
      forall n | n in s2.nodes && n.root == r ensures n in s.nodes {
        assert n !in s1.nodes ==> IsCopy(s1, s2, Node(dst, Top), Node(src, Top), n);
      }
      SpaceKept(s, m, c, s2, m2, c2, r);
    }

    static lemma SpacesAfterFork(s: Shape, m: Memory, c: map<nat, nat>, s2: Shape, m2: Memory, c2: map<nat, nat>, src: nat, dst: nat)
      requires Consistent(s, m, c) && Consistent(s2, m2, c2) && DataKept(m, m2, c) && src != dst && IsFork(s, s2, src, dst)
      ensures Space(s2, m2, dst) == Space(s, m, src)
      ensures forall r :: r != dst ==> Space(s2, m2, r) == Space(s, m, r)
    {
      forall p | Depth(p) == 4 ensures SamePage(s, m, src, s2, m2, dst, p) {
        ForkedPage(s, m, c, s2, m2, src, dst, p);
      }
      SpaceSame(s, m, c, src, s2, m2, c2, dst);
      forall r | r != dst ensures Space(s2, m2, r) == Space(s, m, r) {
        OtherSpaces(s, m, c, s2, m2, c2, src, dst, r);
      }
    }

    static lemma NewRootAlone(s: Shape, mem: Memory, c: map<nat, nat>, s1: Shape, dst: nat)
      requires Consistent(s, mem, c) && Node(dst, Top) !in s.nodes
      requires s1 == s.(nodes := s.nodes[Node(dst, Top) := dst])
      ensures forall n :: n in s.nodes ==> n.root != dst
      ensures forall n :: n in s1.nodes && n.root == dst ==> !Under(n.path, Top)
      ensures Roots(s1) == Roots(s) + {dst} && dst !in Roots(s) && |Roots(s1)| == |Roots(s)| + 1
    {
      forall n | n in s.nodes ensures n.root != dst { RootPresent(s, mem, n); }
    }

    /** What CopyTable added was all below the new root, and is all gone. */
    static lemma RolledBack(s: Shape, s1: Shape, s2: Shape, s3: Shape, t: Node, dst: nat)
      requires s1 == s.(nodes := s.nodes[Node(dst, Top) := dst]) && (forall n :: n in s.nodes ==> n.root != dst)
      requires Copied(s1, s2, Node(dst, Top), t, 256)
      requires forall n :: n in s3.nodes <==> n in s2.nodes && n.root != dst
      requires forall n :: n in s3.nodes ==> s3.nodes[n] == s2.nodes[n]
      requires s3 == s2.(nodes := s3.nodes)
      ensures s3 == s
    {
      forall n ensures n in s3.nodes <==> n in s.nodes {
        assert n in s2.nodes && n !in s1.nodes ==> IsCopy(s1, s2, Node(dst, Top), t, n);
      }
      assert s3.nodes == s.nodes;
    }

    /** pmm_alloc_page for a page, with the bytes the caller stores in it. */
    method HoldFresh(bytes: seq<bv8>) returns (f: nat)
      requires Valid() && Quiet() && |bytes| == 4096
      modifies this, pmm, pmm.bitmap, pmm.bitmap.bytes, pmm.refs
      ensures Valid() && Quiet() && pmm.managed == old(pmm.managed)
      ensures f == 0 ==> shape == old(shape) && mem == old(mem) && pmm.counts == old(pmm.counts) && pmm.Free() == {}
      ensures f == 0 <==> old(pmm.Free()) == {}
      ensures f != 0 ==>
                && f !in old(pmm.counts) && f !in old(shape.held) && pmm.counts == old(pmm.counts)[f := 1]
                && |pmm.Free()| == |old(pmm.Free())| - 1
                && shape == old(shape).(held := old(shape.held) + {f}) && mem == old(mem)[f := Data(bytes)]
      ensures forall r :: Space(shape, mem, r) == old(Space(shape, mem, r))
      ensures EntriesKept(old(shape), old(mem), shape, mem)
    {
      f := pmm.AllocPage();
      if f == 0 { return; }
      ghost var s, m := shape, mem;
      FreshFrame(s, m, old(pmm.counts), f);
      mem := mem[f := Data(bytes)];
      shape := shape.(held := shape.held + {f});
      HoldPage(s, m, old(pmm.counts), f, bytes, shape, mem);
      FreshSame(s, m, old(pmm.counts), mem, f);
      SameEntries(s, m, shape, mem);
      forall r ensures Space(shape, mem, r) == Space(s, m, r) { SameLeaves(s, m, old(pmm.counts), shape, mem, pmm.counts, r); }
    }

    /** pmm_free_page of a page that was not mapped. */
    method Unhold(f: nat)
      requires Valid() && f in shape.held
      modifies this, pmm, pmm.bitmap, pmm.bitmap.bytes, pmm.refs
      ensures Valid() && mem == old(mem) && pmm.managed == old(pmm.managed)
      ensures shape == old(shape).(held := old(shape).held - {f})
    {
      assert FrameOk(shape, pmm.counts, f);
      ghost var s := shape;
      pmm.FreePage(f);
      shape := shape.(held := shape.held - {f});
      UnholdPage(s, mem, old(pmm.counts), f, shape);
    }

    /** pmm_alloc_page for another part of the kernel: no space changes. */
    method Lend() returns (f: nat)
      requires Valid() && Quiet()
      modifies this, pmm, pmm.bitmap, pmm.bitmap.bytes, pmm.refs
      ensures Valid() && Quiet() && pmm.managed == old(pmm.managed) && mem == old(mem)
      ensures f == 0 <==> old(pmm.Free()) == {}
      ensures f == 0 ==> shape == old(shape) && pmm.Free() == old(pmm.Free())
      ensures f != 0 ==> f !in old(pmm.counts) && f !in old(shape.others) && |pmm.Free()| == |old(pmm.Free())| - 1
      ensures f != 0 ==> shape == old(shape).(others := old(shape.others)[f := 1])
      ensures forall r :: Space(shape, mem, r) == old(Space(shape, mem, r))
    {
      f := pmm.AllocPage();
      if f == 0 { return; }
      ghost var s, c := shape, old(pmm.counts);
      assert FrameOk(s, c, f);
      shape := shape.(others := shape.others[f := 1]);
      TakeOther(s, mem, c, f, shape);
      forall r ensures Space(shape, mem, r) == Space(s, mem, r) { SameLeaves(s, mem, c, shape, mem, pmm.counts, r); }
    }

    /** pmm_free_page by that part. */
    method TakeBack(f: nat)
      requires Valid() && Quiet() && f in shape.others
      modifies this, pmm, pmm.bitmap, pmm.bitmap.bytes, pmm.refs
      ensures Valid() && Quiet() && pmm.managed == old(pmm.managed) && mem == old(mem)
      ensures shape == old(shape).(others := Drop(old(shape.others), f))
      ensures |pmm.Free()| == |old(pmm.Free())| + if old(shape.others)[f] == 1 then 1 else 0
      ensures forall r :: Space(shape, mem, r) == old(Space(shape, mem, r))
    {
      ghost var s, c := shape, pmm.counts;
      GiveBack(f);
      shape := shape.(others := Drop(shape.others, f));
      GiveOther(s, mem, c, f, shape);
      forall r ensures Space(shape, mem, r) == Space(s, mem, r) { SameLeaves(s, mem, c, shape, mem, pmm.counts, r); }
    }

    method GiveBack(f: nat)
      requires Valid() && f in shape.others
      modifies pmm, pmm.bitmap, pmm.bitmap.bytes, pmm.refs
      ensures pmm.Valid() && pmm.managed == old(pmm.managed) && pmm.counts == Drop(old(pmm.counts), f)
      ensures |pmm.Free()| == |old(pmm.Free())| + if shape.others[f] == 1 then 1 else 0
    {
      assert FrameOk(shape, pmm.counts, f);
      FreeUncounted();
      pmm.FreePage(f);
    }

    /** Allocate, fill and map one page; give the page back when it cannot be mapped. */
    method MapFresh(root: nat, virt: nat, bytes: seq<bv8>, flags: Flags) returns (ok: bool)
      requires Valid() && Quiet() && Node(root, Top) in shape.nodes && IsUser(virt) && |bytes| == 4096 && flags.present
      modifies this, pmm, pmm.bitmap, pmm.bitmap.bytes, pmm.refs
      ensures Valid() && Quiet() && pmm.managed == old(pmm.managed)
      ensures shape.held == old(shape.held) && shape.others == old(shape.others) && Roots(shape) == old(Roots(shape))
      ensures ok <==> PagePath(virt) !in old(Space(shape, mem, root)) && |old(pmm.Free())| > Missing(old(shape), root, virt)
      ensures ok ==> |pmm.Free()| == |old(pmm.Free())| - 1 - Missing(old(shape), root, virt)
      ensures ok ==> Leaf(root, virt) in shape.nodes && LeafPte(shape, mem, Leaf(root, virt)) ==
                     Pte(true, shape.nodes[Leaf(root, virt)], flags.writable, flags.user, flags.cow, flags.nx)
      ensures Space(shape, mem, root) ==
              if ok then old(Space(shape, mem, root))[PagePath(virt) := bytes] else old(Space(shape, mem, root))
      ensures forall r :: r != root ==> Space(shape, mem, r) == old(Space(shape, mem, r))
      ensures Grown(old(shape), shape) && AddedOn(old(shape), shape, root, virt)
      ensures exists f :: f !in old(pmm.counts) && NewLeafOnly(old(shape), shape, Leaf(root, virt), f)
      ensures EntriesKept(old(shape), old(mem), shape, mem)
    {
      ghost var s, m, c := shape, mem, pmm.counts;
      var f := HoldFresh(bytes);
      if f == 0 {
        assert 0 !in c && NewLeafOnly(s, shape, Leaf(root, virt), 0);
        return false;
      }
      assert Missing(shape, root, virt) == Missing(s, root, virt);
      ghost var s1, m1 := shape, mem;
      ok := MapOrDrop(root, virt, f, flags);
      KeptTwice(s, m, s1, m1, shape, mem);
    }

    /** Map a page that is held, or give it back. */
    method MapOrDrop(root: nat, virt: nat, f: nat, flags: Flags) returns (ok: bool)
      requires Valid() && Quiet() && Node(root, Top) in shape.nodes && IsUser(virt) && f in shape.held && flags.present
      requires IsData(mem, f)
      modifies this, pmm, pmm.bitmap, pmm.bitmap.bytes, pmm.refs
      ensures Valid() && Quiet() && pmm.managed == old(pmm.managed)
      ensures shape.held == old(shape.held) - {f} && shape.others == old(shape.others) && Roots(shape) == old(Roots(shape))
      ensures ok <==> PagePath(virt) !in old(Space(shape, mem, root)) && |old(pmm.Free())| >= Missing(old(shape), root, virt)
      ensures ok ==> |pmm.Free()| == |old(pmm.Free())| - Missing(old(shape), root, virt)
      ensures ok ==> Leaf(root, virt) in shape.nodes && LeafPte(shape, mem, Leaf(root, virt)) ==
                     Pte(true, shape.nodes[Leaf(root, virt)], flags.writable, flags.user, flags.cow, flags.nx)
      ensures Space(shape, mem, root) ==
              if ok then old(Space(shape, mem, root))[PagePath(virt) := old(mem)[f].bytes] else old(Space(shape, mem, root))
      ensures forall r :: r != root ==> Space(shape, mem, r) == old(Space(shape, mem, r))
      ensures Grown(old(shape), shape) && AddedOn(old(shape), shape, root, virt) && NewLeafOnly(old(shape), shape, Leaf(root, virt), f)
      ensures EntriesKept(old(shape), old(mem), shape, mem)
    {
      ghost var s, m, c := shape, mem, pmm.counts;
      assert FrameOk(s, c, f);
      ok := MapPage(root, virt, f, flags);
      GrownRoots(s, shape);
      OnlyNewLeaf(s, shape, Leaf(root, virt), f, ok);
      PathDepth(virt);
      SpaceAt(s, m, c, root, PagePath(virt));
      if ok {
        assert Leaf(root, virt) in Leaves(shape);
        SpaceMapped(s, m, c, shape, mem, pmm.counts, Leaf(root, virt), f);
      } else {
        ghost var s1 := shape;
        Unhold(f);
        SameNodes(s, m, s1, shape, mem);
        forall r ensures Space(shape, mem, r) == Space(s, m, r) { SameLeaves(s, m, c, shape, mem, pmm.counts, r); }
      }
    }

    static lemma OnlyNewLeaf(s: Shape, s': Shape, n: Node, f: nat, ok: bool)
      requires Leaves(s') == if ok then Leaves(s)[n := f] else Leaves(s)
      ensures NewLeafOnly(s, s', n, f)
    {
      forall k | k in s'.nodes && Depth(k.path) == 4 && k !in s.nodes ensures k == n && s'.nodes[k] == f {
        assert k in Leaves(s') && k !in Leaves(s);
      }
    }

    /** vmm_handle_cow_fault: a copy-on-write page becomes writable, and no space shows anything new. */
    method HandleCowFault(root: nat, virt: nat) returns (ok: bool)
      requires Valid() && Quiet() && Node(root, Top) in shape.nodes && IsUser(virt)
      modifies this, pmm, pmm.bitmap, pmm.bitmap.bytes, pmm.refs
      ensures Valid() && Quiet() && pmm.managed == old(pmm.managed) && shape == old(shape).(nodes := shape.nodes)
      ensures shape.nodes.Keys == old(shape.nodes).Keys
      ensures ok ==> Leaf(root, virt) in shape.nodes
      ensures ok ==> LeafPte(shape, mem, Leaf(root, virt)) ==
                     old(LeafPte(shape, mem, Leaf(root, virt))).(frame := shape.nodes[Leaf(root, virt)], cow := false, writable := true)
      ensures !ok ==> shape == old(shape) && mem == old(mem) && pmm.counts == old(pmm.counts) && pmm.Free() == old(pmm.Free())
      ensures ok ==> |pmm.Free()| == |old(pmm.Free())| - if Single(old(pmm.counts), old(shape.nodes)[Leaf(root, virt)]) then 0 else 1
      ensures !ok <==>
              || Leaf(root, virt) !in old(shape.nodes)
              || !old(LeafPte(shape, mem, Leaf(root, virt))).cow
              || (!Single(old(pmm.counts), old(shape.nodes)[Leaf(root, virt)]) && old(pmm.Free()) == {})
      ensures forall r :: Space(shape, mem, r) == old(Space(shape, mem, r))
      ensures EntriesBut(old(shape), old(mem), shape, mem, Leaf(root, virt))
    {
      var pt := FindPt(root, virt);
      if pt == 0 { return false; }
      ghost var n1 := Node(root, TablePath(virt));
      ghost var n := Leaf(root, virt);
      PathDepth(virt);
      StepDown(shape, mem, n1, Index(virt, 0));
      assert Kid(n1, Index(virt, 0)) == n && Up(n) == n1;
      var pte := mem[pt].ptes[Index(virt, 0)];
      if !pte.present || !pte.cow { return false; }
      InUse(n);
      var refs := pmm.GetRefcount(pte.frame);
      if refs == 1 {
        TakeOver(n, pt, Index(virt, 0), pte);
        return true;
      }
      ok := CopyPage(n, pt, Index(virt, 0), pte);
    }

    /** The only user makes its entry writable again. */
    method TakeOver(ghost n: Node, pt: nat, i: nat, pte: Pte)
      requires Valid() && Quiet() && n in shape.nodes && Depth(n.path) == 4 && n.path.idx == i && i < 512
      requires Up(n) in shape.nodes && shape.nodes[Up(n)] == pt && IsTable(mem, pt) && mem[pt].ptes[i] == pte
      requires pte.present && pte.frame == shape.nodes[n] && pte.frame in pmm.counts && pmm.counts[pte.frame] == 1
      modifies this
      ensures Valid() && shape == old(shape) && LeafPte(shape, mem, n) == pte.(cow := false, writable := true)
      ensures forall r :: Space(shape, mem, r) == old(Space(shape, mem, r))
      ensures EntriesBut(old(shape), old(mem), shape, mem, n)
    {
      ghost var m := mem;
      assert NodeOk(shape, mem, n);
      mem := mem[pt := Table(mem[pt].ptes[i := pte.(cow := false, writable := true)])];
      MakeWritable(shape, m, pmm.counts, n, pte.(cow := false, writable := true), mem);
      assert 0 !in pmm.counts by { pmm.CountedIsManaged(); }
      OneEntryFresh(shape, m, pmm.counts, n, pte.(cow := false, writable := true), 0, shape, mem);
      forall r ensures Space(shape, mem, r) == Space(shape, m, r) {
        SpaceKept(shape, m, pmm.counts, shape, mem, pmm.counts, r);
      }
    }

    /** One of several users moves to a copy of its own. */
    method CopyPage(ghost n: Node, pt: nat, i: nat, pte: Pte) returns (ok: bool)
      requires Valid() && Quiet() && n in shape.nodes && Depth(n.path) == 4 && n.path.idx == i && i < 512
      requires Up(n) in shape.nodes && shape.nodes[Up(n)] == pt && IsTable(mem, pt) && mem[pt].ptes[i] == pte
      requires pte.present && pte.frame == shape.nodes[n] && pte.frame in pmm.counts && pmm.counts[pte.frame] > 1
      modifies this, pmm, pmm.bitmap, pmm.bitmap.bytes, pmm.refs
      ensures Valid() && pmm.managed == old(pmm.managed)
      ensures ok <==> old(pmm.Free()) != {}
      ensures !ok ==> shape == old(shape) && mem == old(mem) && pmm.counts == old(pmm.counts) && pmm.Free() == old(pmm.Free())
      ensures ok ==> |pmm.Free()| == |old(pmm.Free())| - 1
      ensures ok ==> shape.nodes.Keys == old(shape.nodes).Keys && shape == old(shape).(nodes := shape.nodes)
      ensures ok ==> n in shape.nodes && LeafPte(shape, mem, n) == pte.(frame := shape.nodes[n], cow := false, writable := true)
      ensures forall r :: Space(shape, mem, r) == old(Space(shape, mem, r))
      ensures EntriesBut(old(shape), old(mem), shape, mem, n)
    {
      var f := pmm.AllocPage();
      if f == 0 { return false; }
      ghost var s, m, c := shape, mem, old(pmm.counts);
      FreshFrame(s, m, c, f);
      MoveTo(c, n, pt, i, pte, f);
      OneEntryFresh(s, m, c, n, pte.(frame := f, cow := false, writable := true), f, shape, mem);
      forall r ensures Space(shape, mem, r) == Space(s, m, r) {
        MovedSpace(s, m, c, shape, mem, pmm.counts, n, f, pt, r);
      }
      return true;
    }

    /** Copy the bytes, drop the old reference, point the entry at the copy. */
    method MoveTo(ghost c: map<nat, nat>, ghost n: Node, pt: nat, i: nat, pte: Pte, f: nat)
      requires pmm.Valid() && Consistent(shape, mem, c) && f !in c && pmm.counts == c[f := 1]
      requires Quiet() && n in shape.nodes && Depth(n.path) == 4 && n.path.idx == i && i < 512
      requires Up(n) in shape.nodes && shape.nodes[Up(n)] == pt && IsTable(mem, pt) && mem[pt].ptes[i] == pte && f != pt
      requires pte.present && pte.frame == shape.nodes[n] && pte.frame in c && c[pte.frame] > 1
      modifies this, pmm, pmm.bitmap, pmm.bitmap.bytes, pmm.refs
      ensures Valid() && pmm.managed == old(pmm.managed) && pmm.Free() == old(pmm.Free())
      ensures shape == old(shape).(nodes := old(shape).nodes[n := f])
      ensures LeafPte(shape, mem, n) == pte.(frame := f, cow := false, writable := true)
      ensures old(shape).nodes[n] in old(mem) && f in mem && mem[f] == old(mem)[old(shape).nodes[n]]
      ensures pt in mem && mem[pt] == Table(old(mem)[pt].ptes[i := pte.(frame := f, cow := false, writable := true)])
      ensures forall g :: g in old(mem) && g != f && g != pt ==> g in mem && mem[g] == old(mem)[g]
    {
      ghost var s, m := shape, mem;
      assert NodeOk(s, m, n);
      var copy := pte.(frame := f, cow := false, writable := true);
      mem := mem[f := mem[pte.frame]];
      pmm.FreePage(pte.frame);
      mem := mem[pt := Table(mem[pt].ptes[i := copy])];
      shape := shape.(nodes := shape.nodes[n := f]);
      Unshare(s, m, c, n, f, copy, shape, mem, pmm.counts);
    }

    /** Moving a page to a frame with the same bytes changes no space. */
    static lemma MovedSpace(s: Shape, m: Memory, c: map<nat, nat>, s': Shape, m': Memory, c': map<nat, nat>,
                            n: Node, f: nat, pt: nat, r: nat)
      requires Consistent(s, m, c) && Consistent(s', m', c') && n in s.nodes && s' == s.(nodes := s.nodes[n := f])
      requires s.nodes[n] in m && f in m' && m'[f] == m[s.nodes[n]]
      requires forall g :: g in m && g != f && g != pt ==> g in m' && m'[g] == m[g]
      requires f !in c && IsTable(m, pt)
      ensures Space(s', m', r) == Space(s, m, r)
    {
      forall p | Depth(p) == 4 ensures SamePage(s, m, r, s', m', r, p) {
        if Node(r, p) in s.nodes { PageInUse(s, m, c, Node(r, p)); }
      }
      SpaceSame(s, m, c, r, s', m', c', r);
    }

    /** The store itself, through a writable entry: no other page has that frame. */
    method WriteThrough(ghost n: Node, f: nat, offset: nat, value: bv8)
      requires Valid() && Quiet() && n in shape.nodes && shape.nodes[n] == f && Depth(n.path) == 4 && offset < 4096
      requires LeafPte(shape, mem, n).writable
      modifies this
      ensures Valid() && shape == old(shape)
      ensures Space(shape, mem, n.root) == Stored(old(Space(shape, mem, n.root)), n.path, offset, value)
      ensures forall r :: r != n.root ==> Space(shape, mem, r) == old(Space(shape, mem, r))
      ensures EntriesKept(old(shape), old(mem), shape, mem)
    {
      ghost var m := mem;
      assert NodeOk(shape, mem, n);
      mem := mem[f := Data(mem[f].bytes[offset := value])];
      SetData(shape, m, pmm.counts, f, mem[f].bytes);
      StoredSpaces(shape, m, pmm.counts, mem, n, offset, value);
      OtherSame(shape, m, n, mem);
      SameEntries(shape, m, shape, mem);
    }

    static lemma StoredSpaces(s: Shape, m: Memory, c: map<nat, nat>, m': Memory, n: Node, offset: nat, value: bv8)
      requires Consistent(s, m, c) && Consistent(s, m', c) && n in s.nodes && Depth(n.path) == 4 && LeafPte(s, m, n).writable
      requires IsData(m, s.nodes[n]) && offset < 4096
      requires m' == m[s.nodes[n] := Data(m[s.nodes[n]].bytes[offset := value])]
      ensures Space(s, m', n.root) == Stored(Space(s, m, n.root), n.path, offset, value)
      ensures forall r :: r != n.root ==> Space(s, m', r) == Space(s, m, r)
    {
      forall k | k in s.nodes && k != n ensures s.nodes[k] != s.nodes[n] { assert PairOk(s, m, n, k); }
      var a, b := Stored(Space(s, m, n.root), n.path, offset, value), Space(s, m', n.root);
      SpaceAt(s, m, c, n.root, n.path);
      forall p ensures (p in b <==> p in a) && (p in a && p in b ==> b[p] == a[p]) {
        SpaceAt(s, m, c, n.root, p);
        SpaceAt(s, m', c, n.root, p);
      }
      PagesEqual(a, b);
      forall r | r != n.root ensures Space(s, m', r) == Space(s, m, r) {
        forall p | Depth(p) == 4 ensures SamePage(s, m, r, s, m', r, p) {
          if Node(r, p) in s.nodes { PageInUse(s, m, c, Node(r, p)); }
        }
        SpaceSame(s, m, c, r, s, m', c, r);
      }
    }

    /** A store by user code: straight to a writable page, after a fault to a read-only one. */
    method Store(root: nat, virt: nat, value: bv8) returns (ok: bool)
      requires Valid() && Quiet() && Node(root, Top) in shape.nodes && IsUser(virt)
      modifies this, pmm, pmm.bitmap, pmm.bitmap.bytes, pmm.refs
      ensures Valid() && Quiet() && pmm.managed == old(pmm.managed)
      ensures shape == old(shape).(nodes := shape.nodes) && shape.nodes.Keys == old(shape.nodes).Keys
      ensures ok <==>
              && PagePath(virt) in old(Space(shape, mem, root))
              && (|| old(LeafPte(shape, mem, Leaf(root, virt))).writable
                  || (&& old(LeafPte(shape, mem, Leaf(root, virt))).cow
                      && (Single(old(pmm.counts), old(shape.nodes)[Leaf(root, virt)]) || old(pmm.Free()) != {})))
      ensures !ok ==> pmm.Free() == old(pmm.Free())
      ensures ok ==>
                |pmm.Free()| == |old(pmm.Free())| -
                if !old(LeafPte(shape, mem, Leaf(root, virt))).writable && !Single(old(pmm.counts), old(shape.nodes)[Leaf(root, virt)])
                then 1 else 0
      ensures Space(shape, mem, root) ==
              if ok then Stored(old(Space(shape, mem, root)), PagePath(virt), virt % 4096, value) else old(Space(shape, mem, root))
      ensures forall r :: r != root ==> Space(shape, mem, r) == old(Space(shape, mem, r))
      ensures EntriesBut(old(shape), old(mem), shape, mem, Leaf(root, virt))
      ensures if ok then Leaf(root, virt) in shape.nodes && LeafPte(shape, mem, Leaf(root, virt)) ==
                         AfterStore(old(LeafPte(shape, mem, Leaf(root, virt))), shape.nodes[Leaf(root, virt)])
              else LeafPte(shape, mem, Leaf(root, virt)) == old(LeafPte(shape, mem, Leaf(root, virt)))
    {
      var pt := FindPt(root, virt);
      if pt == 0 { return false; }
      ghost var n := Leaf(root, virt);
      PathDepth(virt);
      StepDown(shape, mem, Node(root, TablePath(virt)), Index(virt, 0));
      assert Kid(Node(root, TablePath(virt)), Index(virt, 0)) == n;
      if !mem[pt].ptes[Index(virt, 0)].present { return false; }
      SpaceAt(shape, mem, pmm.counts, root, PagePath(virt));
      if !mem[pt].ptes[Index(virt, 0)].writable {
        ok := HandleCowFault(root, virt);
        if !ok { return; }
        pt := FindPt(root, virt);
        StepDown(shape, mem, Node(root, TablePath(virt)), Index(virt, 0));
      }
      assert Up(n) == Node(root, TablePath(virt));
      ghost var s, m := shape, mem;
      WriteThrough(n, mem[pt].ptes[Index(virt, 0)].frame, virt % 4096, value);
      ButThenKept(old(shape), old(mem), s, m, shape, mem, n);
      assert EntryKept(s, m, shape, mem, n);
      return true;
    }
  }
}
