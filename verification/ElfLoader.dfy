/** elf_load_to_task (kernel/process/elf_exec.c) over the page tables of kernel/mm/vmm.c. */
module ElfLoader {
  import opened PageTables
  import opened EntryMarks
  import opened Vmm
  import opened TreeSize
  import Image = ElfImage

  const PT_LOAD: nat := 1
  const USER_ADDR_MAX: nat := 0x8000_0000_0000

  /** The ELF header fields the loader looks at. */
  datatype Header = Header(ident: seq<nat>, machine: nat, entry: nat, phoff: nat, phnum: nat)

  datatype Phdr = Phdr(kind: nat, writable: bool, executable: bool, offset: nat, vaddr: nat, filesz: nat, memsz: nat)

  function PageCount(h: Phdr): nat {
    (h.memsz + h.vaddr % 4096 + 4095) / 4096
  }

  /** The segment with its first `pages` pages. */
  function Part(h: Phdr, pages: nat): Image.Segment {
    Image.Segment(h.vaddr, h.offset, h.filesz, pages)
  }

  /** The segments of a program header table, in order. */
  ghost function Loads(hs: seq<Phdr>): seq<Image.Segment> {
    if hs == [] then []
    else
      Then(Loads(hs[..|hs| - 1]), hs[|hs| - 1])
  }

  ghost function Then(segs: seq<Image.Segment>, h: Phdr): seq<Image.Segment> {
    if h.kind == PT_LOAD then segs + [Part(h, PageCount(h))] else segs
  }

  /** Page `v` is among the wanted ones. */
  ghost predicate Wants(wanted: set<Path>, v: nat) {
    PagePath(4096 * v) in wanted
  }

  ghost predicate WantsSegment(wanted: set<Path>, h: Phdr) {
    h.kind == PT_LOAD ==> forall v :: Part(h, PageCount(h)).Touches(v) ==> Wants(wanted, v)
  }

  /** Every page of every segment is among the wanted ones. */
  ghost predicate WantsAll(wanted: set<Path>, hs: seq<Phdr>) {
    forall i :: 0 <= i < |hs| ==> WantsSegment(wanted, hs[i])
  }

  ghost function SegmentPages(h: Phdr): set<Path> {
    if h.kind == PT_LOAD then set v | h.vaddr / 4096 <= v < h.vaddr / 4096 + PageCount(h) :: PagePath(4096 * v) else {}
  }

  /** The pages of all segments; a page that two segments share is one page. */
  ghost function ImagePages(hs: seq<Phdr>): set<Path> {
    if hs == [] then {} else ImagePages(hs[..|hs| - 1]) + SegmentPages(hs[|hs| - 1])
  }

  lemma {:induction false} WantsImage(wanted: set<Path>, hs: seq<Phdr>)
    requires ImagePages(hs) <= wanted
    ensures WantsAll(wanted, hs)
  {
    if hs != [] {
      var n := |hs| - 1;
      WantsImage(wanted, hs[..n]);
      assert SegmentPages(hs[n]) <= wanted;
      forall i | 0 <= i < |hs| ensures WantsSegment(wanted, hs[i]) {
        if i < n {
          assert hs[..n][i] == hs[i];
        } else {
          forall v: nat | Part(hs[n], PageCount(hs[n])).Touches(v) && hs[n].kind == PT_LOAD ensures Wants(wanted, v) {
            assert PagePath(4096 * v) in SegmentPages(hs[n]);
          }
        }
      }
    }
  }

  /** They are the pages of the image. */
  lemma {:induction false} ImagePageTouched(hs: seq<Phdr>, p: Path) returns (v: nat)
    requires p in ImagePages(hs)
    ensures p == PagePath(4096 * v) && Image.Touched(Loads(hs), v) && (AllInUserRange(hs) ==> v < Image.USER_PAGES)
  {
    var n := |hs| - 1;
    if p in SegmentPages(hs[n]) {
      v :| hs[n].vaddr / 4096 <= v < hs[n].vaddr / 4096 + PageCount(hs[n]) && p == PagePath(4096 * v);
      Image.TouchedLast(Loads(hs[..n]), Part(hs[n], PageCount(hs[n])), v);
      if AllInUserRange(hs) {
        assert InUserRange(hs[n]);
        PagesInRange(hs[n]);
      }
    } else {
      v := ImagePageTouched(hs[..n], p);
      if hs[n].kind == PT_LOAD { Image.TouchedLast(Loads(hs[..n]), Part(hs[n], PageCount(hs[n])), v); }
      if AllInUserRange(hs) { RangeBefore(hs); }
    }
  }

  lemma RangeBefore(hs: seq<Phdr>)
    requires hs != [] && AllInUserRange(hs)
    ensures AllInUserRange(hs[..|hs| - 1])
  {
    var part := hs[..|hs| - 1];
    forall k | 0 <= k < |part| && part[k].kind == PT_LOAD ensures InUserRange(part[k]) { assert part[k] == hs[k]; }
  }

  /** A page that a segment touches is one of them. */
  lemma {:induction false} TouchedInImage(hs: seq<Phdr>, v: nat)
    requires Image.Touched(Loads(hs), v)
    ensures PagePath(4096 * v) in ImagePages(hs)
  {
    if hs != [] {
      var n := |hs| - 1;
      if hs[n].kind == PT_LOAD { Image.TouchedLast(Loads(hs[..n]), Part(hs[n], PageCount(hs[n])), v); }
      if Image.Touched(Loads(hs[..n]), v) { TouchedInImage(hs[..n], v); }
    }
  }

  /** The image as a value: its pages, each with its bytes. */
  ghost function ImageMap(hs: seq<Phdr>, file: Image.File): map<Path, seq<bv8>>
    requires AllWellFormed(hs, file)
  {
    AllFit(hs, file);
    map p | p in ImagePages(hs) :: seq(4096, j requires 0 <= j => Image.ByteOf(Loads(hs), file, Image.PathNumber(p), j))
  }

  /** A loaded space is the image and nothing else. */
  lemma {:induction false} LoadedIs(s: Shape, mem: Memory, counts: map<nat, nat>, root: nat, hs: seq<Phdr>, file: Image.File)
    requires Consistent(s, mem, counts) && AllWellFormed(hs, file) && AllInUserRange(hs)
    requires Image.Loaded(Space(s, mem, root), Loads(hs), file)
    ensures Space(s, mem, root) == ImageMap(hs, file)
  {
    var a, b := Space(s, mem, root), ImageMap(hs, file);
    forall p ensures (p in a <==> p in b) && (p in a && p in b ==> a[p] == b[p]) {
      SpaceAt(s, mem, counts, root, p);
      if p in a { Image.PathOfNumber(s, mem, root, p); }
      SamePageThere(a, hs, file, p);
    }
    PagesEqual(a, b);
  }

  lemma {:induction false} SamePageThere(space: map<Path, seq<bv8>>, hs: seq<Phdr>, file: Image.File, p: Path)
    requires AllWellFormed(hs, file) && AllInUserRange(hs) && Image.Loaded(space, Loads(hs), file)
    requires p in space ==> Image.PathNumber(p) < Image.USER_PAGES && p == PagePath(4096 * Image.PathNumber(p))
    ensures (p in space <==> p in ImageMap(hs, file)) && (p in space ==> space[p] == ImageMap(hs, file)[p])
  {
    if p in ImagePages(hs) {
      var v := ImagePageTouched(hs, p);
      assert Image.PageOk(space, Loads(hs), file, v);
      Image.NumberOfPath(v);
    } else if p in space {
      assert Image.PageOk(space, Loads(hs), file, Image.PathNumber(p));
      TouchedInImage(hs, Image.PathNumber(p));
    }
  }

  /** The file bytes a segment names exist, and its end does not wrap around. */
  ghost predicate WellFormed(h: Phdr, file: Image.File) {
    h.kind == PT_LOAD ==> h.offset + h.filesz <= |file| && h.vaddr + h.memsz < 0x1_0000_0000_0000_0000
  }

  ghost predicate AllWellFormed(hs: seq<Phdr>, file: Image.File) {
    forall i :: 0 <= i < |hs| ==> WellFormed(hs[i], file)
  }

  // ----- pages that only one address space has -----

  ghost predicate Private(s: Shape, root: nat) {
    forall n :: n in s.nodes && n.root == root && Depth(n.path) == 4 ==> Alone(s, n)
  }

  /** A new page on a fresh frame is private, and the others stay so. */
  lemma PrivateKept(s: Shape, mem: Memory, counts: map<nat, nat>, s': Shape, mem': Memory, counts': map<nat, nat>, root: nat, n: Node, f: nat)
    requires Consistent(s, mem, counts) && Consistent(s', mem', counts') && Private(s, root) && Grown(s, s')
    requires NewLeafOnly(s, s', n, f) && f !in counts
    ensures Private(s', root)
  {
    forall k, m | k in s'.nodes && k.root == root && Depth(k.path) == 4 && m in s'.nodes && s'.nodes[m] == s'.nodes[k] ensures m == k {
      assert PairOk(s', mem', k, m) && PairOk(s', mem', m, k);
      if k in s.nodes { InCounts(s, counts, k); }
      if m in s.nodes { InCounts(s, counts, m); }
      assert k in s.nodes ==> Alone(s, k);
    }
  }

  lemma InCounts(s: Shape, counts: map<nat, nat>, n: Node)
    requires FramesOk(s, counts) && n in s.nodes
    ensures s.nodes[n] in counts
  {
    assert FrameOk(s, counts, s.nodes[n]) && n in Users(s.nodes, s.nodes[n]);
  }

  /** A private page has a reference count of one. */
  lemma PrivateSingle(s: Shape, mem: Memory, counts: map<nat, nat>, n: Node)
    requires Consistent(s, mem, counts) && n in s.nodes && Alone(s, n)
    ensures Single(counts, s.nodes[n])
  {
    var f := s.nodes[n];
    HeldApart(s, mem, counts, f, n);
    assert FrameOk(s, counts, f) && n in Users(s.nodes, f);
    assert Users(s.nodes, f) == {n};
  }

  /** Replacing the bytes of a private page. */
  lemma PokedSpaces(s: Shape, m: Memory, c: map<nat, nat>, m': Memory, n: Node, bytes: seq<bv8>)
    requires Consistent(s, m, c) && Consistent(s, m', c) && n in s.nodes && Depth(n.path) == 4 && Alone(s, n)
    requires m' == m[s.nodes[n] := Data(bytes)]
    ensures Space(s, m', n.root) == Space(s, m, n.root)[n.path := bytes]
    ensures forall r :: r != n.root ==> Space(s, m', r) == Space(s, m, r)
  {
    var a, b := Space(s, m, n.root)[n.path := bytes], Space(s, m', n.root);
    forall p ensures (p in b <==> p in a) && (p in a && p in b ==> b[p] == a[p]) {
      SpaceAt(s, m, c, n.root, p);
      SpaceAt(s, m', c, n.root, p);
    }
    PagesEqual(a, b);
    forall r | r != n.root ensures Space(s, m', r) == Space(s, m, r) {
      forall p | Depth(p) == 4 ensures SamePage(s, m, r, s, m', r, p) {
        if Node(r, p) in s.nodes { PageInUse(s, m, c, Node(r, p)); }
      }
      SpaceSame(s, m, c, r, s, m', c, r);
    }
  }

  /** memcpy into a mapped page through the direct map. */
  method PutPage(vm: AddressSpaces, root: nat, virt: nat, f: nat, bytes: seq<bv8>)
    requires vm.Valid() && vm.Quiet() && |bytes| == 4096 && Private(vm.shape, root)
    requires Leaf(root, virt) in vm.shape.nodes && vm.shape.nodes[Leaf(root, virt)] == f
    modifies vm`mem
    ensures vm.Valid()
    ensures Space(vm.shape, vm.mem, root) == old(Space(vm.shape, vm.mem, root))[PagePath(virt) := bytes]
    ensures SameElsewhere(old(vm.shape), old(vm.mem), vm.shape, vm.mem, root)
  {
    ghost var m, n := vm.mem, Leaf(root, virt);
    PathDepth(virt);
    PageInUse(vm.shape, m, vm.pmm.counts, n);
    vm.mem := vm.mem[f := Data(bytes)];
    SetData(vm.shape, m, vm.pmm.counts, f, bytes);
    assert Alone(vm.shape, n);
    PokedSpaces(vm.shape, m, vm.pmm.counts, vm.mem, n, bytes);
    OtherSame(vm.shape, m, n, vm.mem);
    SameEntries(vm.shape, m, vm.shape, vm.mem);
  }

  /** Add write permission to a page that an earlier segment mapped. */
  method GrantWrite(vm: AddressSpaces, root: nat, virt: nat)
    requires vm.Valid() && vm.Quiet() && Private(vm.shape, root) && IsUser(virt)
    requires Node(root, Top) in vm.shape.nodes && Leaf(root, virt) in vm.shape.nodes
    modifies vm`mem
    ensures vm.Valid() && LeafPte(vm.shape, vm.mem, Leaf(root, virt)).writable
    ensures forall r :: Space(vm.shape, vm.mem, r) == old(Space(vm.shape, vm.mem, r))
    ensures EntriesBut(vm.shape, old(vm.mem), vm.shape, vm.mem, Leaf(root, virt))
  {
    ghost var n, m := Leaf(root, virt), vm.mem;
    var pt := vm.FindPt(root, virt);
    PathDepth(virt);
    StepDown(vm.shape, vm.mem, Node(root, TablePath(virt)), Index(virt, 0));
    assert Kid(Node(root, TablePath(virt)), Index(virt, 0)) == n && Up(n) == Node(root, TablePath(virt));
    PrivateSingle(vm.shape, m, vm.pmm.counts, n);
    assert NodeOk(vm.shape, m, n);
    var pte := vm.mem[pt].ptes[Index(virt, 0)];
    vm.mem := vm.mem[pt := Table(vm.mem[pt].ptes[Index(virt, 0) := pte.(writable := true)])];
    MakeWritable(vm.shape, m, vm.pmm.counts, n, pte.(writable := true), vm.mem);
    assert 0 !in vm.pmm.counts by { vm.pmm.CountedIsManaged(); }
    OneEntryFresh(vm.shape, m, vm.pmm.counts, n, pte.(writable := true), 0, vm.shape, vm.mem);
    forall r ensures Space(vm.shape, vm.mem, r) == Space(vm.shape, m, r) {
      SpaceKept(vm.shape, m, vm.pmm.counts, vm.shape, vm.mem, vm.pmm.counts, r);
    }
  }

  /** Only the space at `root` grew. */
  ghost predicate GrewOnly(s: Shape, s': Shape, root: nat) {
    Grown(s, s') && AddedTo(s, s', root) && s'.held == s.held
  }

  lemma GrewTwice(s0: Shape, s1: Shape, s2: Shape, root: nat)
    requires GrewOnly(s0, s1, root) && GrewOnly(s1, s2, root)
    ensures GrewOnly(s0, s2, root)
  {
  }

  /** Every other space shows the same, through the same entries. */
  ghost predicate SameElsewhere(s: Shape, m: Memory, s': Shape, m': Memory, root: nat) {
    EntriesElsewhere(s, m, s', m', root) && forall r :: r != root ==> Space(s', m', r) == Space(s, m, r)
  }

  lemma SameTwice(s0: Shape, m0: Memory, s1: Shape, m1: Memory, s2: Shape, m2: Memory, root: nat)
    requires SameElsewhere(s0, m0, s1, m1, root) && SameElsewhere(s1, m1, s2, m2, root)
    ensures SameElsewhere(s0, m0, s2, m2, root)
  {
    ElsewhereTwice(s0, m0, s1, m1, s2, m2, root);
  }

  lemma NothingElsewhere(s: Shape, m: Memory, root: nat)
    ensures SameElsewhere(s, m, s, m, root)
  {
  }

  // ----- one page -----

  /** The page with the file bytes that belong there copied over `base`. */
  function Fill(h: Phdr, file: Image.File, v: nat, base: seq<bv8>): seq<bv8>
    requires |base| == 4096 && h.offset + h.filesz <= |file| && v >= h.vaddr / 4096
  {
    if h.filesz == 0 then base
    else
      var segOff := if 4096 * v >= h.vaddr then 0 else h.vaddr % 4096;
      var fileOff := if 4096 * v >= h.vaddr then 4096 * v - h.vaddr else 0;
      if fileOff >= h.filesz then base
      else
        var n := if h.filesz - fileOff > 4096 - segOff then 4096 - segOff else h.filesz - fileOff;
        base[..segOff] + file[h.offset + fileOff..h.offset + fileOff + n] + base[segOff + n..]
  }

  lemma FillIs(h: Phdr, file: Image.File, v: nat, base: seq<bv8>, p: nat)
    requires |base| == 4096 && h.offset + h.filesz <= |file| && v == h.vaddr / 4096 + p
    ensures |Fill(h, file, v, base)| == 4096
    ensures forall j :: 0 <= j < 4096 ==>
              Fill(h, file, v, base)[j] ==
              if Part(h, p + 1).Covers(v, j) then file[h.offset + (4096 * v + j - h.vaddr)] else base[j]
  {
    assert h.vaddr == 4096 * (h.vaddr / 4096) + h.vaddr % 4096;
  }

  /** The body of the page loop. */
  method LoadPage(vm: AddressSpaces, root: nat, h: Phdr, file: Image.File, p: nat, ghost segs: seq<Image.Segment>,
                  ghost n: nat, ghost wanted: set<Path>) returns (ok: bool)
    requires vm.Valid() && vm.Quiet() && Node(root, Top) in vm.shape.nodes && Private(vm.shape, root)
    requires h.offset + h.filesz <= |file| && h.vaddr / 4096 + p < Image.USER_PAGES && Image.AllInFile(segs, file)
    requires Image.Loaded(Space(vm.shape, vm.mem, root), segs + [Part(h, p)], file)
    requires OnBudget(vm.shape, root, vm.pmm.Free(), n, wanted) && Wants(wanted, h.vaddr / 4096 + p)
    modifies vm, vm.pmm, vm.pmm.bitmap, vm.pmm.bitmap.bytes, vm.pmm.refs
    ensures vm.Valid() && vm.Quiet() && Node(root, Top) in vm.shape.nodes && Private(vm.shape, root)
    ensures ok ==> Image.Loaded(Space(vm.shape, vm.mem, root), segs + [Part(h, p + 1)], file)
    ensures if ok then OnBudget(vm.shape, root, vm.pmm.Free(), n, wanted) else n < |Tree(wanted)|
    ensures GrewOnly(old(vm.shape), vm.shape, root) && vm.pmm.managed == old(vm.pmm.managed)
    ensures SameElsewhere(old(vm.shape), old(vm.mem), vm.shape, vm.mem, root)
  {
    var virt := 4096 * (h.vaddr / 4096 + p);
    Image.UserPage(h.vaddr / 4096 + p);
    PathDepth(virt);
    SpaceAt(vm.shape, vm.mem, vm.pmm.counts, root, PagePath(virt));
    if Leaf(root, virt) in vm.shape.nodes { vm.InUse(Leaf(root, virt)); }
    var frame := vm.GetPhys(root, virt);
    if frame != 0 {
      LoadExisting(vm, root, h, file, p, segs, frame);
      return true;
    }
    ok := LoadNew(vm, root, h, file, p, segs, n, wanted);
  }

  /** memcpy of the file bytes that belong in a mapped page. */
  method FillPage(vm: AddressSpaces, root: nat, h: Phdr, file: Image.File, v: nat, frame: nat) returns (ghost base: seq<bv8>)
    requires vm.Valid() && vm.Quiet() && Private(vm.shape, root)
    requires h.offset + h.filesz <= |file| && v >= h.vaddr / 4096
    requires Leaf(root, 4096 * v) in vm.shape.nodes && vm.shape.nodes[Leaf(root, 4096 * v)] == frame
    modifies vm`mem
    ensures vm.Valid() && |base| == 4096
    ensures PagePath(4096 * v) in old(Space(vm.shape, vm.mem, root)) && base == old(Space(vm.shape, vm.mem, root))[PagePath(4096 * v)]
    ensures Space(vm.shape, vm.mem, root) == old(Space(vm.shape, vm.mem, root))[PagePath(4096 * v) := Fill(h, file, v, base)]
    ensures SameElsewhere(old(vm.shape), old(vm.mem), vm.shape, vm.mem, root)
  {
    PathDepth(4096 * v);
    SpaceAt(vm.shape, vm.mem, vm.pmm.counts, root, PagePath(4096 * v));
    PageInUse(vm.shape, vm.mem, vm.pmm.counts, Leaf(root, 4096 * v));
    var bytes := vm.mem[frame].bytes;
    FillLength(h, file, v, bytes);
    PutPage(vm, root, 4096 * v, frame, Fill(h, file, v, bytes));
    base := bytes;
  }

  /** A page that an earlier segment mapped. */
  method LoadExisting(vm: AddressSpaces, root: nat, h: Phdr, file: Image.File, p: nat, ghost segs: seq<Image.Segment>, frame: nat)
    requires vm.Valid() && vm.Quiet() && Node(root, Top) in vm.shape.nodes && Private(vm.shape, root)
    requires h.offset + h.filesz <= |file| && h.vaddr / 4096 + p < Image.USER_PAGES && Image.AllInFile(segs, file)
    requires Image.Loaded(Space(vm.shape, vm.mem, root), segs + [Part(h, p)], file)
    requires var n := Leaf(root, 4096 * (h.vaddr / 4096 + p)); n in vm.shape.nodes && vm.shape.nodes[n] == frame
    modifies vm`mem
    ensures vm.Valid()
    ensures Image.Loaded(Space(vm.shape, vm.mem, root), segs + [Part(h, p + 1)], file)
    ensures SameElsewhere(old(vm.shape), old(vm.mem), vm.shape, vm.mem, root)
  {
    var v := h.vaddr / 4096 + p;
    ghost var space := Space(vm.shape, vm.mem, root);
    ghost var base := FillPage(vm, root, h, file, v, frame);
    ghost var space', m := Space(vm.shape, vm.mem, root), vm.mem;
    Advance(space, segs, h, file, p, base, space');
    Image.UserPage(v);
    if h.writable {
      GrantWrite(vm, root, 4096 * v);
      SameTwice(vm.shape, old(vm.mem), vm.shape, m, vm.shape, vm.mem, root);
    }
  }

  /** vmm_map_page of a new page: it fails only where there is a page already, or for want of frames. */
  method MapOne(vm: AddressSpaces, root: nat, virt: nat, bytes: seq<bv8>, flags: Flags, ghost n: nat, ghost wanted: set<Path>)
    returns (ok: bool)
    requires vm.Valid() && vm.Quiet() && Node(root, Top) in vm.shape.nodes && IsUser(virt) && |bytes| == 4096 && flags.present
    requires OnBudget(vm.shape, root, vm.pmm.Free(), n, wanted) && PagePath(virt) in wanted && Private(vm.shape, root)
    modifies vm, vm.pmm, vm.pmm.bitmap, vm.pmm.bitmap.bytes, vm.pmm.refs
    ensures vm.Valid() && vm.Quiet() && vm.pmm.managed == old(vm.pmm.managed) && Node(root, Top) in vm.shape.nodes
    ensures if ok then PagePath(virt) !in old(Space(vm.shape, vm.mem, root)) && OnBudget(vm.shape, root, vm.pmm.Free(), n, wanted)
            else PagePath(virt) in old(Space(vm.shape, vm.mem, root)) || n < |Tree(wanted)|
    ensures ok ==> Space(vm.shape, vm.mem, root) == old(Space(vm.shape, vm.mem, root))[PagePath(virt) := bytes]
    ensures SameElsewhere(old(vm.shape), old(vm.mem), vm.shape, vm.mem, root)
    ensures GrewOnly(old(vm.shape), vm.shape, root) && Private(vm.shape, root)
  {
    ghost var s, m, c := vm.shape, vm.mem, vm.pmm.counts;
    PathDepth(virt);
    SpaceAt(s, m, c, root, PagePath(virt));
    if Leaf(root, virt) !in s.nodes { Room(s, root, virt, wanted); }
    ok := vm.MapFresh(root, virt, bytes, flags);
    ghost var f :| f !in c && NewLeafOnly(s, vm.shape, Leaf(root, virt), f);
    PrivateKept(s, m, c, vm.shape, vm.mem, vm.pmm.counts, root, Leaf(root, virt), f);
    if ok { Grew(s, root, virt, vm.shape, vm.mem, wanted); }
  }

  method LoadNew(vm: AddressSpaces, root: nat, h: Phdr, file: Image.File, p: nat, ghost segs: seq<Image.Segment>,
                  ghost n: nat, ghost wanted: set<Path>) returns (ok: bool)
    requires vm.Valid() && vm.Quiet() && Node(root, Top) in vm.shape.nodes && Private(vm.shape, root)
    requires h.offset + h.filesz <= |file| && h.vaddr / 4096 + p < Image.USER_PAGES && Image.AllInFile(segs, file)
    requires Image.Loaded(Space(vm.shape, vm.mem, root), segs + [Part(h, p)], file)
    requires PagePath(4096 * (h.vaddr / 4096 + p)) !in Space(vm.shape, vm.mem, root)
    requires OnBudget(vm.shape, root, vm.pmm.Free(), n, wanted) && Wants(wanted, h.vaddr / 4096 + p)
    modifies vm, vm.pmm, vm.pmm.bitmap, vm.pmm.bitmap.bytes, vm.pmm.refs
    ensures vm.Valid() && vm.Quiet() && Node(root, Top) in vm.shape.nodes && Private(vm.shape, root)
    ensures ok ==> Image.Loaded(Space(vm.shape, vm.mem, root), segs + [Part(h, p + 1)], file)
    ensures if ok then OnBudget(vm.shape, root, vm.pmm.Free(), n, wanted) else n < |Tree(wanted)|
    ensures GrewOnly(old(vm.shape), vm.shape, root) && vm.pmm.managed == old(vm.pmm.managed)
    ensures SameElsewhere(old(vm.shape), old(vm.mem), vm.shape, vm.mem, root)
  {
    var v := h.vaddr / 4096 + p;
    Image.UserPage(v);
    ghost var space := Space(vm.shape, vm.mem, root);
    var zeros: seq<bv8> := seq(4096, _ => 0);
    FillLength(h, file, v, zeros);
    ok := MapOne(vm, root, 4096 * v, Fill(h, file, v, zeros), Flags(true, h.writable, true, false, !h.executable), n, wanted);
    if ok { Advance(space, segs, h, file, p, zeros, Space(vm.shape, vm.mem, root)); }
  }

  lemma FillLength(h: Phdr, file: Image.File, v: nat, base: seq<bv8>)
    requires |base| == 4096 && h.offset + h.filesz <= |file| && v >= h.vaddr / 4096
    ensures |Fill(h, file, v, base)| == 4096
  {
    FillIs(h, file, v, base, v - h.vaddr / 4096);
  }

  /** With the filled page in place, the image is one page further. */
  lemma Advance(space: map<Path, seq<bv8>>, segs: seq<Image.Segment>, h: Phdr, file: Image.File, p: nat, base: seq<bv8>,
                space': map<Path, seq<bv8>>)
    requires h.offset + h.filesz <= |file| && h.vaddr / 4096 + p < Image.USER_PAGES && Image.AllInFile(segs, file) && |base| == 4096
    requires Image.Loaded(space, segs + [Part(h, p)], file)
    requires var path := PagePath(4096 * (h.vaddr / 4096 + p));
             && (if path in space then base == space[path] else forall j :: 0 <= j < 4096 ==> base[j] == 0)
             && space' == space[path := Fill(h, file, h.vaddr / 4096 + p, base)]
    ensures Image.Loaded(space', segs + [Part(h, p + 1)], file)
  {
    var v := h.vaddr / 4096 + p;
    NextPage(space, segs, h, file, p, base);
    Image.PageLoaded(space, segs, Part(h, p), file, Fill(h, file, v, base), space');
  }

  /** The filled page is what the image asks for. */
  lemma NextPage(space: map<Path, seq<bv8>>, segs: seq<Image.Segment>, h: Phdr, file: Image.File, p: nat, base: seq<bv8>)
    requires h.offset + h.filesz <= |file| && h.vaddr / 4096 + p < Image.USER_PAGES && Image.AllInFile(segs, file) && |base| == 4096
    requires Image.Loaded(space, segs + [Part(h, p)], file)
    requires var path := PagePath(4096 * (h.vaddr / 4096 + p));
             if path in space then base == space[path] else forall j :: 0 <= j < 4096 ==> base[j] == 0
    ensures var v := h.vaddr / 4096 + p;
            var bytes := Fill(h, file, v, base);
            && |bytes| == 4096
            && forall j :: 0 <= j < 4096 ==>
                 bytes[j] == if Part(h, p + 1).Covers(v, j) then file[h.offset + (4096 * v + j - h.vaddr)]
                             else Image.ByteOf(segs, file, v, j)
  {
    var v := h.vaddr / 4096 + p;
    assert Image.PageOk(space, segs + [Part(h, p)], file, v);
    BaseBytes(space, segs, Part(h, p), file, v);
    FillIs(h, file, v, base, p);
  }

  /** Before the page is done, it shows what the earlier segments put there, or does not exist. */
  lemma BaseBytes(space: map<Path, seq<bv8>>, segs: seq<Image.Segment>, s: Image.Segment, file: Image.File, v: nat)
    requires Image.AllInFile(segs, file) && Image.InFile(s, file) && v == s.First() + s.pages
    requires Image.AllInFile(segs + [s], file) && Image.PageOk(space, segs + [s], file, v)
    ensures forall j :: 0 <= j < 4096 ==>
              Image.ByteOf(segs, file, v, j) == if PagePath(4096 * v) in space then space[PagePath(4096 * v)][j] else 0
  {
    Image.TouchedLast(segs, s, v);
    forall j | 0 <= j < 4096
      ensures Image.ByteOf(segs, file, v, j) == if PagePath(4096 * v) in space then space[PagePath(4096 * v)][j] else 0
    {
      Image.ByteOfLast(segs, s, file, v, j);
      if PagePath(4096 * v) !in space { Image.UntouchedZero(segs, file, v, j); }
    }
  }

  // ----- the whole file -----

  /** The page loop of one segment. */
  method LoadSegment(vm: AddressSpaces, root: nat, h: Phdr, file: Image.File, ghost segs: seq<Image.Segment>,
                  ghost n: nat, ghost wanted: set<Path>) returns (ok: bool)
    requires vm.Valid() && vm.Quiet() && Node(root, Top) in vm.shape.nodes && Private(vm.shape, root)
    requires h.offset + h.filesz <= |file| && h.vaddr < USER_ADDR_MAX && h.vaddr + h.memsz <= USER_ADDR_MAX
    requires Image.Loaded(Space(vm.shape, vm.mem, root), segs, file)
    requires OnBudget(vm.shape, root, vm.pmm.Free(), n, wanted) && h.kind == PT_LOAD && WantsSegment(wanted, h)
    modifies vm, vm.pmm, vm.pmm.bitmap, vm.pmm.bitmap.bytes, vm.pmm.refs
    ensures vm.Valid() && vm.Quiet() && Node(root, Top) in vm.shape.nodes && Private(vm.shape, root)
    ensures ok ==> Image.Loaded(Space(vm.shape, vm.mem, root), segs + [Part(h, PageCount(h))], file)
    ensures if ok then OnBudget(vm.shape, root, vm.pmm.Free(), n, wanted) else n < |Tree(wanted)|
    ensures GrewOnly(old(vm.shape), vm.shape, root) && vm.pmm.managed == old(vm.pmm.managed)
    ensures SameElsewhere(old(vm.shape), old(vm.mem), vm.shape, vm.mem, root)
  {
    NoPages(Space(vm.shape, vm.mem, root), segs, h, file);
    PagesInRange(h);
    NothingElsewhere(vm.shape, vm.mem, root);
    for p := 0 to PageCount(h)
      invariant vm.Valid() && vm.Quiet() && Node(root, Top) in vm.shape.nodes && Private(vm.shape, root)
      invariant Image.Loaded(Space(vm.shape, vm.mem, root), segs + [Part(h, p)], file) && GrewOnly(old(vm.shape), vm.shape, root)
      invariant vm.pmm.managed == old(vm.pmm.managed) && OnBudget(vm.shape, root, vm.pmm.Free(), n, wanted)
      invariant SameElsewhere(old(vm.shape), old(vm.mem), vm.shape, vm.mem, root)
    {
      assert Part(h, PageCount(h)).Touches(h.vaddr / 4096 + p);
      ghost var s, m := vm.shape, vm.mem;
      ok := LoadPage(vm, root, h, file, p, segs, n, wanted);
      SameTwice(old(vm.shape), old(vm.mem), s, m, vm.shape, vm.mem, root);
      if !ok { return; }
    }
    ok := true;
  }

  lemma PagesInRange(h: Phdr)
    requires h.vaddr < USER_ADDR_MAX && h.vaddr + h.memsz <= USER_ADDR_MAX
    ensures h.vaddr / 4096 + PageCount(h) <= Image.USER_PAGES
  {
    assert h.vaddr == 4096 * (h.vaddr / 4096) + h.vaddr % 4096;
  }

  /** A segment with no pages yet changes nothing. */
  lemma NoPages(space: map<Path, seq<bv8>>, segs: seq<Image.Segment>, h: Phdr, file: Image.File)
    requires Image.Loaded(space, segs, file) && h.offset + h.filesz <= |file|
    ensures Image.Loaded(space, segs + [Part(h, 0)], file)
  {
    var s := Part(h, 0);
    Image.ByteOfLast(segs, s, file, 0, 0);
    var now := segs + [s];
    forall v: nat | v < Image.USER_PAGES ensures Image.PageOk(space, now, file, v) {
      assert Image.PageOk(space, segs, file, v);
      Image.TouchedLast(segs, s, v);
      forall j | 0 <= j < 4096 ensures Image.ByteOf(now, file, v, j) == Image.ByteOf(segs, file, v, j) {
        Image.ByteOfLast(segs, s, file, v, j);
      }
    }
  }

  /** The checks at the top of elf_load_to_task. */
  predicate Acceptable(hdr: Header, size: nat) {
    && size >= 64 && hdr.ident == [0x7f, 0x45, 0x4c, 0x46] && hdr.machine == 0x3E
    && (hdr.phoff + hdr.phnum * 56) % 0x1_0000_0000_0000_0000 <= size
  }

  predicate InUserRange(h: Phdr) {
    h.vaddr < USER_ADDR_MAX && h.vaddr + h.memsz <= USER_ADDR_MAX
  }

  predicate Loadable(hdr: Header, phdrs: seq<Phdr>, size: nat) {
    Acceptable(hdr, size) && AllInUserRange(phdrs)
  }

  predicate AllInUserRange(phdrs: seq<Phdr>) {
    forall i :: 0 <= i < |phdrs| && phdrs[i].kind == PT_LOAD ==> InUserRange(phdrs[i])
  }

  /** elf_load_to_task into an empty address space.  A success leaves exactly the image; nothing else changes. */
  method Load(vm: AddressSpaces, root: nat, hdr: Header, phdrs: seq<Phdr>, file: Image.File, ghost n: nat, ghost wanted: set<Path>)
    returns (entry: nat, ok: bool)
    requires vm.Valid() && vm.Quiet() && Node(root, Top) in vm.shape.nodes && Private(vm.shape, root)
    requires Image.Loaded(Space(vm.shape, vm.mem, root), [], file)
    requires OnBudget(vm.shape, root, vm.pmm.Free(), n, wanted) && WantsAll(wanted, phdrs)
    requires |phdrs| == hdr.phnum && AllWellFormed(phdrs, file)
    modifies vm, vm.pmm, vm.pmm.bitmap, vm.pmm.bitmap.bytes, vm.pmm.refs
    ensures vm.Valid() && vm.Quiet() && Node(root, Top) in vm.shape.nodes && Private(vm.shape, root)
    ensures entry == if ok then hdr.entry else 0
    ensures if ok then Loadable(hdr, phdrs, |file|) && OnBudget(vm.shape, root, vm.pmm.Free(), n, wanted)
            else Loadable(hdr, phdrs, |file|) ==> n < |Tree(wanted)|
    ensures ok ==> Image.Loaded(Space(vm.shape, vm.mem, root), Loads(phdrs), file)
    ensures GrewOnly(old(vm.shape), vm.shape, root) && vm.pmm.managed == old(vm.pmm.managed)
    ensures SameElsewhere(old(vm.shape), old(vm.mem), vm.shape, vm.mem, root)
  {
    if !Acceptable(hdr, |file|) { return 0, false; }
    ok := LoadAll(vm, root, phdrs, file, n, wanted);
    entry := if ok then hdr.entry else 0;
  }

  /** The loop over the program headers. */
  method LoadAll(vm: AddressSpaces, root: nat, phdrs: seq<Phdr>, file: Image.File, ghost n: nat, ghost wanted: set<Path>)
    returns (ok: bool)
    requires vm.Valid() && vm.Quiet() && Node(root, Top) in vm.shape.nodes && Private(vm.shape, root)
    requires Image.Loaded(Space(vm.shape, vm.mem, root), [], file)
    requires OnBudget(vm.shape, root, vm.pmm.Free(), n, wanted) && WantsAll(wanted, phdrs)
    requires AllWellFormed(phdrs, file)
    modifies vm, vm.pmm, vm.pmm.bitmap, vm.pmm.bitmap.bytes, vm.pmm.refs
    ensures vm.Valid() && vm.Quiet() && Node(root, Top) in vm.shape.nodes && Private(vm.shape, root)
    ensures ok ==> AllInUserRange(phdrs) && Image.Loaded(Space(vm.shape, vm.mem, root), Loads(phdrs), file)
    ensures if ok then OnBudget(vm.shape, root, vm.pmm.Free(), n, wanted) else !AllInUserRange(phdrs) || n < |Tree(wanted)|
    ensures GrewOnly(old(vm.shape), vm.shape, root) && vm.pmm.managed == old(vm.pmm.managed)
    ensures SameElsewhere(old(vm.shape), old(vm.mem), vm.shape, vm.mem, root)
  {
    ghost var segs, s0, m0 := [], vm.shape, vm.mem;
    for i := 0 to |phdrs|
      invariant vm.Valid() && vm.Quiet() && Node(root, Top) in vm.shape.nodes && Private(vm.shape, root)
      invariant AllInUserRange(phdrs[..i]) && segs == Loads(phdrs[..i])
      invariant Image.Loaded(Space(vm.shape, vm.mem, root), segs, file)
      invariant GrewOnly(s0, vm.shape, root) && vm.pmm.managed == old(vm.pmm.managed)
      invariant SameElsewhere(s0, m0, vm.shape, vm.mem, root)
      invariant OnBudget(vm.shape, root, vm.pmm.Free(), n, wanted)
    {
      LoadsNext(phdrs, i);
      assert WellFormed(phdrs[i], file) && WantsSegment(wanted, phdrs[i]);
      ghost var s, m := vm.shape, vm.mem;
      ok := LoadHeader(vm, root, phdrs[i], file, segs, n, wanted);
      GrewTwice(s0, s, vm.shape, root);
      SameTwice(s0, m0, s, m, vm.shape, vm.mem, root);
      if !ok { return; }
      RangeNext(phdrs, i);
      segs := Then(segs, phdrs[i]);
    }
    assert phdrs[..|phdrs|] == phdrs;
    return true;
  }

  lemma RangeNext(hs: seq<Phdr>, i: nat)
    requires i < |hs| && AllInUserRange(hs[..i]) && (hs[i].kind == PT_LOAD ==> InUserRange(hs[i]))
    ensures AllInUserRange(hs[..i + 1])
  {
    var part := hs[..i + 1];
    forall k | 0 <= k < |part| && part[k].kind == PT_LOAD ensures InUserRange(part[k]) {
      assert k < i ==> hs[..i][k] == hs[k];
    }
  }

  /** The body of that loop. */
  method LoadHeader(vm: AddressSpaces, root: nat, h: Phdr, file: Image.File, ghost segs: seq<Image.Segment>,
                    ghost n: nat, ghost wanted: set<Path>) returns (ok: bool)
    requires vm.Valid() && vm.Quiet() && Node(root, Top) in vm.shape.nodes && Private(vm.shape, root)
    requires Image.Loaded(Space(vm.shape, vm.mem, root), segs, file) && WellFormed(h, file)
    requires OnBudget(vm.shape, root, vm.pmm.Free(), n, wanted) && WantsSegment(wanted, h)
    modifies vm, vm.pmm, vm.pmm.bitmap, vm.pmm.bitmap.bytes, vm.pmm.refs
    ensures vm.Valid() && vm.Quiet() && Node(root, Top) in vm.shape.nodes && Private(vm.shape, root)
    ensures ok ==> (h.kind == PT_LOAD ==> InUserRange(h)) && Image.Loaded(Space(vm.shape, vm.mem, root), Then(segs, h), file)
    ensures if ok then OnBudget(vm.shape, root, vm.pmm.Free(), n, wanted) else h.kind == PT_LOAD && (!InUserRange(h) || n < |Tree(wanted)|)
    ensures GrewOnly(old(vm.shape), vm.shape, root) && vm.pmm.managed == old(vm.pmm.managed)
    ensures SameElsewhere(old(vm.shape), old(vm.mem), vm.shape, vm.mem, root)
  {
    if h.kind != PT_LOAD { return true; }
    if !InUserRange(h) { return false; }
    ok := LoadSegment(vm, root, h, file, segs, n, wanted);
  }

  lemma LoadsNext(hs: seq<Phdr>, i: nat)
    requires i < |hs|
    ensures Loads(hs[..i + 1]) == Then(Loads(hs[..i]), hs[i])
  {
    assert hs[..i + 1][..i] == hs[..i];
  }

  // ----- what a loaded program sees -----

  /** Address `a` belongs to a segment, with or without file bytes. */
  ghost predicate Holds(h: Phdr, a: nat) {
    h.kind == PT_LOAD && h.vaddr <= a < h.vaddr + h.memsz
  }

  /** The loader copies a file byte of this header to byte `j` of page `v`. */
  ghost predicate Writes(h: Phdr, v: nat, j: nat) {
    h.kind == PT_LOAD && Part(h, PageCount(h)).Covers(v, j)
  }

  /** No header but `i` puts a file byte at byte `j` of page `v`. */
  ghost predicate Sole(hs: seq<Phdr>, i: nat, v: nat, j: nat) {
    forall k :: 0 <= k < |hs| && k != i ==> !Writes(hs[k], v, j)
  }

  /** The PT_LOAD ranges have no address in common and no more file bytes than memory. */
  ghost predicate Apart(hs: seq<Phdr>) {
    && (forall i :: 0 <= i < |hs| && hs[i].kind == PT_LOAD ==> hs[i].filesz <= hs[i].memsz)
    && forall i, k, a :: 0 <= i < |hs| && 0 <= k < |hs| && Holds(hs[i], a) && Holds(hs[k], a) ==> i == k
  }

  /** The byte that header `h` says is at address `a`. */
  ghost function Shown(h: Phdr, file: Image.File, a: nat): bv8
    requires Holds(h, a) && WellFormed(h, file)
  {
    if a < h.vaddr + h.filesz then file[h.offset + (a - h.vaddr)] else 0
  }

  lemma ApartSole(hs: seq<Phdr>, i: nat, v: nat, j: nat)
    requires Apart(hs) && i < |hs| && Holds(hs[i], 4096 * v + j)
    ensures Sole(hs, i, v, j)
  {
    forall k | 0 <= k < |hs| && k != i ensures !Writes(hs[k], v, j) {
      assert Writes(hs[k], v, j) ==> Holds(hs[k], 4096 * v + j);
    }
  }

  /** Every address of a segment is on one of its pages, and in the lower half if the segment is. */
  lemma HoldsTouches(h: Phdr, v: nat, j: nat)
    requires Holds(h, 4096 * v + j) && j < 4096
    ensures Part(h, PageCount(h)).Touches(v) && (InUserRange(h) ==> v < Image.USER_PAGES)
  {
    assert h.vaddr == 4096 * (h.vaddr / 4096) + h.vaddr % 4096;
  }

  lemma {:induction false} AllFit(hs: seq<Phdr>, file: Image.File)
    requires AllWellFormed(hs, file)
    ensures Image.AllInFile(Loads(hs), file)
  {
    if hs != [] {
      AllFit(hs[..|hs| - 1], file);
      assert WellFormed(hs[|hs| - 1], file);
    }
  }

  /** Where no header puts a byte, the image has zero. */
  lemma {:induction false} NoByte(hs: seq<Phdr>, file: Image.File, v: nat, j: nat)
    requires AllWellFormed(hs, file) && Sole(hs, |hs|, v, j)
    ensures Image.AllInFile(Loads(hs), file) && Image.ByteOf(Loads(hs), file, v, j) == 0
  {
    AllFit(hs, file);
    if hs != [] {
      var n := |hs| - 1;
      LoadsNext(hs, n);
      assert hs[..n + 1] == hs && WellFormed(hs[n], file) && !Writes(hs[n], v, j);
      NoByte(hs[..n], file, v, j);
      if hs[n].kind == PT_LOAD { Image.ByteOfLast(Loads(hs[..n]), Part(hs[n], PageCount(hs[n])), file, v, j); }
    }
  }

  /** Whatever the order of the headers, the image has the byte of the segment that alone puts one there. */
  lemma {:induction false} ImageByte(hs: seq<Phdr>, file: Image.File, i: nat, v: nat, j: nat)
    requires AllWellFormed(hs, file) && i < |hs| && j < 4096 && Holds(hs[i], 4096 * v + j) && Sole(hs, i, v, j)
    ensures Image.AllInFile(Loads(hs), file) && Image.Touched(Loads(hs), v)
    ensures WellFormed(hs[i], file) && Image.ByteOf(Loads(hs), file, v, j) == Shown(hs[i], file, 4096 * v + j)
  {
    AllFit(hs, file);
    var n := |hs| - 1;
    LoadsNext(hs, n);
    AllFit(hs[..n], file);
    assert hs[..n + 1] == hs && WellFormed(hs[n], file) && (i < n ==> hs[..n][i] == hs[i]);
    if i < n { ImageByte(hs[..n], file, i, v, j); } else { NoByte(hs[..n], file, v, j); }
    if hs[n].kind == PT_LOAD { LastByte(hs, file, i, v, j); }
  }

  lemma {:induction false} LastByte(hs: seq<Phdr>, file: Image.File, i: nat, v: nat, j: nat)
    requires AllWellFormed(hs, file) && i < |hs| && j < 4096 && Holds(hs[i], 4096 * v + j) && Sole(hs, i, v, j)
    requires var n := |hs| - 1; hs[n].kind == PT_LOAD && Image.AllInFile(Loads(hs[..n]), file)
    ensures var n := |hs| - 1; var segs, s := Loads(hs[..n]), Part(hs[n], PageCount(hs[n]));
            && Image.AllInFile(segs + [s], file) && (Image.Touched(segs + [s], v) <==> Image.Touched(segs, v) || i == n || s.Touches(v))
            && Image.ByteOf(segs + [s], file, v, j) ==
               if i == n && 4096 * v + j < s.vaddr + s.filesz then file[s.offset + (4096 * v + j - s.vaddr)]
               else Image.ByteOf(segs, file, v, j)
  {
    var n := |hs| - 1;
    var s := Part(hs[n], PageCount(hs[n]));
    assert WellFormed(hs[n], file);
    Image.ByteOfLast(Loads(hs[..n]), s, file, v, j);
    Image.TouchedLast(Loads(hs[..n]), s, v);
    if i == n { HoldsTouches(hs[n], v, j); } else { assert !Writes(hs[n], v, j); }
  }

  /** In a loaded space every address of every PT_LOAD range is mapped, and shows its file byte or zero. */
  lemma {:induction false} SegmentShows(space: map<Path, seq<bv8>>, hs: seq<Phdr>, file: Image.File, i: nat, v: nat, j: nat)
    requires AllWellFormed(hs, file) && AllInUserRange(hs) && Apart(hs) && Image.Loaded(space, Loads(hs), file)
    requires i < |hs| && j < 4096 && Holds(hs[i], 4096 * v + j)
    ensures WellFormed(hs[i], file) && Image.Touched(Loads(hs), v)
    ensures PagePath(4096 * v) in space && |space[PagePath(4096 * v)]| == 4096
    ensures space[PagePath(4096 * v)][j] == Shown(hs[i], file, 4096 * v + j)
  {
    ApartSole(hs, i, v, j);
    ImageByte(hs, file, i, v, j);
    HoldsTouches(hs[i], v, j);
    assert Image.PageOk(space, Loads(hs), file, v);
  }
}
