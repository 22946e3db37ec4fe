/** The address-space half of do_exec (kernel/process/exec.c): create, load, map the argument page and the user stack,
    and undo all of it when any step fails. */
module ExecSpace {
  import opened PageTables
  import opened FrameBudget
  import opened EntryMarks
  import opened Vmm
  import opened TreeSize
  import Image = ElfImage
  import opened ElfLoader

  const USER_STACK_TOP: nat := 0x8000_0000
  const USER_STACK_PAGES: nat := 32
  const ARG_PAGE_BASE: nat := 0x7000_0000

  /** The page below the top that stack page `p` occupies. */
  function StackPage(p: nat): nat
    requires p < USER_STACK_PAGES
  {
    USER_STACK_TOP - (p + 1) * 0x1000
  }

  ghost function StackPaths(): (paths: seq<Path>)
    ensures |paths| == USER_STACK_PAGES
  {
    seq(USER_STACK_PAGES, p requires 0 <= p < USER_STACK_PAGES => PagePath(StackPage(p)))
  }

  /** A space with the first `n` of some pages put in place. */
  ghost function WithPages(space: map<Path, seq<bv8>>, paths: seq<Path>, pages: seq<seq<bv8>>, n: nat): map<Path, seq<bv8>>
    requires n <= |pages| == |paths|
  {
    if n == 0 then space else WithPages(space, paths, pages, n - 1)[paths[n - 1] := pages[n - 1]]
  }

  /** An image with the stack; the kernel does not clear stack pages, so they show what their frames held. */
  ghost function WithStack(space: map<Path, seq<bv8>>, stack: seq<seq<bv8>>): map<Path, seq<bv8>>
    requires |stack| == USER_STACK_PAGES
  {
    WithPages(space, StackPaths(), stack, |stack|)
  }

  /** A segment occupies the argument page or a page of the stack. */
  ghost predicate Clash(phdrs: seq<Phdr>) {
    || Image.Touched(Loads(phdrs), ARG_PAGE_BASE / 4096)
    || exists p :: 0 <= p < USER_STACK_PAGES && Image.Touched(Loads(phdrs), StackPage(p) / 4096)
  }

  /** What do_exec is given: the ELF file with its headers as read, the argument page, and what the frames of the stack hold. */
  datatype Program = Program(hdr: Header, phdrs: seq<Phdr>, file: Image.File, args: seq<bv8>, stack: seq<seq<bv8>>) {
    ghost predicate Ok() {
      && |phdrs| == hdr.phnum && AllWellFormed(phdrs, file)
      && |args| == 4096 && |stack| == USER_STACK_PAGES && forall p :: 0 <= p < |stack| ==> |stack[p]| == 4096
    }

    /** The loader accepts the file, it has an entry point, and its segments leave room for arguments and stack. */
    ghost predicate Runnable() {
      Loadable(hdr, phdrs, |file|) && hdr.entry != 0 && !Clash(phdrs)
    }

    /** The space that the program starts in. */
    ghost function Pages(): map<Path, seq<bv8>>
      requires Ok()
    {
      WithStack(ImageMap(phdrs, file)[PagePath(ARG_PAGE_BASE) := args], stack)
    }
  }

  /** The pages of the new space: those of the segments, the argument page and the stack. */
  ghost function Wanted(phdrs: seq<Phdr>): set<Path> {
    ImagePages(phdrs) + {PagePath(ARG_PAGE_BASE)} + (set p | p in StackPaths())
  }

  /** The frames that exec needs: one for each page, and one for each table above a page. */
  ghost function Need(phdrs: seq<Phdr>): (n: nat)
    ensures n > 0
  {
    assert Top in Tree(Wanted(phdrs)) by {
      TrailOf(ARG_PAGE_BASE);
      assert PagePath(ARG_PAGE_BASE) in Wanted(phdrs);
      assert Above(Top, Wanted(phdrs));
    }
    |Tree(Wanted(phdrs))|
  }

  lemma EmptyLoaded(file: Image.File)
    ensures Image.Loaded(map[], [], file)
  {
    var none: map<Path, seq<bv8>> := map[];
    forall v: nat | v < Image.USER_PAGES ensures Image.PageOk(none, [], file, v) { }
  }

  /** The new space, once its root table exists; `n` frames were free before that. */
  method Populate(vm: AddressSpaces, root: nat, g: Program, ghost n: nat) returns (ok: bool)
    requires vm.Valid() && vm.Quiet() && Node(root, Top) in vm.shape.nodes && Private(vm.shape, root) && g.Ok()
    requires Space(vm.shape, vm.mem, root) == map[] && OnBudget(vm.shape, root, vm.pmm.Free(), n, Wanted(g.phdrs))
    modifies vm, vm.pmm, vm.pmm.bitmap, vm.pmm.bitmap.bytes, vm.pmm.refs
    ensures vm.Valid() && vm.Quiet() && Node(root, Top) in vm.shape.nodes && GrewOnly(old(vm.shape), vm.shape, root)
    ensures vm.pmm.managed == old(vm.pmm.managed) && Private(vm.shape, root)
    ensures ok <==> g.Runnable() && n >= Need(g.phdrs)
    ensures ok ==> |vm.pmm.Free()| == n - Need(g.phdrs) && Space(vm.shape, vm.mem, root) == g.Pages()
    ensures SameElsewhere(old(vm.shape), old(vm.mem), vm.shape, vm.mem, root)
  {
    EmptyLoaded(g.file);
    WantsImage(Wanted(g.phdrs), g.phdrs);
    var entry, loaded := Load(vm, root, g.hdr, g.phdrs, g.file, n, Wanted(g.phdrs));
    if entry == 0 { return false; }
    ghost var s, m := vm.shape, vm.mem;
    LoadedIs(s, m, vm.pmm.counts, root, g.phdrs, g.file);
    ImageClash(Space(s, m, root), g.phdrs, g.file, g.args);
    ok := MapArgsAndStack(vm, root, g.args, g.stack, n, Wanted(g.phdrs));
    GrewTwice(old(vm.shape), s, vm.shape, root);
    SameTwice(old(vm.shape), old(vm.mem), s, m, vm.shape, vm.mem, root);
    if ok { AllSpent(vm.shape, vm.mem, vm.pmm.counts, root, vm.pmm.Free(), n, g); }
  }

  /** With image, arguments and stack in place exactly the frames needed are gone. */
  lemma {:induction false} AllSpent(s: Shape, m: Memory, c: map<nat, nat>, root: nat, free: set<nat>, n: nat, g: Program)
    requires Consistent(s, m, c) && OnBudget(s, root, free, n, Wanted(g.phdrs)) && g.Ok() && Space(s, m, root) == g.Pages()
    ensures |free| == n - Need(g.phdrs)
  {
    forall p | p in Wanted(g.phdrs) ensures Node(root, p) in s.nodes {
      WantedThere(g, p);
      SpaceAt(s, m, c, root, p);
    }
    AllThere(s, m, root, Wanted(g.phdrs));
  }

  lemma {:induction false} WantedThere(g: Program, p: Path)
    requires g.Ok() && p in Wanted(g.phdrs)
    ensures p in g.Pages()
  {
    var paths := StackPaths();
    PutThere(ImageMap(g.phdrs, g.file)[PagePath(ARG_PAGE_BASE) := g.args], paths, g.stack, |g.stack|, p);
    assert paths[..|g.stack|] == paths;
  }

  /** Putting pages in place removes none. */
  lemma {:induction false} PutThere(space: map<Path, seq<bv8>>, paths: seq<Path>, pages: seq<seq<bv8>>, n: nat, p: Path)
    requires n <= |pages| == |paths|
    ensures p in WithPages(space, paths, pages, n) <==> p in space || p in paths[..n]
  {
    if n > 0 {
      PutThere(space, paths, pages, n - 1, p);
      assert paths[..n] == paths[..n - 1] + [paths[n - 1]];
    }
  }

  method MapArgsAndStack(vm: AddressSpaces, root: nat, args: seq<bv8>, stack: seq<seq<bv8>>, ghost n: nat, ghost wanted: set<Path>)
    returns (ok: bool)
    requires vm.Valid() && vm.Quiet() && Node(root, Top) in vm.shape.nodes && Private(vm.shape, root)
    requires |args| == 4096 && |stack| == USER_STACK_PAGES && forall p :: 0 <= p < |stack| ==> |stack[p]| == 4096
    requires OnBudget(vm.shape, root, vm.pmm.Free(), n, wanted) && PagePath(ARG_PAGE_BASE) in wanted
    requires forall p :: p in StackPaths() ==> p in wanted
    modifies vm, vm.pmm, vm.pmm.bitmap, vm.pmm.bitmap.bytes, vm.pmm.refs
    ensures vm.Valid() && vm.Quiet() && Node(root, Top) in vm.shape.nodes && GrewOnly(old(vm.shape), vm.shape, root)
    ensures vm.pmm.managed == old(vm.pmm.managed) && Private(vm.shape, root)
    ensures ok ==> Space(vm.shape, vm.mem, root) == WithStack(old(Space(vm.shape, vm.mem, root))[PagePath(ARG_PAGE_BASE) := args], stack)
    ensures if ok then Unobstructed(old(Space(vm.shape, vm.mem, root)), args) && OnBudget(vm.shape, root, vm.pmm.Free(), n, wanted)
            else !Unobstructed(old(Space(vm.shape, vm.mem, root)), args) || n < |Tree(wanted)|
    ensures SameElsewhere(old(vm.shape), old(vm.mem), vm.shape, vm.mem, root)
  {
    ghost var s, m := vm.shape, vm.mem;
    ok := MapOne(vm, root, ARG_PAGE_BASE, args, Flags(true, true, true, false, true), n, wanted);
    if !ok { return; }
    ghost var s1, m1 := vm.shape, vm.mem;
    ok := MapStack(vm, root, stack, n, wanted);
    GrewTwice(s, s1, vm.shape, root);
    SameTwice(s, m, s1, m1, vm.shape, vm.mem, root);
  }

  ghost predicate Unobstructed(space: map<Path, seq<bv8>>, args: seq<bv8>) {
    PagePath(ARG_PAGE_BASE) !in space && !Blocked(space[PagePath(ARG_PAGE_BASE) := args])
  }

  /** In a loaded image the pages in the way are those that clash. */
  lemma ImageClash(image: map<Path, seq<bv8>>, phdrs: seq<Phdr>, file: Image.File, args: seq<bv8>)
    requires Image.Loaded(image, Loads(phdrs), file)
    ensures Clash(phdrs) <==> !Unobstructed(image, args)
  {
    assert Image.PageOk(image, Loads(phdrs), file, ARG_PAGE_BASE / 4096);
    forall p | 0 <= p < USER_STACK_PAGES
      ensures PagePath(StackPage(p)) in image <==> Image.Touched(Loads(phdrs), StackPage(p) / 4096)
      ensures PagePath(StackPage(p)) != PagePath(ARG_PAGE_BASE)
    {
      assert 4096 * (StackPage(p) / 4096) == StackPage(p);
      assert Image.PageOk(image, Loads(phdrs), file, StackPage(p) / 4096);
      PathIsPageNumber(StackPage(p), ARG_PAGE_BASE);
    }
    var with := image[PagePath(ARG_PAGE_BASE) := args];
    forall p | 0 <= p < USER_STACK_PAGES ensures PagePath(StackPage(p)) in with <==> PagePath(StackPage(p)) in image {}
  }

  /** Something is where the stack should go. */
  ghost predicate Blocked(space: map<Path, seq<bv8>>) {
    exists p :: 0 <= p < USER_STACK_PAGES && PagePath(StackPage(p)) in space
  }

  method MapStack(vm: AddressSpaces, root: nat, stack: seq<seq<bv8>>, ghost n: nat, ghost wanted: set<Path>) returns (ok: bool)
    requires vm.Valid() && vm.Quiet() && Node(root, Top) in vm.shape.nodes && Private(vm.shape, root)
    requires |stack| == USER_STACK_PAGES && forall p :: 0 <= p < |stack| ==> |stack[p]| == 4096
    requires OnBudget(vm.shape, root, vm.pmm.Free(), n, wanted) && forall p :: p in StackPaths() ==> p in wanted
    modifies vm, vm.pmm, vm.pmm.bitmap, vm.pmm.bitmap.bytes, vm.pmm.refs
    ensures vm.Valid() && vm.Quiet() && Node(root, Top) in vm.shape.nodes && GrewOnly(old(vm.shape), vm.shape, root)
    ensures vm.pmm.managed == old(vm.pmm.managed) && Private(vm.shape, root)
    ensures ok ==> Space(vm.shape, vm.mem, root) == WithStack(old(Space(vm.shape, vm.mem, root)), stack)
    ensures if ok then !Blocked(old(Space(vm.shape, vm.mem, root))) && OnBudget(vm.shape, root, vm.pmm.Free(), n, wanted)
            else Blocked(old(Space(vm.shape, vm.mem, root))) || n < |Tree(wanted)|
    ensures SameElsewhere(old(vm.shape), old(vm.mem), vm.shape, vm.mem, root)
  {
    StackDistinct(StackPaths());
    BlockedIs(Space(vm.shape, vm.mem, root), StackPaths());
    ghost var paths := StackPaths();
    forall p: nat ensures StackSlot(paths, wanted, p) { assert p < |paths| ==> paths[p] in paths; }
    ok := MapPages(vm, root, stack, paths, n, wanted);
    PlacedIs(Space(vm.shape, vm.mem, root), old(Space(vm.shape, vm.mem, root)), paths, stack, |stack|);
  }

  /** Page `p` of the stack is at its place among the paths, and wanted. */
  ghost predicate StackSlot(paths: seq<Path>, wanted: set<Path>, p: nat) {
    p < |paths| && p < USER_STACK_PAGES ==> paths[p] == PagePath(StackPage(p)) && paths[p] in wanted
  }

  method MapPages(vm: AddressSpaces, root: nat, stack: seq<seq<bv8>>, ghost paths: seq<Path>, ghost n: nat, ghost wanted: set<Path>)
    returns (ok: bool)
    requires vm.Valid() && vm.Quiet() && Node(root, Top) in vm.shape.nodes && Private(vm.shape, root)
    requires |stack| == |paths| == USER_STACK_PAGES && forall p :: 0 <= p < |stack| ==> |stack[p]| == 4096
    requires forall p: nat {:trigger StackSlot(paths, wanted, p)} :: StackSlot(paths, wanted, p)
    requires Distinct(paths) && OnBudget(vm.shape, root, vm.pmm.Free(), n, wanted)
    modifies vm, vm.pmm, vm.pmm.bitmap, vm.pmm.bitmap.bytes, vm.pmm.refs
    ensures vm.Valid() && vm.Quiet() && Node(root, Top) in vm.shape.nodes && GrewOnly(old(vm.shape), vm.shape, root)
    ensures vm.pmm.managed == old(vm.pmm.managed) && Private(vm.shape, root)
    ensures ok ==> Placed(Space(vm.shape, vm.mem, root), old(Space(vm.shape, vm.mem, root)), paths, stack, |stack|)
    ensures if ok then NoneThere(paths, |paths|, old(Space(vm.shape, vm.mem, root))) && OnBudget(vm.shape, root, vm.pmm.Free(), n, wanted)
            else !NoneThere(paths, |paths|, old(Space(vm.shape, vm.mem, root))) || n < |Tree(wanted)|
    ensures SameElsewhere(old(vm.shape), old(vm.mem), vm.shape, vm.mem, root)
  {
    ghost var s0, m0, space := vm.shape, vm.mem, Space(vm.shape, vm.mem, root);
    NothingElsewhere(s0, m0, root);
    ok := true;
    for p := 0 to |stack|
      invariant ok && vm.Valid() && vm.Quiet() && Node(root, Top) in vm.shape.nodes && GrewOnly(s0, vm.shape, root)
      invariant Private(vm.shape, root) && vm.pmm.managed == old(vm.pmm.managed) && SameElsewhere(s0, m0, vm.shape, vm.mem, root)
      invariant Placed(Space(vm.shape, vm.mem, root), space, paths, stack, p) && NoneThere(paths, p, space)
      invariant OnBudget(vm.shape, root, vm.pmm.Free(), n, wanted)
    {
      ghost var s, m := vm.shape, vm.mem;
      ok := MapNext(vm, root, stack, paths, p, n, wanted, space);
      GrewTwice(s0, s, vm.shape, root);
      SameTwice(s0, m0, s, m, vm.shape, vm.mem, root);
      if !ok { return; }
    }
  }

  ghost predicate PlacedOk(now: map<Path, seq<bv8>>, space: map<Path, seq<bv8>>, paths: seq<Path>, pages: seq<seq<bv8>>, n: nat, q: Path)
    requires n <= |pages| == |paths|
  {
    var want := WithPages(space, paths, pages, n);
    (q in now <==> q in want) && (q in now && q in want ==> now[q] == want[q])
  }

  /** The space now shows the first `n` pages in place. */
  ghost predicate Placed(now: map<Path, seq<bv8>>, space: map<Path, seq<bv8>>, paths: seq<Path>, pages: seq<seq<bv8>>, n: nat) {
    n <= |pages| == |paths| && forall q {:trigger PlacedOk(now, space, paths, pages, n, q)} :: PlacedOk(now, space, paths, pages, n, q)
  }

  lemma PlacedIs(now: map<Path, seq<bv8>>, space: map<Path, seq<bv8>>, paths: seq<Path>, pages: seq<seq<bv8>>, n: nat)
    requires n <= |pages| == |paths|
    ensures Placed(now, space, paths, pages, n) <==> now == WithPages(space, paths, pages, n)
  {
    if Placed(now, space, paths, pages, n) {
      forall q ensures (q in now <==> q in WithPages(space, paths, pages, n)) && (q in now ==> now[q] == WithPages(space, paths, pages, n)[q]) {
        assert PlacedOk(now, space, paths, pages, n, q);
      }
    }
  }

  /** The next page of the stack. */
  method MapNext(vm: AddressSpaces, root: nat, stack: seq<seq<bv8>>, ghost paths: seq<Path>, p: nat, ghost n: nat, ghost wanted: set<Path>,
                 ghost space: map<Path, seq<bv8>>) returns (ok: bool)
    requires vm.Valid() && vm.Quiet() && Node(root, Top) in vm.shape.nodes && Private(vm.shape, root)
    requires p < |stack| == |paths| == USER_STACK_PAGES && |stack[p]| == 4096 && Distinct(paths)
    requires forall k: nat {:trigger StackSlot(paths, wanted, k)} :: StackSlot(paths, wanted, k)
    requires OnBudget(vm.shape, root, vm.pmm.Free(), n, wanted)
    requires Placed(Space(vm.shape, vm.mem, root), space, paths, stack, p) && NoneThere(paths, p, space)
    modifies vm, vm.pmm, vm.pmm.bitmap, vm.pmm.bitmap.bytes, vm.pmm.refs
    ensures vm.Valid() && vm.Quiet() && Node(root, Top) in vm.shape.nodes && GrewOnly(old(vm.shape), vm.shape, root)
    ensures vm.pmm.managed == old(vm.pmm.managed) && Private(vm.shape, root)
    ensures ok ==> Placed(Space(vm.shape, vm.mem, root), space, paths, stack, p + 1) && NoneThere(paths, p + 1, space)
    ensures if ok then OnBudget(vm.shape, root, vm.pmm.Free(), n, wanted) else !NoneThere(paths, |paths|, space) || n < |Tree(wanted)|
    ensures SameElsewhere(old(vm.shape), old(vm.mem), vm.shape, vm.mem, root)
  {
    assert StackSlot(paths, wanted, p);
    PagesThere(space, paths, stack, p, p);
    ThereStep(paths, p, space);
    OneMorePage(space, paths, stack, p);
    PlacedIs(Space(vm.shape, vm.mem, root), space, paths, stack, p);
    ok := MapStackPage(vm, root, stack[p], p, n, wanted);
    PlacedIs(Space(vm.shape, vm.mem, root), space, paths, stack, p + 1);
  }

  lemma OneMorePage(space: map<Path, seq<bv8>>, paths: seq<Path>, pages: seq<seq<bv8>>, n: nat)
    requires n < |pages| == |paths|
    ensures WithPages(space, paths, pages, n + 1) == WithPages(space, paths, pages, n)[paths[n] := pages[n]]
  {
  }

  /** The stack pages put in place so far are not in the way of the next. */
  lemma {:induction false} PagesThere(space: map<Path, seq<bv8>>, paths: seq<Path>, pages: seq<seq<bv8>>, n: nat, p: nat)
    requires n <= p < |pages| == |paths| && Distinct(paths)
    ensures paths[p] in WithPages(space, paths, pages, n) <==> paths[p] in space
  {
    if n > 0 { PagesThere(space, paths, pages, n - 1, p); }
  }

  ghost predicate NoneThere(paths: seq<Path>, n: nat, space: map<Path, seq<bv8>>) {
    forall p :: 0 <= p < n && p < |paths| ==> paths[p] !in space
  }

  lemma ThereStep(paths: seq<Path>, n: nat, space: map<Path, seq<bv8>>)
    requires n < |paths|
    ensures paths[n] in space ==> !NoneThere(paths, |paths|, space)
    ensures NoneThere(paths, n, space) && paths[n] !in space ==> NoneThere(paths, n + 1, space)
  {
  }

  lemma BlockedIs(space: map<Path, seq<bv8>>, paths: seq<Path>)
    requires |paths| == USER_STACK_PAGES && forall p :: 0 <= p < |paths| ==> paths[p] == PagePath(StackPage(p))
    ensures Blocked(space) <==> !NoneThere(paths, |paths|, space)
  {
    if !NoneThere(paths, |paths|, space) {
      var p :| 0 <= p < |paths| && paths[p] in space;
      assert PagePath(StackPage(p)) in space;
    }
    if Blocked(space) {
      var p :| 0 <= p < USER_STACK_PAGES && PagePath(StackPage(p)) in space;
      assert paths[p] in space;
    }
  }

  ghost predicate Distinct(paths: seq<Path>) {
    forall p, q :: 0 <= p < q < |paths| ==> paths[p] != paths[q]
  }

  lemma StackDistinct(paths: seq<Path>)
    requires |paths| == USER_STACK_PAGES && forall p :: 0 <= p < |paths| ==> paths[p] == PagePath(StackPage(p))
    ensures Distinct(paths)
  {
    forall p, q | 0 <= p < q < |paths| ensures paths[p] != paths[q] { StackApart(p, q); }
  }

  lemma StackApart(p: nat, q: nat)
    requires p < q < USER_STACK_PAGES
    ensures PagePath(StackPage(p)) != PagePath(StackPage(q))
  {
    PathIsPageNumber(StackPage(p), StackPage(q));
  }

  method MapStackPage(vm: AddressSpaces, root: nat, page: seq<bv8>, p: nat, ghost n: nat, ghost wanted: set<Path>) returns (ok: bool)
    requires vm.Valid() && vm.Quiet() && Node(root, Top) in vm.shape.nodes && Private(vm.shape, root) && p < USER_STACK_PAGES && |page| == 4096
    requires OnBudget(vm.shape, root, vm.pmm.Free(), n, wanted) && PagePath(StackPage(p)) in wanted
    modifies vm, vm.pmm, vm.pmm.bitmap, vm.pmm.bitmap.bytes, vm.pmm.refs
    ensures vm.Valid() && vm.Quiet() && Node(root, Top) in vm.shape.nodes && GrewOnly(old(vm.shape), vm.shape, root)
    ensures vm.pmm.managed == old(vm.pmm.managed) && Private(vm.shape, root)
    ensures ok ==> Space(vm.shape, vm.mem, root) == old(Space(vm.shape, vm.mem, root))[PagePath(StackPage(p)) := page]
    ensures if ok then PagePath(StackPage(p)) !in old(Space(vm.shape, vm.mem, root)) && OnBudget(vm.shape, root, vm.pmm.Free(), n, wanted)
            else PagePath(StackPage(p)) in old(Space(vm.shape, vm.mem, root)) || n < |Tree(wanted)|
    ensures SameElsewhere(old(vm.shape), old(vm.mem), vm.shape, vm.mem, root)
  {
    StackIsUser(p);
    ok := MapOne(vm, root, StackPage(p), page, Flags(true, true, true, false, true), n, wanted);
  }

  lemma StackIsUser(p: nat)
    requires p < USER_STACK_PAGES
    ensures IsUser(StackPage(p))
  {
  }

  /** do_exec builds the whole new space, or leaves every table, every reference count and every other space as it was.
      It succeeds if and only if the program can run, there is a frame for every page and table of its space, and kmalloc
      had a kernel stack. */
  method Build(vm: AddressSpaces, kernel: seq<Pte>, g: Program, kstack: bool) returns (root: nat)
    requires vm.Valid() && vm.Quiet() && |kernel| == 512 && g.Ok()
    modifies vm, vm.pmm, vm.pmm.bitmap, vm.pmm.bitmap.bytes, vm.pmm.refs
    ensures vm.Valid() && vm.Quiet() && vm.pmm.managed == old(vm.pmm.managed)
    ensures vm.shape.held == old(vm.shape.held) && vm.shape.others == old(vm.shape.others)
    ensures root != 0 <==> kstack && g.Runnable() && |old(vm.pmm.Free())| >= Need(g.phdrs)
    ensures root == 0 ==>
              vm.shape == old(vm.shape) && vm.pmm.counts == old(vm.pmm.counts) && vm.pmm.Free() == old(vm.pmm.Free())
    ensures root != 0 ==>
              && root !in old(Roots(vm.shape)) && Roots(vm.shape) == old(Roots(vm.shape)) + {root}
              && Space(vm.shape, vm.mem, root) == g.Pages()
              && |vm.pmm.Free()| == |old(vm.pmm.Free())| - Need(g.phdrs)
              && forall r :: r in old(Roots(vm.shape)) ==> OnlyOf(vm.shape, r) == OnlyOf(old(vm.shape), r)
    ensures forall r :: r in old(Roots(vm.shape)) ==> Space(vm.shape, vm.mem, r) == old(Space(vm.shape, vm.mem, r))
    ensures EntriesKept(old(vm.shape), old(vm.mem), vm.shape, vm.mem)
  {
    ghost var s, m, c, free := vm.shape, vm.mem, vm.pmm.counts, vm.pmm.Free();
    vm.FreeUncounted();
    root := vm.CreateSpace(kernel);
    if root == 0 {
      vm.FreeUncounted();
      SameUncounted(free, vm.pmm.Free(), vm.pmm.managed, vm.pmm.base, c);
      return;
    }
    vm.NewSpaceEmpty(s, m, c, root);
    AddressSpaces.NewRootAlone(s, m, c, vm.shape, root);
    ghost var s1, m1 := vm.shape, vm.mem;
    JustRoot(s, s1, root, g.phdrs);
    var ok := Populate(vm, root, g, |free|);
    OldEntries(s, m, c, s1, m1, vm.shape, vm.mem, root);
    if ok && kstack {
      NewRoots(s, s1, vm.shape, root);
      forall r | r in Roots(s) ensures OnlyOf(vm.shape, r) == OnlyOf(s, r) { SameOnly(s, s1, vm.shape, vm.mem, root, r); }
      return;
    }
    ghost var s2, m2 := vm.shape, vm.mem;
    Undo(vm, s, m, c, free, s1, root);
    SameTwice(s1, m1, s2, m2, s, vm.mem, root);
    OldEntries(s, m, c, s1, m1, s, vm.mem, root);
    root := 0;
  }

  /** The pages there were before the new space belong to other spaces. */
  lemma OldEntries(s: Shape, m: Memory, c: map<nat, nat>, s1: Shape, m1: Memory, s2: Shape, m2: Memory, root: nat)
    requires Consistent(s, m, c) && root !in c && (forall n :: n in s.nodes ==> n.root != root)
    requires s1 == s.(nodes := s.nodes[Node(root, Top) := root]) && (forall f :: f in m && f != root ==> f in m1 && m1[f] == m[f])
    requires SameElsewhere(s1, m1, s2, m2, root)
    ensures EntriesKept(s, m, s2, m2)
  {
    FreshSame(s, m, c, m1, root);
    SameEntries(s, m, s1, m1);
    forall k ensures EntryKept(s, m, s2, m2, k) { assert EntryKept(s, m, s1, m1, k) && EntryKept(s1, m1, s2, m2, k); }
  }

  lemma NewRoots(s: Shape, s1: Shape, s2: Shape, root: nat)
    requires s1 == s.(nodes := s.nodes[Node(root, Top) := root]) && (forall n :: n in s.nodes ==> n.root != root) && Grown(s1, s2)
    ensures root !in Roots(s) && Roots(s2) == Roots(s) + {root}
  {
    GrownRoots(s1, s2);
  }

  /** The new space shares no frame, so what is only another space's stays so. */
  lemma SameOnly(s: Shape, s1: Shape, s2: Shape, mem: Memory, root: nat, r: nat)
    requires s1 == s.(nodes := s.nodes[Node(root, Top) := root]) && (forall n :: n in s.nodes ==> n.root != root) && GrewOnly(s1, s2, root)
    requires SharingOk(s2, mem) && Private(s2, root) && r != root
    ensures OnlyOf(s2, r) == OnlyOf(s, r)
  {
    forall n | n in s.nodes && n.root == r ensures n in s2.nodes && s2.nodes[n] == s.nodes[n] && (SharedOut(s2, r, s.nodes[n]) <==> SharedOut(s, r, s.nodes[n])) {
      if SharedOut(s2, r, s.nodes[n]) {
        var m :| m in s2.nodes && s2.nodes[m] == s.nodes[n] && m.root != r;
        assert PairOk(s2, mem, m, n);
        assert m.root == root ==> Alone(s2, m);
        assert m in s.nodes;
      }
      if SharedOut(s, r, s.nodes[n]) {
        var m :| m in s.nodes && s.nodes[m] == s.nodes[n] && m.root != r;
        assert m in s2.nodes && s2.nodes[m] == s.nodes[n];
      }
    }
    forall f ensures f in OnlyOf(s2, r) <==> f in OnlyOf(s, r) { }
  }

  lemma {:induction false} JustRoot(s: Shape, s1: Shape, root: nat, phdrs: seq<Phdr>)
    requires s1 == s.(nodes := s.nodes[Node(root, Top) := root]) && (forall n :: n in s.nodes ==> n.root != root)
    ensures Lean(s1, root, Wanted(phdrs)) && |NodesOf(s1, root)| == 1
  {
    TrailOf(ARG_PAGE_BASE);
    assert PagePath(ARG_PAGE_BASE) in Wanted(phdrs);
    assert Above(Top, Wanted(phdrs));
    assert NodesOf(s1, root) == {Top};
  }

  /** The failure path of do_exec. */
  method Undo(vm: AddressSpaces, ghost s: Shape, ghost m: Memory, ghost c: map<nat, nat>, ghost free: set<nat>, ghost s1: Shape, root: nat)
    requires vm.Valid() && vm.Quiet() && Node(root, Top) in vm.shape.nodes && Consistent(s, m, c)
    requires s.building == {} && s.dying == {} && Uncounted(free, vm.pmm.managed, vm.pmm.base, c)
    requires s1 == s.(nodes := s.nodes[Node(root, Top) := root]) && (forall n :: n in s.nodes ==> n.root != root)
    requires GrewOnly(s1, vm.shape, root)
    modifies vm, vm.pmm, vm.pmm.bitmap, vm.pmm.bitmap.bytes, vm.pmm.refs
    ensures vm.Valid() && vm.shape == s && vm.pmm.counts == c && vm.pmm.Free() == free && vm.pmm.managed == old(vm.pmm.managed)
    ensures SameElsewhere(old(vm.shape), old(vm.mem), vm.shape, vm.mem, root)
  {
    ghost var s2, m2 := vm.shape, vm.mem;
    vm.Destroy(root);
    Undone(s, s1, s2, vm.shape, root);
    AddressSpaces.DestroyedEntries(s2, m2, vm.shape, vm.mem, root);
    CountsDetermined(s, c, vm.shape, vm.pmm.counts);
    vm.FreeUncounted();
    SameUncounted(free, vm.pmm.Free(), vm.pmm.managed, vm.pmm.base, c);
  }

  /** Whatever the new space had gained is gone with it. */
  lemma Undone(s: Shape, s1: Shape, s2: Shape, s3: Shape, root: nat)
    requires s1 == s.(nodes := s.nodes[Node(root, Top) := root]) && (forall n :: n in s.nodes ==> n.root != root)
    requires GrewOnly(s1, s2, root) && s2.building == s.building && s2.dying == s.dying
    requires forall n :: n in s3.nodes <==> n in s2.nodes && n.root != root
    requires forall n :: n in s3.nodes ==> s3.nodes[n] == s2.nodes[n]
    requires s3 == s2.(nodes := s3.nodes)
    ensures s3 == s
  {
    forall n ensures n in s3.nodes <==> n in s.nodes { assert n in s2.nodes && n !in s1.nodes ==> n.root == root; }
    assert s3.nodes == s.nodes;
  }

  /** Pages put in place leave every other page. */
  lemma {:induction false} PagesKeep(space: map<Path, seq<bv8>>, paths: seq<Path>, pages: seq<seq<bv8>>, n: nat, path: Path)
    requires n <= |pages| == |paths| && path in space && forall p :: 0 <= p < n ==> paths[p] != path
    ensures path in WithPages(space, paths, pages, n) && WithPages(space, paths, pages, n)[path] == space[path]
  {
    if n > 0 { PagesKeep(space, paths, pages, n - 1, path); }
  }

  lemma {:induction false} NotStack(phdrs: seq<Phdr>, v: nat, p: nat)
    requires !Clash(phdrs) && Image.Touched(Loads(phdrs), v) && v < Image.USER_PAGES && p < USER_STACK_PAGES
    ensures PagePath(StackPage(p)) != PagePath(4096 * v)
  {
    assert 4096 * (StackPage(p) / 4096) == StackPage(p) && StackPage(p) / 4096 != v;
    Image.PagesDiffer(v, StackPage(p) / 4096);
  }

  lemma {:induction false} NotArgs(phdrs: seq<Phdr>, v: nat)
    requires !Clash(phdrs) && Image.Touched(Loads(phdrs), v) && v < Image.USER_PAGES
    ensures PagePath(ARG_PAGE_BASE) != PagePath(4096 * v)
  {
    Image.PagesDiffer(v, ARG_PAGE_BASE / 4096);
  }

  /** The program that exec starts finds at every address of every PT_LOAD range its file byte, or zero past the file
      bytes: neither the arguments nor the stack are in the way. */
  lemma {:induction false} ProgramShows(g: Program, i: nat, v: nat, j: nat)
    requires g.Ok() && g.Runnable() && Apart(g.phdrs) && i < |g.phdrs| && j < 4096 && Holds(g.phdrs[i], 4096 * v + j)
    ensures WellFormed(g.phdrs[i], g.file)
    ensures PagePath(4096 * v) in g.Pages() && |g.Pages()[PagePath(4096 * v)]| == 4096
    ensures g.Pages()[PagePath(4096 * v)][j] == Shown(g.phdrs[i], g.file, 4096 * v + j)
  {
    ApartSole(g.phdrs, i, v, j);
    ImageByte(g.phdrs, g.file, i, v, j);
    HoldsTouches(g.phdrs[i], v, j);
    TouchedInImage(g.phdrs, v);
    Image.NumberOfPath(v);
    var paths := StackPaths();
    forall p | 0 <= p < |paths| ensures paths[p] != PagePath(4096 * v) { NotStack(g.phdrs, v, p); }
    NotArgs(g.phdrs, v);
    PagesKeep(ImageMap(g.phdrs, g.file)[PagePath(ARG_PAGE_BASE) := g.args], paths, g.stack, |g.stack|, PagePath(4096 * v));
  }
}
