/** Directories on a volume (kernel/fs/ext2/ext2_dir.c): lookup, add_dirent and unlink through the block mapping. */
module Ext2Folders {

  import opened Ext2Blocks
  import opened Ext2Dirents
  import opened Ext2Directories
  import V = Ext2Volumes
  import F = Ext2Files

  // ----- the blocks of a directory -----

  ghost predicate BlockIs(disk: seq<seq<Byte>>, block: seq<nat>, views: seq<seq<Dirent>>, l: nat)
    requires |block| == 15 && l < |views|
  {
    var b := Mapped(disk, block, l);
    0 < b < |disk| && Tiled(disk[b], views[l])
  }

  /** The directory of `inode` has these entries: its first blocks are mapped and tiled by them, and nothing is mapped
      after those.  The size may say more, since add_dirent adds to it also when it could not link a block. */
  ghost predicate IsDir(disk: seq<seq<Byte>>, inode: Inode, views: seq<seq<Dirent>>) {
    && |inode.block| == 15 && |views| <= MAX_BLOCKS && inode.size % 1024 == 0 && 1024 * |views| <= inode.size
    && (forall l: nat {:trigger BlockIs(disk, inode.block, views, l)} :: l < |views| ==> BlockIs(disk, inode.block, views, l))
    && forall l: nat {:trigger Mapped(disk, inode.block, l)} :: |views| <= l < MAX_BLOCKS ==> Mapped(disk, inode.block, l) == 0
  }

  /** The bytes on disk alone say which entries a directory has. */
  lemma EntriesUnique(disk: seq<seq<Byte>>, inode: Inode, views: seq<seq<Dirent>>, others: seq<seq<Dirent>>)
    requires IsDir(disk, inode, views) && IsDir(disk, inode, others)
    ensures views == others
  {
    assert |views| < |others| ==> BlockIs(disk, inode.block, others, |views|);
    assert |others| < |views| ==> BlockIs(disk, inode.block, views, |others|);
    forall l: nat | l < |views| ensures views[l] == others[l] {
      assert BlockIs(disk, inode.block, views, l) && BlockIs(disk, inode.block, others, l);
      TilingUnique(disk[Mapped(disk, inode.block, l)], views[l], others[l]);
    }
  }

  /** One block got other entries. */
  lemma BlockPut(d: seq<seq<Byte>>, inode: Inode, views: seq<seq<Dirent>>, d': seq<seq<Byte>>, l: nat, vs: seq<Dirent>)
    requires IsDir(d, inode, views) && l < |views|
    requires Remapped(d, inode.block, d', inode.block, l, Mapped(d, inode.block, l))
    requires Mapped(d, inode.block, l) < |d'| && Tiled(d'[Mapped(d, inode.block, l)], vs)
    ensures IsDir(d', inode, views[l := vs])
  {
    var b, views' := Mapped(d, inode.block, l), views[l := vs];
    forall k: nat | k < |views'| ensures BlockIs(d', inode.block, views', k) {
      assert BlockIs(d, inode.block, views, k) && RemappedAt(d, inode.block, d', inode.block, l, b, k);
    }
    forall k: nat | |views'| <= k < MAX_BLOCKS ensures Mapped(d', inode.block, k) == 0 {
      assert RemappedAt(d, inode.block, d', inode.block, l, b, k);
    }
  }

  /** One more block. */
  lemma BlockAdded(d: seq<seq<Byte>>, inode: Inode, views: seq<seq<Dirent>>, d': seq<seq<Byte>>, inode': Inode, b: nat, vs: seq<Dirent>)
    requires IsDir(d, inode, views) && |views| < MAX_BLOCKS && |inode'.block| == 15 && inode'.size == inode.size + 1024
    requires Remapped(d, inode.block, d', inode'.block, |views|, b) && 0 < b < |d'| && Tiled(d'[b], vs)
    ensures IsDir(d', inode', views + [vs])
  {
    var n, views' := |views|, views + [vs];
    forall k: nat | k < |views'| ensures BlockIs(d', inode'.block, views', k) {
      assert k < n ==> BlockIs(d, inode.block, views, k);
      assert RemappedAt(d, inode.block, d', inode'.block, n, b, k);
    }
    forall k: nat | |views'| <= k < MAX_BLOCKS ensures Mapped(d', inode'.block, k) == 0 {
      assert RemappedAt(d, inode.block, d', inode'.block, n, b, k);
      assert Mapped(d, inode.block, k) == 0;
    }
  }

  /** The blocks are as before; only the size may have grown. */
  lemma BlocksSame(d: seq<seq<Byte>>, inode: Inode, views: seq<seq<Dirent>>, d': seq<seq<Byte>>, inode': Inode)
    requires IsDir(d, inode, views) && SameFile(d, d', inode.block) && inode'.block == inode.block
    requires inode'.size % 1024 == 0 && inode'.size >= inode.size
    ensures IsDir(d', inode', views)
  {
    forall k: nat | k < |views| ensures BlockIs(d', inode'.block, views, k) {
      assert BlockIs(d, inode.block, views, k) && SameBlock(d, d', inode.block, k);
    }
    forall k: nat | |views| <= k < MAX_BLOCKS ensures Mapped(d', inode'.block, k) == 0 {
      assert SameBlock(d, d', inode.block, k) && Mapped(d, inode.block, k) == 0;
    }
  }

  // ----- when a name can be added -----

  ghost predicate Room(views: seq<seq<Dirent>>, n: nat) {
    exists l :: 0 <= l < |views| && HasRoom(views[l], n)
  }

  /** A new block can be linked as block `n`: directly, through the table there is, or through a new one. */
  predicate Linkable(free: nat, n: nat, table: bool) {
    n < 12 || (n < MAX_BLOCKS && (table || free >= 2))
  }

  /** A name added to this directory stays: an entry has room, or a new block can be linked. */
  ghost predicate Stays(views: seq<seq<Dirent>>, free: nat, table: bool, n: nat) {
    Room(views, n) || Linkable(free, |views|, table)
  }

  /** The free blocks after one more block for a directory of `n`, which may take a table too or may not be linked. */
  ghost function FreeAfter(free: nat, n: nat, table: bool): nat {
    if free == 0 then 0 else if 12 <= n < MAX_BLOCKS && !table && free >= 2 then free - 2 else free - 1
  }

  /** Whether there is a table then. */
  ghost predicate TableAfter(free: nat, n: nat, table: bool) {
    table || (12 <= n < MAX_BLOCKS && free >= 2)
  }

  /** Four entries that fill a block leave no room for any name. */
  ghost predicate Full(vs: seq<Dirent>) {
    |vs| == 4 && forall k :: 0 <= k < 4 ==> vs[k].ino != 0 && vs[k].rec == 256 && |vs[k].name| == 248
  }

  /** Names are lost: a directory of twelve full blocks, no table and one free block. */
  lemma NamesLost(views: seq<seq<Dirent>>, n: nat)
    requires |views| == 12 && forall l :: 0 <= l < 12 ==> Full(views[l])
    ensures !Room(views, n) && !Linkable(1, |views|, false)
  {
    forall l | 0 <= l < |views| ensures !HasRoom(views[l], n) {
      forall k | 0 <= k < |views[l]| ensures !Roomy(views[l][k], n) { assert Full(views[l]) && RecLen(248) == 256; }
    }
  }

  // ----- runs -----

  datatype DirOp = Create(child: nat, name: seq<Byte>, kind: Byte) | Remove(name: seq<Byte>)

  datatype DirResult = Exists | NoSpace | Reported | Missing | Unlinked

  /** The entries, the free blocks, and whether there is an indirect table. */
  datatype DirView = DirView(views: seq<seq<Dirent>>, free: nat, table: bool)

  /** For lookup the listing changed from `before` to `after` by giving `name` the inode `ino`, or none if it is 0. */
  ghost predicate Updates(before: seq<Link>, after: seq<Link>, name: seq<Byte>, ino: nat) {
    forall n :: Find(after, n) == if n == name then ino else Find(before, n)
  }

  /** The name that unlinking `name` takes out: another one with the same inode, unless no earlier entry has that inode. */
  ghost predicate TakesOut(links: seq<Link>, name: seq<Byte>, victim: seq<Byte>) {
    Find(links, victim) == Find(links, name) && (victim == name <==> FirstOfInode(links, name))
  }

  /** A block more was taken, and perhaps a table. */
  ghost predicate Grew(v: DirView, w: DirView) {
    && w.free == FreeAfter(v.free, |v.views|, v.table) && w.table == TableAfter(v.free, |v.views|, v.table)
    && |w.views| == |v.views| + if Linkable(v.free, |v.views|, v.table) then 1 else 0
  }

  ghost predicate SameBlocks(v: DirView, w: DirView) {
    w.free == v.free && w.table == v.table && |w.views| == |v.views|
  }

  /** One operation of a run. */
  ghost predicate DirStep(v: DirView, op: DirOp, r: DirResult, w: DirView) {
    var before, after := Listing(v.views), Listing(w.views);
    match op
    case Create(child, name, _) =>
      && r == (if Find(before, name) != 0 then Exists else if !Room(v.views, |name|) && v.free == 0 then NoSpace else Reported)
      && (if r == Reported && Stays(v.views, v.free, v.table, |name|) then Updates(before, after, name, child) else w.views == v.views)
      && if r == Reported && !Room(v.views, |name|) then Grew(v, w) else SameBlocks(v, w)
    case Remove(name) =>
      && SameBlocks(v, w)
      && r == (if Find(before, name) == 0 then Missing else Unlinked)
      && if r == Unlinked then exists victim :: TakesOut(before, name, victim) && Updates(before, after, victim, 0) else w.views == v.views
  }

  ghost predicate DirRun(ops: seq<DirOp>, rs: seq<DirResult>, trace: seq<DirView>) {
    && |rs| == |ops| && |trace| == |ops| + 1
    && forall i :: 0 <= i < |ops| ==> DirStep(trace[i], ops[i], rs[i], trace[i + 1])
  }

  lemma RunLonger(ops: seq<DirOp>, rs: seq<DirResult>, trace: seq<DirView>, i: nat, r: DirResult, w: DirView)
    requires i < |ops| && DirRun(ops[..i], rs, trace) && DirStep(trace[i], ops[i], r, w)
    ensures DirRun(ops[..i + 1], rs + [r], trace + [w])
  {
    var ops', rs', trace' := ops[..i + 1], rs + [r], trace + [w];
    forall k | 0 <= k < |ops'| ensures DirStep(trace'[k], ops'[k], rs'[k], trace'[k + 1]) {
      assert k < i ==> ops'[k] == ops[..i][k] && DirStep(trace[k], ops[..i][k], rs[k], trace[k + 1]);
    }
  }

  /** The blocks that are free or belong to the directory. */
  ghost function Accounted(v: DirView): nat {
    v.free + |v.views| + if v.table then 1 else 0
  }

  /** How many of the first `n` adds were reported although their name is lost. */
  ghost function Lost(ops: seq<DirOp>, rs: seq<DirResult>, trace: seq<DirView>, n: nat): nat
    requires n <= |ops| && n <= |rs| && n <= |trace|
  {
    if n == 0 then 0 else Lost(ops, rs, trace, n - 1) + if Sound(trace[n - 1], ops[n - 1], rs[n - 1]) || ops[n - 1].Remove? then 0 else 1
  }

  /** In every run each lost name costs one block, which from then on neither is free nor belongs to the directory; nothing
      else does. */
  lemma {:induction false} BlocksLost(ops: seq<DirOp>, rs: seq<DirResult>, trace: seq<DirView>, n: nat)
    requires DirRun(ops, rs, trace) && n <= |ops|
    ensures Accounted(trace[n]) + Lost(ops, rs, trace, n) == Accounted(trace[0])
  {
    if n > 0 {
      BlocksLost(ops, rs, trace, n - 1);
      assert DirStep(trace[n - 1], ops[n - 1], rs[n - 1], trace[n - 1 + 1]);
      BlockLost(trace[n - 1], ops[n - 1], rs[n - 1], trace[n]);
    }
  }

  lemma BlockLost(v: DirView, op: DirOp, r: DirResult, w: DirView)
    requires DirStep(v, op, r, w)
    ensures Accounted(w) + (if Sound(v, op, r) || op.Remove? then 0 else 1) == Accounted(v)
  {
    if op.Create? && r == Reported && !Room(v.views, |op.name|) { assert Grew(v, w); }
  }

  /** What the results say a directory should be: a map from names to inodes. */
  ghost function MapStep(m: map<seq<Byte>, nat>, op: DirOp, r: DirResult): map<seq<Byte>, nat> {
    if r == Reported && op.Create? then m[op.name := op.child] else if r == Unlinked && op.Remove? then m - {op.name} else m
  }

  ghost function MapRun(m: map<seq<Byte>, nat>, ops: seq<DirOp>, rs: seq<DirResult>): map<seq<Byte>, nat>
    requires |ops| == |rs|
  {
    if ops == [] then m else MapStep(MapRun(m, ops[..|ops| - 1], rs[..|rs| - 1]), ops[|ops| - 1], rs[|rs| - 1])
  }

  ghost predicate Shows(links: seq<Link>, m: map<seq<Byte>, nat>) {
    forall n :: Find(links, n) == if n in m then m[n] else 0
  }

  /** The two things that can go wrong do not: a name that is reported as added stays, and no name with the same inode
      comes before one that is removed. */
  ghost predicate Sound(v: DirView, op: DirOp, r: DirResult) {
    match op
    case Create(_, name, _) => r == Reported ==> Stays(v.views, v.free, v.table, |name|)
    case Remove(name) => r == Unlinked ==> FirstOfInode(Listing(v.views), name)
  }

  lemma StepIsMap(v: DirView, op: DirOp, r: DirResult, w: DirView, m: map<seq<Byte>, nat>)
    requires DirStep(v, op, r, w) && Sound(v, op, r) && Shows(Listing(v.views), m)
    ensures Shows(Listing(w.views), MapStep(m, op, r))
  {
    if op.Remove? && r == Unlinked {
      var victim :| TakesOut(Listing(v.views), op.name, victim) && Updates(Listing(v.views), Listing(w.views), victim, 0);
      assert victim == op.name;
    }
  }

  /** Any run of adds and removes in which those two things do not happen is a run over a map. */
  lemma {:induction false} RunIsMap(ops: seq<DirOp>, rs: seq<DirResult>, trace: seq<DirView>, m: map<seq<Byte>, nat>, n: nat)
    requires DirRun(ops, rs, trace) && n <= |ops| && Shows(Listing(trace[0].views), m)
    requires forall i :: 0 <= i < n ==> Sound(trace[i], ops[i], rs[i])
    ensures Shows(Listing(trace[n].views), MapRun(m, ops[..n], rs[..n]))
  {
    if n > 0 {
      RunIsMap(ops, rs, trace, m, n - 1);
      assert ops[..n][..n - 1] == ops[..n - 1] && rs[..n][..n - 1] == rs[..n - 1];
      assert DirStep(trace[n - 1], ops[n - 1], rs[n - 1], trace[n - 1 + 1]);
      StepIsMap(trace[n - 1], ops[n - 1], rs[n - 1], trace[n], MapRun(m, ops[..n - 1], rs[..n - 1]));
    }
  }

  class Directory {
    const vol: V.Volume
    const dir: nat
    ghost var views: seq<seq<Dirent>>

    ghost predicate Valid()
      reads this, vol, vol.disk, vol.alloc, vol.alloc.bitmap, vol.alloc.bitmap.bytes, vol.alloc.freeCount
    {
      vol.Valid() && dir in vol.inodes && IsDir(vol.disk[..], vol.inodes[dir], views)
    }

    ghost function Names(): seq<Link>
      reads this
    {
      Listing(views)
    }

    /** Every other file and its inode are as they were. */
    twostate predicate OthersKept()
      reads vol, vol.disk
    {
      && (forall i :: i in vol.inodes <==> i in old(vol.inodes))
      && (forall i :: i in vol.inodes && i in old(vol.inodes) && i != dir ==> vol.inodes[i] == old(vol.inodes[i]))
      && V.OthersSame(old(vol.disk[..]), vol.disk[..], old(vol.inodes), dir)
    }

    constructor (vol: V.Volume, dir: nat, ghost views: seq<seq<Dirent>>)
      requires vol.Valid() && dir in vol.inodes && IsDir(vol.disk[..], vol.inodes[dir], views)
      ensures Valid() && this.vol == vol && this.dir == dir && this.views == views
    {
      this.vol, this.dir, this.views := vol, dir, views;
    }

    /** The new directory of ext2_mkdir: one block with the two dot entries. */
    static method Mkdir(vol: V.Volume, ino: nat, parent: nat) returns (d: Directory?)
      requires vol.Valid() && ino !in vol.inodes && 0 < ino < 0x1_0000_0000 && 0 < parent < 0x1_0000_0000
      modifies vol, vol.disk, vol.alloc.bitmap, vol.alloc.bitmap.bytes, vol.alloc.freeCount
      ensures d == null <==> old(vol.alloc.Free()) == {}
      ensures d == null ==> vol.Valid() && vol.inodes == old(vol.inodes) && vol.disk[..] == old(vol.disk[..])
      ensures d != null ==> fresh(d) && d.Valid() && d.vol == vol && d.dir == ino
      ensures d != null ==> d.Names() == [Link([46], ino, 2), Link([46, 46], parent, 2)]
      ensures d != null ==> vol.inodes == old(vol.inodes)[ino := vol.inodes[ino]] && V.OthersSame(old(vol.disk[..]), vol.disk[..], old(vol.inodes), ino)
    {
      var b;
      ghost var vs;
      b, vs := DotBlock(ino, parent);
      var none: seq<nat> := seq(15, _ => 0);
      ghost var d0 := vol.disk[..];
      NoBlocks(d0, vol.user, ino, none);
      var phys, block;
      ghost var placed;
      phys, block, placed := vol.PutNew(ino, none, 0, 0, b);
      if phys == 0 { return null; }
      WholeBlock(b, vol.disk[phys]);
      vol.SetInode(ino, Inode(0x41ED, 1024, 2, block));
      NewDir(d0, none, vol.disk[..], block, phys, vs);
      d := new Directory(vol, ino, [vs]);
    }

    static method DotBlock(ino: nat, parent: nat) returns (b: seq<Byte>, ghost vs: seq<Dirent>)
      requires 0 < ino < 0x1_0000_0000 && 0 < parent < 0x1_0000_0000
      ensures Tiled(b, vs) && Listing([vs]) == [Link([46], ino, 2), Link([46, 46], parent, 2)]
    {
      var b0 := PutU16(Zeros(), 4, 12);
      var b1 := Fill(b0, 0, ino, 2, [46]);
      var b2 := PutU16(b1, 16, 1012);
      b := Fill(b2, 12, parent, 2, [46, 46]);
      ghost var dot, dotdot := Dirent(ino, 12, 2, [46]), Dirent(parent, 1012, 2, [46, 46]);
      EntryKept(b1, b2, 0, dot, 16, 18);
      EntryKept(b2, b, 0, dot, 12, 22);
      TwoEntries(b, dot, dotdot);
      vs := [dot, dotdot];
    }

    static lemma NoBlocks(d: seq<seq<Byte>>, user: map<nat, Use>, ino: nat, none: seq<nat>)
      requires DiskOk(d) && none == seq(15, _ => 0)
      ensures RefsOk(d, user, ino, none)
      ensures forall l: nat {:trigger Mapped(d, none, l)} :: l < MAX_BLOCKS ==> Mapped(d, none, l) == 0
    {
      forall l: nat | l < MAX_BLOCKS ensures Mapped(d, none, l) == 0 && RefOk(d, user, ino, none, l) { }
    }

    static lemma NewDir(d: seq<seq<Byte>>, none: seq<nat>, d': seq<seq<Byte>>, block: seq<nat>, phys: nat, vs: seq<Dirent>)
      requires |none| == 15 && (forall l: nat {:trigger Mapped(d, none, l)} :: l < MAX_BLOCKS ==> Mapped(d, none, l) == 0)
      requires Remapped(d, none, d', block, 0, phys) && 0 < phys < |d'| && Tiled(d'[phys], vs)
      ensures IsDir(d', Inode(0x41ED, 1024, 2, block), [vs])
    {
      BlockAdded(d, Inode(0x41ED, 0, 0, none), [], d', Inode(0x41ED, 1024, 2, block), phys, vs);
      assert [] + [vs] == [vs];
    }

    // ----- runs -----

    ghost function Now(): DirView
      requires dir in vol.inodes && |vol.inodes[dir].block| == 15
      reads this, vol, vol.alloc.bitmap
    {
      DirView(views, |vol.alloc.Free()|, vol.inodes[dir].block[12] != 0)
    }

    /** ext2_create_file without the inode: look the name up, and add it if it is not there. */
    method DoCreate(child: nat, name: seq<Byte>, kind: Byte) returns (r: DirResult)
      requires Valid() && Unique(Names()) && 0 < child < 0x1_0000_0000 && |name| < 256
      modifies this`views, vol, vol.disk, vol.alloc.bitmap, vol.alloc.bitmap.bytes, vol.alloc.freeCount
      ensures Valid() && Unique(Names()) && DirStep(old(Now()), Create(child, name, kind), r, Now())
    {
      var found := Lookup(name);
      if found != 0 { return Exists; }
      ghost var before := Names();
      ListingNoZero(views);
      var ok;
      ghost var at;
      ok, at := AddDirent(child, name, kind);
      if !ok { return NoSpace; }
      if Names() != before {
        forall n ensures Find(Inserted(before, at, Link(name, child, kind)), n) == if n == name then child else Find(before, n) {
          AddFinds(before, at, Link(name, child, kind), n);
        }
        AddUnique(before, at, Link(name, child, kind));
      }
      return Reported;
    }

    method DoRemove(name: seq<Byte>) returns (r: DirResult)
      requires Valid() && Unique(Names())
      modifies this`views, vol.disk
      ensures Valid() && Unique(Names()) && DirStep(old(Now()), Remove(name), r, Now())
    {
      ghost var before := Names();
      ListingNoZero(views);
      var ok;
      ghost var at;
      ok, at := Unlink(name);
      if !ok { return Missing; }
      RemoveIsUpdate(before, at, name);
      return Unlinked;
    }

    static lemma RemoveIsUpdate(links: seq<Link>, at: nat, name: seq<Byte>)
      requires NoZero(links) && Unique(links) && Find(links, name) != 0 && IsFirst(links, at, Find(links, name))
      ensures TakesOut(links, name, links[at].name) && Updates(links, Removed(links, at), links[at].name, 0) && Unique(Removed(links, at))
    {
      forall n ensures Find(Removed(links, at), n) == if n == links[at].name then 0 else Find(links, n) { RemoveFinds(links, at, n); }
      RemoveUnique(links, at);
      UnlinkExact(links, at, name);
      UniqueFind(links, at);
      if links[at].name != name { assert Find(Removed(links, at), name) != 0; }
    }

    /** In a listing without duplicates lookup finds every entry. */
    static lemma UniqueFind(links: seq<Link>, k: nat)
      requires NoZero(links) && Unique(links) && k < |links|
      ensures Find(links, links[k].name) == links[k].ino
    {
      FindNone(links, links[k].name);
      var j := FoundAt(links, links[k].name);
    }

    /** Any run of adds and removes; RunIsMap says what it amounts to. */
    method Run(ops: seq<DirOp>) returns (rs: seq<DirResult>, ghost trace: seq<DirView>)
      requires Valid() && Unique(Names())
      requires forall op :: op in ops ==> |op.name| < 256 && (op.Create? ==> 0 < op.child < 0x1_0000_0000)
      modifies this`views, vol, vol.disk, vol.alloc.bitmap, vol.alloc.bitmap.bytes, vol.alloc.freeCount
      ensures Valid() && Unique(Names()) && DirRun(ops, rs, trace) && trace[0] == old(Now()) && trace[|ops|] == Now()
    {
      rs, trace := [], [Now()];
      for i := 0 to |ops|
        invariant Valid() && Unique(Names()) && DirRun(ops[..i], rs, trace) && trace[0] == old(Now()) && trace[i] == Now()
      {
        var r;
        match ops[i] {
          case Create(child, name, kind) => r := DoCreate(child, name, kind);
          case Remove(name) => r := DoRemove(name);
        }
        RunLonger(ops, rs, trace, i, r, Now());
        rs, trace := rs + [r], trace + [Now()];
      }
      assert ops[..|ops|] == ops;
    }

    /** ext2_lookup; 0 stands for -ENOENT. */
    method Lookup(name: seq<Byte>) returns (ino: nat)
      requires Valid()
      ensures ino == Find(Names(), name)
    {
      var inode := vol.inodes[dir];
      assert views[..0] == [];
      var l := 0;
      while 1024 * l < inode.size
        invariant 0 <= l <= |views| && Find(Listing(views[..l]), name) == 0
        decreases |views| - l
      {
        var phys := Mapped(vol.disk[..], inode.block, l);
        assert l < |views| ==> BlockIs(vol.disk[..], inode.block, views, l);
        if l == MAX_BLOCKS { NothingBeyond(vol.disk[..], inode.block, l); }
        if phys == 0 { break; }
        ino := LookupBlock(vol.disk[phys], views[l], name);
        FindBlock(views, l, name);
        if ino != 0 { return; }
        l := l + 1;
      }
      assert views[..|views|] == views;
      return 0;
    }

    /** The search of add_dirent through the blocks there are: where the name goes, or after which block there are no more. */
    method Place(child: nat, name: seq<Byte>, kind: Byte) returns (l: nat, done: bool, b: seq<Byte>, ghost vs: seq<Dirent>, ghost p: nat)
      requires Valid() && 0 < child < 0x1_0000_0000 && |name| < 256
      ensures done <==> Room(views, |name|)
      ensures !done ==> l == |views|
      ensures done ==>
                && l < |views| && Tiled(b, vs) && p <= |Live(views[l])|
                && Live(vs) == Inserted(Live(views[l]), p, Link(name, child, kind))
    {
      var inode := vol.inodes[dir];
      l, done, b, vs, p := 0, false, [], [], 0;
      while 1024 * l < inode.size
        invariant l <= |views| && forall j :: 0 <= j < l ==> !HasRoom(views[j], |name|)
        decreases |views| - l
      {
        var phys := Mapped(vol.disk[..], inode.block, l);
        assert l < |views| ==> BlockIs(vol.disk[..], inode.block, views, l);
        if l == MAX_BLOCKS { NothingBeyond(vol.disk[..], inode.block, l); }
        if phys == 0 { return l, false, [], [], 0; }
        done, b, vs, p := AddToBlock(vol.disk[phys], views[l], child, kind, name);
        if done { return; }
        l := l + 1;
      }
      done := false;
    }

    /** add_dirent.  A success is reported when an entry has room or a block is free; the name is in the directory
        afterwards exactly when an entry has room or the new block can also be linked. */
    method AddDirent(child: nat, name: seq<Byte>, kind: Byte) returns (ok: bool, ghost at: nat)
      requires Valid() && 0 < child < 0x1_0000_0000 && |name| < 256
      modifies this`views, vol, vol.disk, vol.alloc.bitmap, vol.alloc.bitmap.bytes, vol.alloc.freeCount
      ensures Valid() && OthersKept()
      ensures ok <==> Room(old(views), |name|) || old(vol.alloc.Free()) != {}
      ensures if ok && Stays(old(views), |old(vol.alloc.Free())|, old(vol.inodes[dir].block[12] != 0), |name|)
              then at <= |old(Names())| && Names() == Inserted(old(Names()), at, Link(name, child, kind))
              else views == old(views)
      ensures if ok && !Room(old(views), |name|) then Grew(old(Now()), Now()) else SameBlocks(old(Now()), Now())
      ensures ok && Find(old(Names()), name) == 0 ==>
                (Find(Names(), name) == child <==> Stays(old(views), |old(vol.alloc.Free())|, old(vol.inodes[dir].block[12] != 0), |name|))
    {
      ListingNoZero(views);
      var l, done, b;
      ghost var vs, p;
      l, done, b, vs, p := Place(child, name, kind);
      ghost var link := Link(name, child, kind);
      if done {
        InsertInBlock(views, l, vs, p, link);
        at := |Listing(views[..l])| + p;
        AddFoundIf(Names(), at, link);
        PutBlock(l, b, vs);
        ok := true;
      } else {
        at := |Names()|;
        AddFoundIf(Names(), at, link);
        ok := Append(child, name, kind);
      }
    }

    static lemma AddFoundIf(links: seq<Link>, at: nat, link: Link)
      requires NoZero(links) && at <= |links| && link.ino != 0
      ensures Find(links, link.name) == 0 ==> Find(Inserted(links, at, link), link.name) == link.ino
    {
      if Find(links, link.name) == 0 { AddFinds(links, at, link, link.name); }
    }

    /** Write block `l` of the directory. */
    method PutBlock(l: nat, b: seq<Byte>, ghost vs: seq<Dirent>)
      requires Valid() && l < |views| && Tiled(b, vs)
      modifies this`views, vol.disk
      ensures Valid() && OthersKept() && views == old(views)[l := vs] && vol.inodes[dir] == old(vol.inodes[dir])
    {
      var inode := vol.inodes[dir];
      ghost var d := vol.disk[..];
      assert BlockIs(d, inode.block, views, l);
      var phys := vol.PutMapped(dir, inode.block, l, 0, b);
      assert vol.disk[phys] == b;
      BlockPut(d, inode, views, vol.disk[..], l, vs);
      views := views[l := vs];
    }

    /** The end of add_dirent: a block of its own for the name. */
    method Append(child: nat, name: seq<Byte>, kind: Byte) returns (ok: bool)
      requires Valid() && 0 < child < 0x1_0000_0000 && |name| < 256
      modifies this`views, vol, vol.disk, vol.alloc.bitmap, vol.alloc.bitmap.bytes, vol.alloc.freeCount
      ensures Valid() && OthersKept()
      ensures ok <==> old(vol.alloc.Free()) != {}
      ensures if ok && Linkable(|old(vol.alloc.Free())|, |old(views)|, old(vol.inodes[dir].block[12] != 0))
              then Names() == Inserted(old(Names()), |old(Names())|, Link(name, child, kind))
              else views == old(views)
      ensures if ok then Grew(old(Now()), Now()) else Now() == old(Now())
    {
      var b := NewBlock(child, name, kind);
      ghost var v := Dirent(child, 1024, kind, name);
      AppendOne(views, v);
      ok := Grow(b, [v]);
    }

    /** One more block with these bytes; it is linked if that is possible, and the size grows either way. */
    method Grow(b: seq<Byte>, ghost vs: seq<Dirent>) returns (ok: bool)
      requires Valid() && Tiled(b, vs)
      modifies this`views, vol, vol.disk, vol.alloc.bitmap, vol.alloc.bitmap.bytes, vol.alloc.freeCount
      ensures Valid() && OthersKept() && (ok <==> old(vol.alloc.Free()) != {})
      ensures views == if ok && Linkable(|old(vol.alloc.Free())|, |old(views)|, old(vol.inodes[dir].block[12] != 0))
                       then old(views) + [vs] else old(views)
      ensures if ok then Grew(old(Now()), Now()) else Now() == old(Now())
    {
      ghost var v := Now();
      ghost var placed;
      ok, placed := TakeBlock(b, vs);
      if placed { views := views + [vs]; }
      GrowsBy(v, Now(), ok, placed);
    }

    /** The block and the inode; `placed` says whether the block could be linked. */
    method TakeBlock(b: seq<Byte>, ghost vs: seq<Dirent>) returns (ok: bool, ghost placed: bool)
      requires Valid() && Tiled(b, vs)
      modifies vol, vol.disk, vol.alloc.bitmap, vol.alloc.bitmap.bytes, vol.alloc.freeCount
      ensures vol.Valid() && dir in vol.inodes && IsDir(vol.disk[..], vol.inodes[dir], if placed then views + [vs] else views) && OthersKept()
      ensures ok <==> old(vol.alloc.Free()) != {}
      ensures Took(old(Now()), Now(), ok, placed)
    {
      var inode := vol.inodes[dir];
      ghost var d, u := vol.disk[..], vol.user;
      var block;
      ghost var phys;
      ok, block, phys, placed := PutLast(b, vs);
      if ok { vol.SetInode(dir, Inode(inode.mode, inode.size + 1024, inode.blocks + 2, block)); }
      GrownDir(d, u, dir, inode, views, vol.disk[..], vol.inodes[dir], phys, vs, ok, placed);
    }

    method PutLast(b: seq<Byte>, ghost vs: seq<Dirent>) returns (ok: bool, block: seq<nat>, ghost phys: nat, ghost placed: bool)
      requires Valid() && Tiled(b, vs)
      modifies vol`user, vol.disk, vol.alloc.bitmap, vol.alloc.bitmap.bytes, vol.alloc.freeCount
      ensures vol.Busy(dir, block) && |block| == 15 && V.OthersSame(old(vol.disk[..]), vol.disk[..], vol.inodes, dir)
      ensures ok <==> old(vol.alloc.Free()) != {}
      ensures !ok ==> vol.disk[..] == old(vol.disk[..]) && block == vol.inodes[dir].block
      ensures ok && !placed ==> block == vol.inodes[dir].block && SameFile(old(vol.disk[..]), vol.disk[..], block)
      ensures placed ==>
                && |views| < MAX_BLOCKS && Remapped(old(vol.disk[..]), vol.inodes[dir].block, vol.disk[..], block, |views|, phys)
                && 0 < phys < vol.disk.Length && Tiled(vol.disk[phys], vs)
      ensures Took(old(Now()), DirView(views, |vol.alloc.Free()|, block[12] != 0), ok, placed)
    {
      var inode := vol.inodes[dir];
      ghost var v, free := Now(), vol.alloc.Free();
      var l := CountBlocks();
      if l >= MAX_BLOCKS { NothingBeyond(vol.disk[..], inode.block, l); }
      var at;
      at, block, placed := vol.PutNew(dir, inode.block, l, 0, b);
      ok, phys := at != 0, at;
      if placed { WholeBlock(b, vol.disk[at]); }
      TookIs(v, DirView(views, |vol.alloc.Free()|, block[12] != 0), free, vol.alloc.Free(), inode.block, block, ok, placed);
    }

    /** What the allocator and the indirect table say about a new block. */
    static ghost predicate Took(v: DirView, w: DirView, ok: bool, placed: bool) {
      var n := |v.views|;
      && (ok <==> v.free > 0) && (placed ==> ok) && (!ok ==> w == v)
      && (placed ==>
            && n < MAX_BLOCKS && (w.table <==> v.table || n >= 12)
            && v.free - w.free == if n >= 12 && !v.table then 2 else 1)
      && (ok && !placed ==> w == v.(free := v.free - 1) && (n >= MAX_BLOCKS || (n >= 12 && !v.table && v.free == 1)))
    }

    static lemma TookIs(v: DirView, w: DirView, free: set<nat>, free': set<nat>, block: seq<nat>, block': seq<nat>, ok: bool, placed: bool)
      requires |block| == 15 && |block'| == 15 && v.free == |free| && w.free == |free'| && w.views == v.views
      requires v.table == (block[12] != 0) && w.table == (block'[12] != 0) && (!ok <==> free == {}) && (!ok ==> !placed && block' == block && free' == {})
      requires placed ==>
                 && |v.views| < MAX_BLOCKS && (block'[12] == block[12] || (block[12] == 0 && |v.views| >= 12)) && (|v.views| >= 12 ==> block'[12] != 0)
                 && |free'| == |free| - (if |v.views| >= 12 && block[12] == 0 then 2 else 1)
      requires ok && !placed ==>
                 && block' == block && |free'| == |free| - 1
                 && (|v.views| >= MAX_BLOCKS || (|v.views| >= 12 && block[12] == 0 && free' == {} && |free| == 1))
      ensures Took(v, w, ok, placed)
    {
    }

    static lemma GrowsBy(v: DirView, w: DirView, ok: bool, placed: bool)
      requires Took(v, w.(views := v.views), ok, placed) && |w.views| == |v.views| + if placed then 1 else 0
      ensures ok ==> Grew(v, w) && (placed <==> Linkable(v.free, |v.views|, v.table))
    {
    }

    static lemma WholeBlock(b: seq<Byte>, buf: seq<Byte>)
      requires |b| == 1024 && F.Overlaid(Zeros(), b, 0, buf)
      ensures buf == b
    {
    }

    static lemma GrownDir(d: seq<seq<Byte>>, user: map<nat, Use>, dir: nat, inode: Inode, views: seq<seq<Dirent>>,
                          d': seq<seq<Byte>>, inode': Inode, phys: nat, vs: seq<Dirent>, ok: bool, placed: bool)
      requires IsDir(d, inode, views) && RefsOk(d, user, dir, inode.block) && UsersOk(d, user) && (placed ==> ok)
      requires !ok ==> d' == d && inode' == inode
      requires ok ==> inode'.size == inode.size + 1024
      requires ok && !placed ==> inode'.block == inode.block && SameFile(d, d', inode.block)
      requires placed ==>
                 && |views| < MAX_BLOCKS && |inode'.block| == 15 && Remapped(d, inode.block, d', inode'.block, |views|, phys)
                 && 0 < phys < |d'| && Tiled(d'[phys], vs)
      ensures IsDir(d', inode', if placed then views + [vs] else views)
    {
      if placed {
        BlockAdded(d, inode, views, d', inode', phys, vs);
      } else {
        if !ok { V.SameItself(d, user, dir, inode.block); }
        BlocksSame(d, inode, views, d', inode');
      }
    }

    method CountBlocks() returns (l: nat)
      requires Valid()
      ensures l == |views|
    {
      var inode := vol.inodes[dir];
      l := 0;
      while 1024 * l < inode.size
        invariant l <= |views|
        decreases |views| - l
      {
        assert l < |views| ==> BlockIs(vol.disk[..], inode.block, views, l);
        if l == MAX_BLOCKS { NothingBeyond(vol.disk[..], inode.block, l); }
        if Mapped(vol.disk[..], inode.block, l) == 0 { return; }
        l := l + 1;
      }
    }

    /** A block with a single entry. */
    static method NewBlock(child: nat, name: seq<Byte>, kind: Byte) returns (b: seq<Byte>)
      requires 0 < child < 0x1_0000_0000 && |name| < 256
      ensures Tiled(b, [Dirent(child, 1024, kind, name)])
    {
      var z := PutU16(Zeros(), 4, 1024);
      b := Fill(z, 0, child, kind, name);
      OneEntry(b, Dirent(child, 1024, kind, name));
    }

    /** ext2_unlink up to the freeing of the inode. */
    method Unlink(name: seq<Byte>) returns (ok: bool, ghost at: nat)
      requires Valid()
      modifies this`views, vol.disk
      ensures Valid() && OthersKept() && (ok <==> Find(old(Names()), name) != 0)
      ensures ok ==> IsFirst(old(Names()), at, Find(old(Names()), name)) && Names() == Removed(old(Names()), at)
      ensures !ok ==> vol.disk[..] == old(vol.disk[..]) && views == old(views)
      ensures |views| == |old(views)|
    {
      var ino := Lookup(name);
      if ino == 0 {
        Unchanged();
        return false, 0;
      }
      var l, b;
      ghost var vs;
      l, b, vs, at := Locate(name, ino);
      PutBlock(l, b, vs);
      return true, at;
    }

    /** The block with the first entry for `ino`, without that entry. */
    method Locate(ghost name: seq<Byte>, ino: nat) returns (l: nat, b: seq<Byte>, ghost vs: seq<Dirent>, ghost at: nat)
      requires Valid() && ino != 0 && Find(Names(), name) == ino
      ensures l < |views| && Tiled(b, vs) && IsFirst(Names(), at, ino) && Listing(views[l := vs]) == Removed(Names(), at)
    {
      var i;
      ghost var q;
      i, b, vs, q := TakeOut(ino);
      if i == -1 {
        NowhereListed(views, name, ino);
        assert false;
      }
      l := i;
      at := |Listing(views[..l])| + q;
      TakenOut(views, l, vs, q, ino);
    }

    /** The first entry of the first block that has one is the first of all. */
    static lemma TakenOut(views: seq<seq<Dirent>>, l: nat, vs: seq<Dirent>, q: nat, ino: nat)
      requires l < |views| && (forall i :: 0 <= i < l ==> NotIn(Live(views[i]), ino))
      requires IsFirst(Live(views[l]), q, ino) && Live(vs) == Removed(Live(views[l]), q)
      ensures var at := |Listing(views[..l])| + q;
              IsFirst(Listing(views), at, ino) && Listing(views[l := vs]) == Removed(Listing(views), at)
    {
      ListingNotIn(views[..l], ino);
      RemoveInBlock(views, l, vs, q, ino);
    }

    static lemma NowhereListed(views: seq<seq<Dirent>>, name: seq<Byte>, ino: nat)
      requires ino != 0 && forall i :: 0 <= i < |views| ==> NotIn(Live(views[i]), ino)
      ensures Find(Listing(views), name) != ino
    {
      ListingNotIn(views, ino);
      if Find(Listing(views), name) == ino { Absent(Listing(views), name, ino); }
    }

    lemma Unchanged()
      requires Valid()
      ensures V.OthersSame(vol.disk[..], vol.disk[..], vol.inodes, dir)
    {
      V.SameOthers(vol.disk[..], vol.user, vol.inodes, dir);
    }

    method TakeOut(ino: nat) returns (l: int, b: seq<Byte>, ghost vs: seq<Dirent>, ghost q: nat)
      requires Valid() && ino != 0
      ensures if l == -1 then forall i :: 0 <= i < |views| ==> NotIn(Live(views[i]), ino)
              else && 0 <= l < |views| && (forall i :: 0 <= i < l ==> NotIn(Live(views[i]), ino)) && Tiled(b, vs)
                   && IsFirst(Live(views[l]), q, ino) && Live(vs) == Removed(Live(views[l]), q)
    {
      var inode := vol.inodes[dir];
      for i := 0 to (inode.size + 1023) / 1024
        invariant forall j :: 0 <= j < i && j < |views| ==> NotIn(Live(views[j]), ino)
      {
        var phys := Mapped(vol.disk[..], inode.block, i);
        if i >= MAX_BLOCKS { NothingBeyond(vol.disk[..], inode.block, i); }
        assert i < |views| ==> BlockIs(vol.disk[..], inode.block, views, i);
        if phys != 0 {
          var done;
          done, b, vs, q := UnlinkBlock(vol.disk[phys], views[i], ino);
          if done { return i, b, vs, q; }
        }
      }
      return -1, [], [], 0;
    }
  }
}
