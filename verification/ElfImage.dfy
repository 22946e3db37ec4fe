/** What kernel/process/elf_exec.c should leave in memory, byte by byte. */
module ElfImage {
  import opened Vmm
  import opened PageTables

  type File = seq<bv8>

  /** A loaded segment: file bytes `offset .. offset + filesz` go to `vaddr`; the first `pages` pages are there. */
  datatype Segment = Segment(vaddr: nat, offset: nat, filesz: nat, pages: nat) {
    function First(): nat {
      vaddr / 4096
    }

    /** Page `v` belongs to the segment. */
    predicate Touches(v: nat) {
      First() <= v < First() + pages
    }

    /** Byte `j` of page `v` comes from the file. */
    predicate Covers(v: nat, j: nat) {
      Touches(v) && vaddr <= 4096 * v + j < vaddr + filesz
    }
  }

  ghost predicate InFile(s: Segment, file: File) {
    s.offset + s.filesz <= |file|
  }

  ghost predicate AllInFile(segs: seq<Segment>, file: File) {
    forall i :: 0 <= i < |segs| ==> InFile(segs[i], file)
  }

  ghost predicate Touched(segs: seq<Segment>, v: nat) {
    exists i :: 0 <= i < |segs| && segs[i].Touches(v)
  }

  /** Byte `j` of page `v`: from the last segment that has it, else zero. */
  ghost function ByteOf(segs: seq<Segment>, file: File, v: nat, j: nat): bv8
    requires AllInFile(segs, file)
  {
    if segs == [] then 0
    else
      var s := segs[|segs| - 1];
      if s.Covers(v, j) then file[s.offset + (4096 * v + j - s.vaddr)]
      else assert AllInFile(segs[..|segs| - 1], file); ByteOf(segs[..|segs| - 1], file, v, j)
  }

  lemma {:induction false} UntouchedZero(segs: seq<Segment>, file: File, v: nat, j: nat)
    requires AllInFile(segs, file) && !Touched(segs, v)
    ensures ByteOf(segs, file, v, j) == 0
  {
    if segs != [] {
      assert !segs[|segs| - 1].Touches(v);
      assert AllInFile(segs[..|segs| - 1], file);
      assert !Touched(segs[..|segs| - 1], v);
      UntouchedZero(segs[..|segs| - 1], file, v, j);
    }
  }

  lemma {:induction false} ByteOfLast(segs: seq<Segment>, s: Segment, file: File, v: nat, j: nat)
    requires AllInFile(segs, file) && InFile(s, file)
    ensures AllInFile(segs + [s], file)
    ensures ByteOf(segs + [s], file, v, j) ==
            if s.Covers(v, j) then file[s.offset + (4096 * v + j - s.vaddr)] else ByteOf(segs, file, v, j)
  {
    assert (segs + [s])[..|segs|] == segs;
  }

  lemma TouchedLast(segs: seq<Segment>, s: Segment, v: nat)
    ensures Touched(segs + [s], v) <==> Touched(segs, v) || s.Touches(v)
  {
    if Touched(segs, v) {
      var i :| 0 <= i < |segs| && segs[i].Touches(v);
      assert (segs + [s])[i].Touches(v);
    }
    if s.Touches(v) { assert (segs + [s])[|segs|].Touches(v); }
  }

  // ----- a page of an address space -----

  ghost predicate PageOk(space: map<Path, seq<bv8>>, segs: seq<Segment>, file: File, v: nat)
    requires AllInFile(segs, file)
  {
    && (PagePath(4096 * v) in space <==> Touched(segs, v))
    && (PagePath(4096 * v) in space ==>
          && |space[PagePath(4096 * v)]| == 4096
          && forall j :: 0 <= j < 4096 ==> space[PagePath(4096 * v)][j] == ByteOf(segs, file, v, j))
  }

  const USER_PAGES: nat := 0x8_0000_0000

  /** The user half of the space is exactly the image. */
  ghost predicate Loaded(space: map<Path, seq<bv8>>, segs: seq<Segment>, file: File) {
    && AllInFile(segs, file)
    && forall v: nat {:trigger PageOk(space, segs, file, v)} :: v < USER_PAGES ==> PageOk(space, segs, file, v)
  }

  lemma UserPage(v: nat)
    requires v < USER_PAGES
    ensures IsUser(4096 * v)
  {
  }

  lemma PagesDiffer(v: nat, w: nat)
    requires v < USER_PAGES && w < USER_PAGES && v != w
    ensures PagePath(4096 * v) != PagePath(4096 * w)
  {
    PathIsPageNumber(4096 * v, 4096 * w);
    PageNumber(v);
    PageNumber(w);
  }

  lemma PageNumber(v: nat)
    requires v < USER_PAGES
    ensures 4096 * v / 4096 % 0x10_0000_0000 == v
  {
    assert 4096 * v / 4096 == v;
  }

  /** The page number that a path spells. */
  ghost function PathNumber(p: Path): nat {
    if p.Top? then 0 else PathNumber(p.up) * 512 + p.idx
  }

  lemma NumberOfPath(v: nat)
    requires v < USER_PAGES
    ensures PathNumber(PagePath(4096 * v)) == v
  {
    PageNumber(v);
    PageNumberFromIndices(4096 * v);
    var p := PagePath(4096 * v);
    assert PathNumber(p.up.up.up) == Index(4096 * v, 3);
    assert PathNumber(p.up.up) == Index(4096 * v, 3) * 512 + Index(4096 * v, 2);
  }

  /** Every page of a page-table tree is one of the lower half. */
  lemma {:induction false} PathOfNumber(s: Shape, mem: Memory, root: nat, p: Path)
    requires NodesOk(s, mem) && Node(root, p) in s.nodes && Depth(p) == 4
    ensures PathNumber(p) < USER_PAGES && p == PagePath(4096 * PathNumber(p))
  {
    assert NodeOk(s, mem, Node(root, p)) && NodeOk(s, mem, Node(root, p.up));
    assert NodeOk(s, mem, Node(root, p.up.up)) && NodeOk(s, mem, Node(root, p.up.up.up));
    assert Depth(p.up.up) == 2 && Depth(p.up.up.up) == 1;
    assert p.up.up.up.up.Top?;
    Spelled(p.up.up.up.idx, p.up.up.idx, p.up.idx, p.idx);
  }

  lemma Spelled(i3: nat, i2: nat, i1: nat, i0: nat)
    requires i3 < 256 && i2 < 512 && i1 < 512 && i0 < 512
    ensures var p := Down(Down(Down(Down(Top, i3), i2), i1), i0); PathNumber(p) < USER_PAGES && p == PagePath(4096 * PathNumber(p))
  {
    var p3 := Down(Top, i3);
    var p2 := Down(p3, i2);
    var p1 := Down(p2, i1);
    var p0 := Down(p1, i0);
    assert PathNumber(Top) == 0;
    assert PathNumber(p3) == i3;
    assert PathNumber(p2) == i3 * 512 + i2;
    assert PathNumber(p1) == PathNumber(p2) * 512 + i1;
    assert PathNumber(p0) == PathNumber(p1) * 512 + i0;
    LowDigit(PathNumber(p1), i0);
    LowDigit(PathNumber(p2), i1);
    LowDigit(i3, i2);
    PageIndices(PathNumber(p0));
  }

  lemma PageIndices(v: nat)
    ensures Index(4096 * v, 0) == v % 512 && Index(4096 * v, 1) == v / 512 % 512
    ensures Index(4096 * v, 2) == v / 512 / 512 % 512 && Index(4096 * v, 3) == v / 512 / 512 / 512 % 512
  {
    assert 4096 * v / 0x1000 == v && 4096 * v / 0x20_0000 == v / 512;
    assert 4096 * v / 0x4000_0000 == v / 512 / 512 && 4096 * v / 0x80_0000_0000 == v / 512 / 512 / 512;
  }

  lemma LowDigit(v: nat, i: nat)
    requires i < 512
    ensures (v * 512 + i) / 512 == v && (v * 512 + i) % 512 == i
  {
  }

  /** One more page of the current segment. */
  lemma {:induction false} PageLoaded(space: map<Path, seq<bv8>>, segs: seq<Segment>, s: Segment, file: File, bytes: seq<bv8>, space': map<Path, seq<bv8>>)
    requires InFile(s, file) && Loaded(space, segs + [s], file) && |bytes| == 4096 && AllInFile(segs, file)
    requires var v := s.First() + s.pages;
             && v < USER_PAGES && space' == space[PagePath(4096 * v) := bytes]
             && forall j :: 0 <= j < 4096 ==>
                  bytes[j] == if s.(pages := s.pages + 1).Covers(v, j) then file[s.offset + (4096 * v + j - s.vaddr)]
                              else ByteOf(segs, file, v, j)
    ensures Loaded(space', segs + [s.(pages := s.pages + 1)], file)
  {
    var v, t := s.First() + s.pages, s.(pages := s.pages + 1);
    ByteOfLast(segs, t, file, 0, 0);
    var now := segs + [t];
    forall w: nat | w < USER_PAGES ensures PageOk(space', now, file, w) {
      assert PageOk(space, segs + [s], file, w);
      if w != v {
        PagesDiffer(v, w);
        OtherPage(space, segs, s, file, w);
      } else {
        TouchedLast(segs, t, v);
        forall j | 0 <= j < 4096 ensures ByteOf(now, file, v, j) == bytes[j] { ByteOfLast(segs, t, file, v, j); }
      }
    }
  }

  /** The next page of a segment matters to no other page. */
  lemma {:induction false} OtherPage(space: map<Path, seq<bv8>>, segs: seq<Segment>, s: Segment, file: File, w: nat)
    requires AllInFile(segs, file) && InFile(s, file) && AllInFile(segs + [s], file) && w != s.First() + s.pages
    requires PageOk(space, segs + [s], file, w)
    ensures AllInFile(segs + [s.(pages := s.pages + 1)], file) && PageOk(space, segs + [s.(pages := s.pages + 1)], file, w)
  {
    var t := s.(pages := s.pages + 1);
    var now := segs + [t];
    TouchedLast(segs, s, w);
    TouchedLast(segs, t, w);
    ByteOfLast(segs, t, file, w, 0);
    forall j | 0 <= j < 4096 ensures ByteOf(now, file, w, j) == ByteOf(segs + [s], file, w, j) {
      ByteOfLast(segs, s, file, w, j);
      ByteOfLast(segs, t, file, w, j);
    }
  }
}
