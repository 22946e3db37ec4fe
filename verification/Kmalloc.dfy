/** The kernel heap (kernel/mm/kmalloc.c): first fit over boundary-tagged blocks in
    runs of pages, with splitting, coalescing in both directions and release of
    whole runs.  Addresses are in words of 8 bytes; pointers are payload addresses. */
module Kmalloc {
  import opened Pmm
  import opened HeapBlocks
  import opened HeapLists

  const PAGE_WORDS: nat := 512
  const MAX_PAGE_RUNS: nat := 256
  const WRAP: nat := 0x1_0000_0000_0000_0000

  datatype PageRun = PageRun(pfn: nat, pages: nat)

  /** The words of a run, with frame 0 appearing at word `hhdm`. */
  function RunAt(hhdm: nat, r: PageRun): Run {
    Run(hhdm + PAGE_WORDS * r.pfn, PAGE_WORDS * r.pages)
  }

  /** One run: its frames are the heap's alone, and its first word starts a block. */
  ghost predicate RunOk(hhdm: nat, r: PageRun, g: Blocks, counts: map<nat, nat>) {
    && r.pages >= 1 && r.pfn >= 1
    && (forall p :: r.pfn <= p < r.pfn + r.pages ==> p in counts && counts[p] == 1)
    && RunAt(hhdm, r).start in g.size && RunAt(hhdm, r).start in g.home && g.home[RunAt(hhdm, r).start] == RunAt(hhdm, r)
  }

  ghost predicate HomeOk(hhdm: nat, runs: seq<PageRun>, g: Blocks, b: nat) {
    b in g.home && exists i :: 0 <= i < |runs| && g.home[b] == RunAt(hhdm, runs[i])
  }

  ghost predicate Disjoint(runs: seq<PageRun>) {
    forall i, j :: 0 <= i < j < |runs| ==>
      runs[i].pfn + runs[i].pages <= runs[j].pfn || runs[j].pfn + runs[j].pages <= runs[i].pfn
  }

  /** The runs are disjoint and hold exactly the blocks. */
  ghost predicate RunsOk(hhdm: nat, runs: seq<PageRun>, g: Blocks, counts: map<nat, nat>) {
    && |runs| <= MAX_PAGE_RUNS && Disjoint(runs)
    && (forall i {:trigger RunOk(hhdm, runs[i], g, counts)} :: 0 <= i < |runs| ==> RunOk(hhdm, runs[i], g, counts))
    && (forall b {:trigger HomeOk(hhdm, runs, g, b)} :: b in g.size ==> HomeOk(hhdm, runs, g, b))
  }

  /** Splitting or merging inside a run keeps the runs. */
  lemma SplitRuns(hhdm: nat, runs: seq<PageRun>, g: Blocks, counts: map<nat, nat>, b: nat, k: nat)
    requires RunsOk(hhdm, runs, g, counts) && b in g.size && b in g.home && 0 < k < g.size[b] && b + k !in g.size
    ensures RunsOk(hhdm, runs, Splitted(g, b, k), counts)
  {
    var g' := Splitted(g, b, k);
    forall i | 0 <= i < |runs| ensures RunOk(hhdm, runs[i], g', counts) { assert RunOk(hhdm, runs[i], g, counts); }
    forall c | c in g'.size ensures HomeOk(hhdm, runs, g', c) {
      assert HomeOk(hhdm, runs, g, if c == b + k then b else c);
    }
  }

  lemma MergeRuns(hhdm: nat, runs: seq<PageRun>, g: Blocks, counts: map<nat, nat>, b: nat)
    requires RunsOk(hhdm, runs, g, counts) && Tiled(g) && b in g.size && b in g.home
    requires b + g.size[b] < g.home[b].End() && b + g.size[b] in g.size
    ensures RunsOk(hhdm, runs, Merged(g, b), counts)
  {
    var g' := Merged(g, b);
    assert PlaceOk(g, b);
    forall i | 0 <= i < |runs| ensures RunOk(hhdm, runs[i], g', counts) { assert RunOk(hhdm, runs[i], g, counts); }
    forall c | c in g'.size ensures HomeOk(hhdm, runs, g', c) { assert HomeOk(hhdm, runs, g, c); }
  }

  lemma SameRuns(hhdm: nat, runs: seq<PageRun>, g: Blocks, counts: map<nat, nat>, g': Blocks)
    requires RunsOk(hhdm, runs, g, counts) && g'.size == g.size && g'.home == g.home
    ensures RunsOk(hhdm, runs, g', counts)
  {
    forall i | 0 <= i < |runs| ensures RunOk(hhdm, runs[i], g', counts) { assert RunOk(hhdm, runs[i], g, counts); }
    forall c | c in g'.size ensures HomeOk(hhdm, runs, g', c) { assert HomeOk(hhdm, runs, g, c); }
  }

  /** Frames not counted before are not in any run. */
  lemma RunApart(hhdm: nat, runs: seq<PageRun>, g: Blocks, counts: map<nat, nat>, r: PageRun, i: nat)
    requires RunsOk(hhdm, runs, g, counts) && i < |runs| && r.pages >= 1
    requires forall p :: r.pfn <= p < r.pfn + r.pages ==> p !in counts
    ensures runs[i].pfn + runs[i].pages <= r.pfn || r.pfn + r.pages <= runs[i].pfn
  {
    assert RunOk(hhdm, runs[i], g, counts);
    var p := if runs[i].pfn <= r.pfn then r.pfn else runs[i].pfn;
    assert runs[i].pfn <= p < runs[i].pfn + runs[i].pages ==> p in counts;
    assert r.pfn <= p < r.pfn + r.pages ==> p !in counts;
  }

  lemma NewRunClear(hhdm: nat, runs: seq<PageRun>, g: Blocks, counts: map<nat, nat>, r: PageRun)
    requires RunsOk(hhdm, runs, g, counts) && Tiled(g) && r.pages >= 1
    requires forall p :: r.pfn <= p < r.pfn + r.pages ==> p !in counts
    ensures Clear(g, RunAt(hhdm, r))
  {
    forall c | c in g.size ensures c + g.size[c] <= RunAt(hhdm, r).start || RunAt(hhdm, r).End() <= c {
      assert HomeOk(hhdm, runs, g, c) && PlaceOk(g, c);
      var i :| 0 <= i < |runs| && g.home[c] == RunAt(hhdm, runs[i]);
      RunApart(hhdm, runs, g, counts, r, i);
    }
  }

  lemma NewRunRuns(hhdm: nat, runs: seq<PageRun>, g: Blocks, counts: map<nat, nat>, r: PageRun, counts': map<nat, nat>)
    requires RunsOk(hhdm, runs, g, counts) && |runs| < MAX_PAGE_RUNS && r.pages >= 1 && r.pfn >= 1
    requires RunCounted(counts, counts', r.pfn, r.pages) && RunAt(hhdm, r).start !in g.size
    ensures RunsOk(hhdm, runs + [r], WithRun(g, RunAt(hhdm, r)), counts')
  {
    var runs', g' := runs + [r], WithRun(g, RunAt(hhdm, r));
    forall i | 0 <= i < |runs'| ensures RunOk(hhdm, runs'[i], g', counts') {
      if i < |runs| { NewRunOther(hhdm, runs, g, counts, r, counts', i); }
    }
    forall c | c in g'.size ensures HomeOk(hhdm, runs', g', c) { NewRunHome(hhdm, runs, g, counts, r, c); }
    forall i, j | 0 <= i < j < |runs'|
      ensures runs'[i].pfn + runs'[i].pages <= runs'[j].pfn || runs'[j].pfn + runs'[j].pages <= runs'[i].pfn
    {
      if j == |runs| { RunApart(hhdm, runs, g, counts, r, i); }
    }
  }

  lemma NewRunOther(hhdm: nat, runs: seq<PageRun>, g: Blocks, counts: map<nat, nat>, r: PageRun, counts': map<nat, nat>, i: nat)
    requires RunsOk(hhdm, runs, g, counts) && i < |runs|
    requires RunCounted(counts, counts', r.pfn, r.pages) && RunAt(hhdm, r).start !in g.size
    ensures RunOk(hhdm, runs[i], WithRun(g, RunAt(hhdm, r)), counts')
  {
    assert RunOk(hhdm, runs[i], g, counts);
  }

  lemma NewRunHome(hhdm: nat, runs: seq<PageRun>, g: Blocks, counts: map<nat, nat>, r: PageRun, c: nat)
    requires RunsOk(hhdm, runs, g, counts) && RunAt(hhdm, r).start !in g.size && c in WithRun(g, RunAt(hhdm, r)).size
    ensures HomeOk(hhdm, runs + [r], WithRun(g, RunAt(hhdm, r)), c)
  {
    var runs' := runs + [r];
    if c == RunAt(hhdm, r).start {
      assert runs'[|runs|] == r;
    } else {
      assert HomeOk(hhdm, runs, g, c);
      var i :| 0 <= i < |runs| && g.home[c] == RunAt(hhdm, runs[i]);
      assert runs'[i] == runs[i];
    }
  }

  /** The same blocks are in use, with the same sizes. */
  ghost predicate SameLive(g: Blocks, g': Blocks) {
    && (forall b :: b in g.size && b !in g.free ==> b in g'.size && b !in g'.free && g'.size[b] == g.size[b])
    && (forall b :: b in g'.size && b !in g'.free ==> b in g.size && b !in g.free)
  }

  lemma PayloadsAgain(m0: Words, g0: Blocks, m1: Words, g1: Blocks, m2: Words)
    requires PayloadsKept(m0, g0, m1) && PayloadsKept(m1, g1, m2) && SameLive(g0, g1)
    ensures PayloadsKept(m0, g0, m2)
  {
    forall b, w: nat | InPayload(g0, b, w) ensures m2[w] == m0[w] { assert InPayload(g1, b, w); }
  }

  /** What kfree tests: the address lies in no run, or its free flag still reads true. */
  ghost predicate Dead(hhdm: nat, runs: seq<PageRun>, mem: Words, g: Blocks, a: nat) {
    (forall i :: 0 <= i < |runs| ==> !RunAt(hhdm, runs[i]).Contains(a)) || Grave(mem, g, a)
  }

  ghost predicate DeadKept(hhdm: nat, runs: seq<PageRun>, mem: Words, g: Blocks, runs': seq<PageRun>, mem': Words, g': Blocks) {
    forall a {:trigger Dead(hhdm, runs', mem', g', a)} :: Dead(hhdm, runs, mem, g, a) ==> Dead(hhdm, runs', mem', g', a)
  }

  lemma DeadAgain(hhdm: nat, r0: seq<PageRun>, m0: Words, g0: Blocks, r1: seq<PageRun>, m1: Words, g1: Blocks, r2: seq<PageRun>, m2: Words, g2: Blocks)
    requires DeadKept(hhdm, r0, m0, g0, r1, m1, g1) && DeadKept(hhdm, r1, m1, g1, r2, m2, g2)
    ensures DeadKept(hhdm, r0, m0, g0, r2, m2, g2)
  {
    forall a | Dead(hhdm, r0, m0, g0, a) ensures Dead(hhdm, r2, m2, g2, a) { assert Dead(hhdm, r1, m1, g1, a); }
  }

  lemma LinksOnlyDead(hhdm: nat, runs: seq<PageRun>, m: Words, g: Blocks, m': Words)
    requires Tiled(g) && LinksOnly(m, g, m')
    ensures DeadKept(hhdm, runs, m, g, runs, m', g)
  {
    forall a | Dead(hhdm, runs, m, g, a) ensures Dead(hhdm, runs, m', g, a) {
      if Grave(m, g, a) { LinksOnlyGrave(m, g, m', a); }
    }
  }

  lemma MergeDead(hhdm: nat, runs: seq<PageRun>, m: Words, g: Blocks, b: nat, m': Words)
    requires Tiled(g) && b in g.size && b + g.size[b] in g.size && b in g.free && b + g.size[b] in g.free
    requires MergeWritten(m, g, b, m')
    ensures DeadKept(hhdm, runs, m, g, runs, m', Merged(g, b))
  {
    forall a | Dead(hhdm, runs, m, g, a) ensures Dead(hhdm, runs, m', Merged(g, b), a) {
      if Grave(m, g, a) { MergeGrave(m, g, b, m', a); }
    }
  }

  /** `total` of kmalloc, in bytes, with size_t arithmetic. */
  function Rounded(size: nat): (total: nat)
    ensures total % 8 == 0 && total >= 56
    ensures size < WRAP - 47 ==> total >= size + 40
    ensures WRAP - 47 <= size < WRAP ==> total == 56
  {
    var a := (size + 40) % WRAP;
    var b := (a + 7) % WRAP / 8 * 8;
    if b < 56 then 56 else b
  }

  /** The pages new_page_run asks for. */
  function PagesFor(needed: nat): (n: nat)
    requires needed < WRAP
    ensures n >= 1 && (4096 * n >= needed <==> needed <= WRAP - 4096)
    ensures needed > 0 && 4096 * n >= needed ==> 4096 * (n - 1) < needed
  {
    var n := (needed + 4095) % WRAP / 4096;
    if n == 0 then 1 else n
  }

  /** A free frame is a run of one, and every run starts with a free frame. */
  lemma NoRunOfOne(free: set<nat>, n: nat)
    requires n >= 1
    ensures free != {} <==> exists s: nat :: IsRun(free, s, 1)
    ensures free == {} ==> forall s: nat :: !IsRun(free, s, n)
  {
    if s: nat :| s in free { assert IsRun(free, s, 1); }
    forall s: nat, k: nat | k >= 1 && IsRun(free, s, k) ensures s in free {}
  }

  /** Bytes between header and footer. */
  ghost function Capacity(g: Blocks, ptr: nat): int
    requires ptr >= HEADER && ptr - HEADER in g.size
  {
    8 * (g.size[ptr - HEADER] - HEADER - 1)
  }

  /** One more block is in use, that of `ptr`. */
  ghost predicate OneMore(g: Blocks, g': Blocks, ptr: nat) {
    && ptr >= HEADER
    && ptr - HEADER in g'.size && ptr - HEADER !in g'.free
    && !(ptr - HEADER in g.size && ptr - HEADER !in g.free)
    && (forall b :: b in g.size && b !in g.free ==> b in g'.size && b !in g'.free && g'.size[b] == g.size[b])
    && (forall b :: b in g'.size && b !in g'.free && b != ptr - HEADER ==> b in g.size && b !in g.free)
  }

  class Heap {
    const pmm: FrameAllocator
    const hhdm: nat                // word address at which frame 0 appears
    var mem: Words
    var runs: seq<PageRun>
    var freeList: nat
    ghost var g: Blocks
    ghost var clock: nat

    /** Everything except that neighbours of `x` may be free next to it. */
    ghost predicate ValidBut(x: nat)
      reads this, pmm, pmm.bitmap, pmm.bitmap.bytes, pmm.refs
    {
      && pmm.Valid() && Tiled(g) && Tagged(mem, g) && Chained(mem, g, freeList) && Coalesced(g, x)
      && RunsOk(hhdm, runs, g, pmm.counts)
      && (forall b :: b in g.stamp ==> g.stamp[b] < clock)
    }

    ghost predicate Valid()
      reads this, pmm, pmm.bitmap, pmm.bitmap.bytes, pmm.refs
    {
      ValidBut(0)
    }

    /** kmalloc_init: an empty heap, and one run to start with if there is a free frame. */
    constructor (pmm: FrameAllocator, hhdm: nat, memory: Words)
      requires pmm.Valid() && Total(memory)
      modifies pmm, pmm.bitmap, pmm.bitmap.bytes, pmm.refs
      ensures Valid() && this.pmm == pmm && (forall b :: b in g.size ==> b in g.free) && AllListed(mem, g, freeList)
    {
      this.pmm, this.hhdm, mem := pmm, hhdm, memory;
      runs, freeList := [], 0;
      g, clock := Blocks(map[], map[], map[], {}, map[]), 0;
      new;
      ghost var m0, g0, words := mem, g, RunWords(pmm.Free(), 4096);
      var ok := NewPageRun(4096);
      if ok { PushedList(m0, g0, 0, mem, g, freeList, words); }
    }

    /** free_list_insert. */
    method InsertFree(b: nat)
      requires Tiled(g) && Chained(mem, g, freeList) && b in g.free && Isolated(mem, b, freeList)
      requires forall c :: c in g.stamp ==> g.stamp[c] < clock
      modifies this`mem, this`freeList, this`g, this`clock
      ensures Chained(mem, g, freeList) && freeList == b && clock == old(clock) + 1
      ensures g == old(g).(stamp := old(g).stamp[b := old(clock)]) && LinksOnly(old(mem), g, mem)
      ensures forall c {:trigger SameLinks(old(mem), mem, c)} :: c in g.free && c != b && c != old(freeList) ==> SameLinks(old(mem), mem, c)
      ensures mem[b + 2] == old(freeList) && (old(freeList) != 0 ==> mem[old(freeList) + 2] == old(mem)[old(freeList) + 2])
      ensures mem[b + 3] == 0 && (old(freeList) != 0 ==> mem[old(freeList) + 3] == b)
    {
      ghost var m, head := mem, freeList;
      mem := mem[b + 2 := freeList];
      mem := mem[b + 3 := 0];
      if freeList != 0 {
        mem := mem[freeList + 3 := b];
      }
      freeList := b;
      InsertWrites(m, g, head, b, mem);
      ghost var g' := g.(stamp := g.stamp[b := clock]);
      InsertChained(m, g, head, b, clock, mem, g');
      g, clock := g', clock + 1;
    }

    /** The stores of free_list_insert, taken together. */
    static lemma InsertWrites(m: Words, g: Blocks, head: nat, b: nat, m': Words)
      requires Tiled(g) && Chained(m, g, head) && b in g.free && head != b
      requires var m1 := m[b + 2 := head][b + 3 := 0]; m' == if head != 0 then m1[head + 3 := b] else m1
      ensures Total(m') && m'[b + 2] == head && m'[b + 3] == 0
      ensures head != 0 ==> m'[head + 3] == b && m'[head + 2] == m[head + 2]
      ensures LinksOnly(m, g, m')
      ensures forall c {:trigger SameLinks(m, m', c)} :: c in g.free && c != b && c != head ==> SameLinks(m, m', c)
    {
      assert LinksOnly(m, g, m') by { assert IsLink(g, b + 2) && IsLink(g, b + 3) && (head != 0 ==> IsLink(g, head + 3)); }
      assert IsBlock(g, b);
      if head != 0 { assert IsBlock(g, head); Far(g, head, b); }
      forall c | c in g.free && c != b && c != head ensures SameLinks(m, m', c) {
        assert IsBlock(g, c);
        Far(g, b, c);
        if head != 0 { Far(g, head, c); }
      }
    }

    /** free_list_remove. */
    method RemoveFree(b: nat)
      requires Tiled(g) && Chained(mem, g, freeList) && b in g.free
      modifies this`mem, this`freeList
      ensures Chained(mem, g, freeList) && Isolated(mem, b, freeList) && LinksOnly(old(mem), g, mem)
      ensures freeList == HeadAfter(old(mem), old(freeList), b) && Unlinked(old(mem), g, b, mem)
      ensures forall c {:trigger Isolated(mem, c, freeList)} :: c in g.free && Isolated(old(mem), c, old(freeList)) ==> Isolated(mem, c, freeList)
    {
      ghost var m, head := mem, freeList;
      var n, p := mem[b + 2], mem[b + 3];
      assert LinkOk(m, g, b);
      if p != 0 {
        mem := mem[p + 2 := n];
      } else {
        freeList := n;
      }
      if n != 0 {
        mem := mem[n + 3 := p];
      }
      mem := mem[b + 2 := 0];
      mem := mem[b + 3 := 0];
      RemoveWrites(m, g, head, b, mem);
      RemoveChained(m, g, head, b, mem, freeList);
      forall c | c in g.free && Isolated(m, c, head) ensures Isolated(mem, c, freeList) {
        StaysIsolated(m, g, head, b, mem, freeList, c);
      }
    }

    /** Removing one block leaves other chains of one as they are. */
    static lemma StaysIsolated(m: Words, g: Blocks, head: nat, b: nat, m': Words, head': nat, c: nat)
      requires Chained(m, g, head) && Total(m') && b in g.free && c in g.free && LinkOk(m, g, b)
      requires Unlinked(m, g, b, m') && Isolated(m, c, head) && Isolated(m', b, head')
      requires head' == if m[b + 3] != 0 then head else m[b + 2]
      ensures Isolated(m', c, head')
    {
      assert c != b && c != m[b + 2] && c != m[b + 3] ==> SameLinks(m, m', c);
    }

    /** The stores of free_list_remove, taken together. */
    static lemma RemoveWrites(m: Words, g: Blocks, head: nat, b: nat, m': Words)
      requires Tiled(g) && Chained(m, g, head) && b in g.free && LinkOk(m, g, b)
      requires var n, p := m[b + 2], m[b + 3];
               var m1 := if p != 0 then m[p + 2 := n] else m;
               var m2 := if n != 0 then m1[n + 3 := p] else m1;
               m' == m2[b + 2 := 0][b + 3 := 0]
      ensures LinksOnly(m, g, m') && Unlinked(m, g, b, m')
    {
      var n, p := m[b + 2], m[b + 3];
      assert LinksOnly(m, g, m') by {
        assert IsLink(g, b + 2) && IsLink(g, b + 3) && (n != 0 ==> IsLink(g, n + 3)) && (p != 0 ==> IsLink(g, p + 2));
      }
      assert IsBlock(g, b);
      if n != 0 { assert IsBlock(g, n); Far(g, n, b); }
      if p != 0 { assert IsBlock(g, p); Far(g, p, b); }
      if n != 0 && p != 0 { Far(g, n, p); }
      forall c | c in g.free && c != b && c != n && c != p ensures SameLinks(m, m', c) {
        assert IsBlock(g, c);
        Far(g, b, c);
        if n != 0 { Far(g, n, c); }
        if p != 0 { Far(g, p, c); }
      }
    }

    /** find_fit: the first block that is large enough on the chain `free_list` starts. */
    method FindFit(total: nat) returns (r: nat)
      requires Tiled(g) && Tagged(mem, g) && Chained(mem, g, freeList)
      requires freeList != 0 ==> LinkOk(mem, g, freeList)
      ensures r == FirstFit(mem, g, freeList, freeList, total)
      ensures r != 0 ==> r in g.free && r in g.size && g.size[r] >= total
    {
      r := freeList;
      while r != 0
        invariant r != 0 ==> r in g.free && LinkOk(mem, g, r)
        invariant FirstFit(mem, g, freeList, r, total) == FirstFit(mem, g, freeList, freeList, total)
        decreases if r == 0 then 0 else g.stamp[r] + 1
      {
        assert IsBlock(g, r) && TagOk(mem, g, r);
        if mem[r + 1] != 0 && mem[r] >= total { return; }
        assert mem[r + 2] != 0 ==> LinkOk(mem, g, mem[r + 2]);
        r := mem[r + 2];
      }
    }

    /** find_page_run: the index of the run that contains an address, or -1. */
    method FindPageRun(b: nat) returns (i: int)
      ensures -1 <= i < |runs|
      ensures i >= 0 ==> RunAt(hhdm, runs[i]).Contains(b)
      ensures i == -1 ==> forall j :: 0 <= j < |runs| ==> !RunAt(hhdm, runs[j]).Contains(b)
    {
      i := 0;
      while i < |runs|
        invariant 0 <= i <= |runs|
        invariant forall j :: 0 <= j < i ==> !RunAt(hhdm, runs[j]).Contains(b)
      {
        if RunAt(hhdm, runs[i]).Contains(b) { return; }
        i := i + 1;
      }
      i := -1;
    }

    /** The run found for a block is the block's own. */
    static lemma FoundHome(hhdm: nat, runs: seq<PageRun>, g: Blocks, counts: map<nat, nat>, b: nat, i: nat)
      requires Tiled(g) && RunsOk(hhdm, runs, g, counts) && b in g.size && i < |runs| && RunAt(hhdm, runs[i]).Contains(b)
      ensures b in g.home && g.home[b] == RunAt(hhdm, runs[i])
    {
      assert HomeOk(hhdm, runs, g, b) && PlaceOk(g, b);
      var j :| 0 <= j < |runs| && g.home[b] == RunAt(hhdm, runs[j]);
      assert RunAt(hhdm, runs[j]).Contains(b);
    }

    /** split_block: keep the first `k` words when the rest can be a block of its own. */
    method SplitBlock(b: nat, k: nat)
      requires Valid() && b in g.free && b in g.size && MIN_BLOCK <= k <= g.size[b] && Isolated(mem, b, freeList)
      modifies this`mem, this`freeList, this`g, this`clock
      ensures ValidBut(b) && b in g.free && b in g.size && Isolated(mem, b, freeList)
      ensures k <= g.size[b] < k + MIN_BLOCK
      ensures PayloadsKept(old(mem), old(g), mem) && SameLive(old(g), g)
      ensures ListOf(mem, g, freeList) == Remainder(old(g).size[b], b, k) + ListOf(old(mem), old(g), old(freeList))
      ensures g.free == old(g).free + Members(Remainder(old(g).size[b], b, k))
    {
      assert TagOk(mem, g, b) && PlaceOk(g, b);
      if mem[b] < k + MIN_BLOCK {
        CoalescedExcept(g, b);
        return;
      }
      CutBlock(b, k);
      ghost var m1, g1 := mem, g;
      EnlistRest(b, b + k);
      PayloadsAgain(old(mem), old(g), m1, g1, mem);
    }

    method EnlistRest(b: nat, n: nat)
      requires ValidBut(b) && b in g.free && n in g.free && b != n && Isolated(mem, b, freeList) && Isolated(mem, n, freeList)
      modifies this`mem, this`freeList, this`g, this`clock
      ensures ValidBut(b) && SameBlocks(old(g), g) && Isolated(mem, b, freeList) && PayloadsKept(old(mem), old(g), mem)
      ensures ListOf(mem, g, freeList) == [n] + ListOf(old(mem), old(g), old(freeList))
    {
      ghost var m, h, head := mem, g, freeList;
      Enlist(n, b);
      assert SameLinks(m, mem, b);
      forall c | c in h.free && c != n ensures NextSame(m, mem, c) { assert c != head ==> SameLinks(m, mem, c); }
      InsertedChain(m, h, head, n, mem, g);
    }

    /** free_list_insert, keeping everything else. */
    method Enlist(b: nat, ghost x: nat)
      requires ValidBut(x) && b in g.free && Isolated(mem, b, freeList)
      modifies this`mem, this`freeList, this`g, this`clock
      ensures ValidBut(x) && freeList == b && g == old(g).(stamp := g.stamp) && PayloadsKept(old(mem), old(g), mem)
      ensures LinksOnly(old(mem), old(g), mem)
      ensures forall c {:trigger SameLinks(old(mem), mem, c)} :: c in g.free && c != b && c != old(freeList) ==> SameLinks(old(mem), mem, c)
      ensures mem[b + 2] == old(freeList) && (old(freeList) != 0 ==> mem[old(freeList) + 2] == old(mem)[old(freeList) + 2])
      ensures mem[b + 3] == 0 && (old(freeList) != 0 ==> mem[old(freeList) + 3] == b)
    {
      ghost var m1, g1 := mem, g;
      InsertFree(b);
      AfterInsert(m1, g1, b, mem, g);
      SameRuns(hhdm, runs, g1, pmm.counts, g);
      CoalescedLess(g1, x, g);
    }

    /** free_list_remove, keeping everything else. */
    method Delist(b: nat, ghost x: nat)
      requires ValidBut(x) && b in g.free
      modifies this`mem, this`freeList
      ensures ValidBut(x) && Isolated(mem, b, freeList) && PayloadsKept(old(mem), g, mem) && LinksOnly(old(mem), g, mem)
      ensures freeList == HeadAfter(old(mem), old(freeList), b) && Unlinked(old(mem), g, b, mem)
    {
      RemoveFree(b);
      LinksOnlyTagged(old(mem), g, mem);
      LinksOnlyPayloads(old(mem), g, mem);
    }

    /** The stores of split_block; the new block is free but not yet on the chain. */
    method CutBlock(b: nat, k: nat)
      requires Valid() && b in g.free && b in g.size && MIN_BLOCK <= k && k + MIN_BLOCK <= g.size[b] && Isolated(mem, b, freeList)
      modifies this`mem, this`g
      ensures ValidBut(b) && PayloadsKept(old(mem), old(g), mem) && SameLive(old(g), g)
      ensures b in g.free && b in g.size && g.size[b] == k && Isolated(mem, b, freeList)
      ensures b + k in g.free && Isolated(mem, b + k, freeList) && ListOf(mem, g, freeList) == ListOf(old(mem), old(g), freeList)
      ensures g.free == old(g).free + {b + k}
    {
      assert TagOk(mem, g, b) && PlaceOk(g, b) && LinkOk(mem, g, b);
      ghost var m0, g0 := mem, g;
      StoreSplit(b, k);
      SplitStored(m0, g0, b, k, freeList, mem);
      SplitRuns(hhdm, runs, g0, pmm.counts, b, k);
      SplitCoalesced(g0, b, k);
      g := Splitted(g0, b, k);
    }

    method StoreSplit(b: nat, k: nat)
      requires Total(mem) && b in g.size && mem[b] == g.size[b] && MIN_BLOCK <= k && k + MIN_BLOCK <= g.size[b]
      modifies this`mem
      ensures SplitWritten(old(mem), g, b, k, mem)
    {
      var n, rest := b + k, mem[b] - k;
      var m := mem[n := rest];
      m := m[n + 1 := 1];
      m := m[n + 2 := 0];
      m := m[n + 3 := 0];
      m := m[b := k];
      m := m[n + rest - 1 := rest];
      mem := m[b + k - 1 := k];
    }

    /** The stores of split_block: the new block is free and on no chain yet. */
    static lemma SplitStored(m0: Words, g0: Blocks, b: nat, k: nat, head: nat, m: Words)
      requires Tiled(g0) && Tagged(m0, g0) && Chained(m0, g0, head) && b in g0.free && b in g0.size && b in g0.home
      requires MIN_BLOCK <= k && k + MIN_BLOCK <= g0.size[b] && SplitWritten(m0, g0, b, k, m) && Isolated(m0, b, head)
      ensures var g := Splitted(g0, b, k);
              && Tiled(g) && Tagged(m, g) && Chained(m, g, head) && Isolated(m, b + k, head) && Isolated(m, b, head)
              && PayloadsKept(m0, g0, m) && SameLive(g0, g) && ListOf(m, g, head) == ListOf(m0, g0, head)
      ensures b + k !in g0.size
    {
      SplitTiled(g0, b, k);
      SplitTagged(m0, g0, b, k, m);
      SplitOthers(m0, g0, b, k, m);
      forall c | c in g0.free ensures SameLinks(m0, m, c) { assert IsBlock(g0, c); }
      assert SameLinks(m0, m, b);
      SameChains(m0, g0, head, m);
      assert b + k in g0.free ==> IsBlock(g0, b + k);
      AddChained(m, g0, head, b + k, Splitted(g0, b, k));
      LinksNext(m0, m, g0);
      SameList(m0, g0, head, m, Splitted(g0, b, k));
    }

    /** Inserting a block disturbs neither tags nor payloads. */
    static lemma AfterInsert(m: Words, g: Blocks, b: nat, m': Words, g': Blocks)
      requires Tiled(g) && Tagged(m, g) && g' == g.(stamp := g'.stamp) && LinksOnly(m, g', m')
      ensures Tiled(g') && Tagged(m', g') && PayloadsKept(m, g, m')
    {
      forall c | c in g'.size ensures PlaceOk(g', c) { assert PlaceOk(g, c); }
      forall c, d | c in g'.size && d in g'.size ensures Apart(g', c, d) { assert Apart(g, c, d); }
      forall c | c in g'.free ensures IsBlock(g', c) { assert IsBlock(g, c); }
      forall a: nat ensures IsLink(g, a) || m'[a] == m[a] { assert IsLink(g', a) == IsLink(g, a); }
      LinksOnlyPayloads(m, g, m');
      LinksOnlyTagged(m, g, m');
      forall c | c in g'.size ensures TagOk(m', g', c) { assert TagOk(m', g, c); }
    }

    /** What find_fit would return now. */
    ghost function Fit(total: nat): nat
      requires Valid()
      reads this, pmm, pmm.bitmap, pmm.bitmap.bytes, pmm.refs
    {
      assert freeList != 0 ==> LinkOk(mem, g, freeList);
      FirstFit(mem, g, freeList, freeList, total)
    }

    /** There is room in the run table and a run of frames as long as `total` bytes need. */
    ghost predicate CanGrow(total: nat)
      requires pmm.Valid()
      reads this, pmm, pmm.bitmap, pmm.bitmap.bytes, pmm.refs
    {
      |runs| < MAX_PAGE_RUNS && total <= WRAP - 4096 && exists s: nat :: IsRun(pmm.Free(), s, PagesFor(total))
    }

    /** The length of the run that new_page_run gets from these free frames. */
    static ghost function RunWords(free: set<nat>, needed: nat): nat
      requires needed < WRAP
    {
      PAGE_WORDS * if exists s: nat :: IsRun(free, s, PagesFor(needed)) then PagesFor(needed) else 1
    }

    /** new_page_run: the pages asked for, or a single page when there is no such run of frames. */
    method NewPageRun(needed: nat) returns (ok: bool)
      requires Valid() && needed < WRAP
      modifies this, pmm, pmm.bitmap, pmm.bitmap.bytes, pmm.refs
      ensures Valid() && SameLive(old(g), g) && PayloadsKept(old(mem), old(g), mem)
      ensures !ok ==> g == old(g) && mem == old(mem) && runs == old(runs) && freeList == old(freeList) && pmm.counts == old(pmm.counts)
      ensures ok <==> |old(runs)| < MAX_PAGE_RUNS && old(pmm.Free()) != {}
      ensures ok ==> Pushed(old(mem), old(g), old(freeList), mem, g, freeList, RunWords(old(pmm.Free()), needed))
    {
      if |runs| >= MAX_PAGE_RUNS { return false; }
      ghost var c0 := pmm.counts;
      var pfn, pages := TakeFrames(PagesFor(needed));
      if pfn == 0 { return false; }
      AddRun(PageRun(pfn, pages), c0);
      return true;
    }

    /** pmm_alloc_pages, or a single page instead. */
    method TakeFrames(n: nat) returns (pfn: nat, pages: nat)
      requires pmm.Valid() && n >= 1
      modifies pmm, pmm.bitmap, pmm.bitmap.bytes, pmm.refs
      ensures pmm.Valid() && (pfn == 0 <==> old(pmm.Free()) == {})
      ensures pfn == 0 ==> pmm.counts == old(pmm.counts)
      ensures pages == if exists s: nat :: IsRun(old(pmm.Free()), s, n) then n else 1
      ensures pfn != 0 ==> RunCounted(old(pmm.counts), pmm.counts, pfn, pages)
    {
      ghost var free := pmm.Free();
      NoRunOfOne(free, n);
      pages := n;
      pfn := pmm.AllocPages(pages);
      assert pfn != 0 ==> pfn - pmm.base in free;
      if pfn == 0 {
        pfn := pmm.AllocPage();
        pages := 1;
      }
    }

    /** A run written and then enlisted is in front of the chain. */
    static lemma PushRun(m0: Words, g0: Blocks, head: nat, r: Run, m1: Words, m: Words)
      requires Tiled(g0) && Tagged(m0, g0) && Chained(m0, g0, head) && r.start > 0 && r.size >= MIN_BLOCK && Clear(g0, r)
      requires RunWritten(m0, r, m1) && Tiled(WithRun(g0, r)) && LinksOnly(m1, WithRun(g0, r), m) && m[r.start + 2] == head
      requires head != 0 ==> m[head + 2] == m1[head + 2]
      requires forall c {:trigger SameLinks(m1, m, c)} :: c in WithRun(g0, r).free && c != r.start && c != head ==> SameLinks(m1, m, c)
      ensures forall s :: Pushed(m0, g0, head, m, WithRun(g0, r).(stamp := s), r.start, r.size)
    {
      var g := WithRun(g0, r);
      LinksAreNotTags(g, r.start);
      forall c | c in g0.free ensures SameNext(m0, m, c) { PushKept(m0, g0, head, r, m1, m, c); }
    }

    static lemma PushKept(m0: Words, g0: Blocks, head: nat, r: Run, m1: Words, m: Words, c: nat)
      requires Tiled(g0) && Clear(g0, r) && RunWritten(m0, r, m1) && Tiled(WithRun(g0, r)) && LinksOnly(m1, WithRun(g0, r), m)
      requires c in g0.free && (c == head ==> m[head + 2] == m1[head + 2])
      requires c != r.start && c != head ==> SameLinks(m1, m, c)
      ensures SameNext(m0, m, c)
    {
      assert IsBlock(g0, c);
      Far(g0, c, c);
      assert r.Contains(c) || m1[c] == m0[c];
      assert r.Contains(c + 2) || m1[c + 2] == m0[c + 2];
      LinksAreNotTags(WithRun(g0, r), c);
    }

    /** Format a run as one free block and put it on the chain. */
    method AddRun(r: PageRun, ghost c0: map<nat, nat>)
      requires pmm.Valid() && Tiled(g) && Tagged(mem, g) && Chained(mem, g, freeList) && Coalesced(g, 0)
      requires RunsOk(hhdm, runs, g, c0) && forall b :: b in g.stamp ==> g.stamp[b] < clock
      requires |runs| < MAX_PAGE_RUNS && r.pages >= 1 && r.pfn >= 1 && RunCounted(c0, pmm.counts, r.pfn, r.pages)
      modifies this
      ensures Valid() && SameLive(old(g), g) && PayloadsKept(old(mem), old(g), mem)
      ensures Pushed(old(mem), old(g), old(freeList), mem, g, freeList, PAGE_WORDS * r.pages)
    {
      ghost var m0, g0, head := mem, g, freeList;
      FormatRun(r, c0);
      ghost var m1, g1 := mem, g;
      Enlist(RunAt(hhdm, r).start, 0);
      PushRun(m0, g0, head, RunAt(hhdm, r), m1, mem);
      PayloadsAgain(m0, g0, m1, g1, mem);
    }

    /** The header and footer of a new run, not yet on the chain. */
    method FormatRun(r: PageRun, ghost c0: map<nat, nat>)
      requires pmm.Valid() && Tiled(g) && Tagged(mem, g) && Chained(mem, g, freeList) && Coalesced(g, 0)
      requires RunsOk(hhdm, runs, g, c0) && forall b :: b in g.stamp ==> g.stamp[b] < clock
      requires |runs| < MAX_PAGE_RUNS && r.pages >= 1 && r.pfn >= 1 && RunCounted(c0, pmm.counts, r.pfn, r.pages)
      modifies this
      ensures Valid() && g == WithRun(old(g), RunAt(hhdm, r)) && freeList == old(freeList)
      ensures SameLive(old(g), g) && PayloadsKept(old(mem), old(g), mem) && Isolated(mem, RunAt(hhdm, r).start, freeList)
      ensures RunWritten(old(mem), RunAt(hhdm, r), mem) && Clear(old(g), RunAt(hhdm, r))
    {
      ghost var m0, g0 := mem, g;
      var run := RunAt(hhdm, r);
      NewRunClear(hhdm, runs, g, c0, r);
      StoreRun(run);
      RunStored(m0, g0, run, freeList, mem);
      NewRunRuns(hhdm, runs, g, c0, r, pmm.counts);
      NewRunCoalesced(g, run);
      g := WithRun(g, run);
      runs := runs + [r];
      clock := clock + 1;
    }

    method StoreRun(run: Run)
      requires Total(mem) && run.size >= MIN_BLOCK
      modifies this`mem
      ensures RunWritten(old(mem), run, mem)
    {
      var m := mem[run.start := run.size];
      m := m[run.start + 1 := 1];
      m := m[run.start + 2 := 0];
      m := m[run.start + 3 := 0];
      mem := m[run.start + run.size - 1 := run.size];
    }

    static lemma RunStored(m0: Words, g0: Blocks, r: Run, head: nat, m: Words)
      requires Tiled(g0) && Tagged(m0, g0) && Chained(m0, g0, head) && r.start > 0 && r.size >= MIN_BLOCK && Clear(g0, r)
      requires RunWritten(m0, r, m)
      ensures var g := WithRun(g0, r);
              && Tiled(g) && Tagged(m, g) && Chained(m, g, head) && Isolated(m, r.start, head)
              && PayloadsKept(m0, g0, m) && SameLive(g0, g)
      ensures r.start !in g0.size
    {
      NewRunTiled(g0, r);
      NewRunTagged(m0, g0, r, m);
      forall c | c in g0.free ensures SameLinks(m0, m, c) { assert IsBlock(g0, c); }
      SameChains(m0, g0, head, m);
      assert r.start in g0.free ==> IsBlock(g0, r.start);
      AddChained(m, g0, head, r.start, WithRun(g0, r));
    }

    /** The last steps of kmalloc: off the chain, split, marked in use. */
    method Take(b: nat, k: nat) returns (ptr: nat)
      requires Valid() && b in g.free && b in g.size && MIN_BLOCK <= k <= g.size[b] && b in ListOf(mem, g, freeList)
      modifies this`mem, this`freeList, this`g, this`clock
      ensures Valid() && PayloadsKept(old(mem), old(g), mem)
      ensures ptr == b + HEADER && OneMore(old(g), g, ptr) && k <= g.size[b] < k + MIN_BLOCK
      ensures ListOf(mem, g, freeList) == Remainder(old(g).size[b], b, k) + Without(ListOf(old(mem), old(g), old(freeList)), b)
      ensures g.free == old(g).free + Members(Remainder(old(g).size[b], b, k)) - {b}
    {
      TakeOff(b);
      ghost var m1 := mem;
      SplitBlock(b, k);
      ghost var m2, g2 := mem, g;
      MarkUsed(b);
      PayloadsAgain(old(mem), old(g), m1, old(g), m2);
      PayloadsAgain(old(mem), old(g), m2, g2, mem);
      return b + HEADER;
    }

    method TakeOff(b: nat)
      requires Valid() && b in g.free && b in ListOf(mem, g, freeList)
      modifies this`mem, this`freeList
      ensures Valid() && Isolated(mem, b, freeList) && PayloadsKept(old(mem), g, mem)
      ensures ListOf(mem, g, freeList) == Without(ListOf(old(mem), g, old(freeList)), b)
    {
      Delist(b, 0);
      UnlinkedAll(old(mem), g, old(freeList), b, mem, freeList);
      ListedRemoved(old(mem), g, old(freeList), b, mem, freeList);
    }

    method MarkUsed(b: nat)
      requires ValidBut(b) && b in g.free && b in g.size && Isolated(mem, b, freeList)
      modifies this`mem, this`g
      ensures Valid() && g == Flagged(old(g), b, true) && PayloadsKept(old(mem), old(g), mem)
      ensures ListOf(mem, g, freeList) == ListOf(old(mem), old(g), freeList)
    {
      ghost var m, g0 := mem, g;
      mem := mem[b + 1 := 0];
      g := Flagged(g, b, true);
      FlaggedTiled(g0, b, true);
      FlaggedTagged(m, g0, b, true, mem);
      forall c | c in g0.free ensures SameLinks(m, mem, c) { assert IsBlock(g0, c); }
      assert SameLinks(m, mem, b);
      SameChains(m, g0, freeList, mem);
      DropChained(mem, g0, freeList, b, g);
      LinksNext(m, mem, g0);
      SameList(m, g0, freeList, mem, g);
      CoalescedLess(g0, b, g);
      InUseCoalesced(g, b);
      SameRuns(hhdm, runs, g0, pmm.counts, g);
    }

    /** kmalloc; 0 is the null pointer.  The payload holds `size` bytes exactly when rounding up did not wrap. */
    method Alloc(size: nat) returns (ptr: nat)
      requires Valid() && size < WRAP
      modifies this, pmm, pmm.bitmap, pmm.bitmap.bytes, pmm.refs
      ensures Valid() && PayloadsKept(old(mem), old(g), mem)
      ensures size == 0 ==> ptr == 0
      ensures ptr != 0 <==> size > 0 && (old(Fit(Rounded(size) / 8)) != 0 || old(CanGrow(Rounded(size))))
      ensures size > 0 && old(Fit(Rounded(size) / 8)) != 0 ==> ptr == old(Fit(Rounded(size) / 8)) + HEADER
      ensures ptr == 0 ==> SameLive(old(g), g)
      ensures ptr != 0 ==> OneMore(old(g), g, ptr)
      ensures ptr != 0 ==> (Capacity(g, ptr) >= size <==> size < WRAP - 47)
      ensures size == 0 ==> mem == old(mem) && g == old(g) && freeList == old(freeList)
      ensures size > 0 ==>
                AllocatedAs(old(mem), old(g), old(freeList), Rounded(size) / 8, |old(runs)| < MAX_PAGE_RUNS && old(pmm.Free()) != {},
                            RunWords(old(pmm.Free()), Rounded(size)), ptr, ListOf(mem, g, freeList), g.free)
    {
      if size == 0 { return 0; }
      ptr := AllocTotal(Rounded(size));
    }

    method AllocTotal(total: nat) returns (ptr: nat)
      requires Valid() && 8 * MIN_BLOCK <= total < WRAP && total % 8 == 0
      modifies this, pmm, pmm.bitmap, pmm.bitmap.bytes, pmm.refs
      ensures Valid() && PayloadsKept(old(mem), old(g), mem)
      ensures ptr != 0 <==> old(Fit(total / 8)) != 0 || old(CanGrow(total))
      ensures old(Fit(total / 8)) != 0 ==> ptr == old(Fit(total / 8)) + HEADER
      ensures ptr == 0 ==> SameLive(old(g), g)
      ensures ptr != 0 ==> OneMore(old(g), g, ptr) && total / 8 <= g.size[ptr - HEADER] < total / 8 + MIN_BLOCK
      ensures AllocatedAs(old(mem), old(g), old(freeList), total / 8, |old(runs)| < MAX_PAGE_RUNS && old(pmm.Free()) != {},
                          RunWords(old(pmm.Free()), total), ptr, ListOf(mem, g, freeList), g.free)
    {
      ghost var m0, g0, head := mem, g, freeList;
      ghost var room, words := |runs| < MAX_PAGE_RUNS && pmm.Free() != {}, RunWords(pmm.Free(), total);
      var b := FitOrGrow(total);
      ghost var m1, g1, head1 := mem, g, freeList;
      ptr := 0;
      if b != 0 {
        ptr := Take(b, total / 8);
        PayloadsAgain(m0, g0, m1, g1, mem);
      }
      Allocated(m0, g0, head, total / 8, room, words, m1, g1, head1, b, ptr, ListOf(mem, g, freeList), g.free);
    }

    static lemma Allocated(m: Words, h: Blocks, head: nat, k: nat, room: bool, words: nat, m1: Words, g1: Blocks, head1: nat,
                           b: nat, ptr: nat, list: seq<nat>, free: set<nat>)
      requires Readied(m, h, head, k, room, words, m1, g1, head1, b)
      requires if b == 0 then ptr == 0 && list == ListOf(m1, g1, head1) && free == g1.free
               else
                 && b in g1.size && ptr == b + HEADER && list == Remainder(g1.size[b], b, k) + Without(ListOf(m1, g1, head1), b)
                 && free == g1.free + Members(Remainder(g1.size[b], b, k)) - {b}
      ensures AllocatedAs(m, h, head, k, room, words, ptr, list, free)
    {
      var L := ListOf(m, h, head);
      assert ([head1] + L)[1..] == L;
    }

    /** The list after a kmalloc that needs `k` words, from memory `m`, blocks `h` and list head `head`.  The block found leaves
        the list and what is left of it comes to the front.  Without one a run of `words` words is tried if there is `room`. */
    static ghost predicate AllocatedAs(m: Words, h: Blocks, head: nat, k: nat, room: bool, words: nat, ptr: nat, list: seq<nat>, free: set<nat>)
      requires Chained(m, h, head)
    {
      assert head != 0 ==> LinkOk(m, h, head);
      var fit := FirstFit(m, h, head, head, k);
      if fit != 0 then
        && ptr == fit + HEADER && fit in h.size && list == Remainder(h.size[fit], fit, k) + Without(ListOf(m, h, head), fit)
        && free == h.free + Members(Remainder(h.size[fit], fit, k)) - {fit}
      else if !room then ptr == 0 && list == ListOf(m, h, head) && free == h.free
      else if words < k then ptr == 0 && |list| > 0 && list == [list[0]] + ListOf(m, h, head) && free == h.free + {list[0]}
      else
        && ptr >= HEADER && list == Remainder(words, ptr - HEADER, k) + ListOf(m, h, head)
        && free == h.free + Members(Remainder(words, ptr - HEADER, k)) - {ptr - HEADER}
    }

    /** The new run serves the request exactly when it was as long as asked for. */
    static lemma GrownFit(m0: Words, g0: Blocks, head: nat, m: Words, g: Blocks, head': nat, free: set<nat>, total: nat)
      requires Chained(m0, g0, head) && Chained(m, g, head') && total < WRAP && total % 8 == 0
      requires Pushed(m0, g0, head, m, g, head', RunWords(free, total))
      requires head != 0 ==> LinkOk(m0, g0, head)
      requires LinkOk(m, g, head') && FirstFit(m0, g0, head, head, total / 8) == 0 && free != {}
      ensures FirstFit(m, g, head', head', total / 8) != 0 <==>
              total <= WRAP - 4096 && exists s: nat :: IsRun(free, s, PagesFor(total))
    {
      var n := if exists s: nat :: IsRun(free, s, PagesFor(total)) then PagesFor(total) else 1;
      NoRunOfOne(free, n);
      PushedFit(m0, g0, head, m, g, head', PAGE_WORDS * n, total / 8);
      if !exists s: nat :: IsRun(free, s, PagesFor(total)) {
        assert PagesFor(total) >= 2;
        assert total > 4096;
      }
    }

    /** find_fit, and once more after getting a new run. */
    method FitOrGrow(total: nat) returns (b: nat)
      requires Valid() && total < WRAP && total % 8 == 0
      modifies this, pmm, pmm.bitmap, pmm.bitmap.bytes, pmm.refs
      ensures Valid() && SameLive(old(g), g) && PayloadsKept(old(mem), old(g), mem)
      ensures b != 0 ==> b in g.free && b in g.size && g.size[b] >= total / 8
      ensures b != 0 <==> old(Fit(total / 8)) != 0 || old(CanGrow(total))
      ensures old(Fit(total / 8)) != 0 ==> b == old(Fit(total / 8))
      ensures b != 0 ==> b in ListOf(mem, g, freeList)
      ensures Readied(old(mem), old(g), old(freeList), total / 8, |old(runs)| < MAX_PAGE_RUNS && old(pmm.Free()) != {},
                      RunWords(old(pmm.Free()), total), mem, g, freeList, b)
    {
      ghost var m0, g0, head := mem, g, freeList;
      assert freeList != 0 ==> LinkOk(mem, g, freeList);
      b := FindFit(total / 8);
      FitListed(mem, g, freeList, freeList, total / 8);
      if b == 0 { b := Grow(total); }
    }

    /** What the searches of kmalloc leave: block `b` for `k` words.  If no block of the list is long enough and there is `room`,
        a run of `words` words is in front of the list, and found if it is long enough. */
    static ghost predicate Readied(m: Words, h: Blocks, head: nat, k: nat, room: bool, words: nat, m1: Words, g1: Blocks, head1: nat, b: nat) {
      && Chained(m, h, head) && Chained(m1, g1, head1) && OnChain(m, h, head)
      && var fit := FirstFit(m, h, head, head, k);
         if fit != 0 || !room then b == fit && g1 == h && ListOf(m1, g1, head1) == ListOf(m, h, head)
         else
           && ListOf(m1, g1, head1) == [head1] + ListOf(m, h, head) && g1.free == h.free + {head1}
           && head1 in g1.size && g1.size[head1] == words && b == if words >= k then head1 else 0
    }

    /** new_page_run and the second search. */
    method Grow(total: nat) returns (b: nat)
      requires Valid() && total < WRAP && total % 8 == 0 && Fit(total / 8) == 0
      modifies this, pmm, pmm.bitmap, pmm.bitmap.bytes, pmm.refs
      ensures Valid() && SameLive(old(g), g) && PayloadsKept(old(mem), old(g), mem)
      ensures b != 0 ==> b in g.free && b in g.size && g.size[b] >= total / 8
      ensures b != 0 <==> old(CanGrow(total))
      ensures b != 0 ==> b in ListOf(mem, g, freeList)
      ensures Readied(old(mem), old(g), old(freeList), total / 8, |old(runs)| < MAX_PAGE_RUNS && old(pmm.Free()) != {},
                      RunWords(old(pmm.Free()), total), mem, g, freeList, b)
    {
      ghost var m0, g0, head := mem, g, freeList;
      assert head != 0 ==> LinkOk(mem, g, head);
      NoRunOfOne(pmm.Free(), PagesFor(total));
      var ok := NewPageRun(total);
      if !ok { return 0; }
      assert LinkOk(mem, g, freeList);
      GrownFit(m0, g0, head, mem, g, freeList, old(pmm.Free()), total);
      b := FindFit(total / 8);
      FitListed(mem, g, freeList, freeList, total / 8);
      PushedList(m0, g0, head, mem, g, freeList, RunWords(old(pmm.Free()), total));
      PushedFit(m0, g0, head, mem, g, freeList, RunWords(old(pmm.Free()), total), total / 8);
      assert IsBlock(g, freeList) && TagOk(mem, g, freeList);
    }

    /** What coalescing and release keep for the caller. */
    twostate predicate Kept()
      reads this
    {
      && PayloadsKept(old(mem), old(g), mem) && SameLive(old(g), g)
      && DeadKept(hhdm, old(runs), old(mem), old(g), runs, mem, g)
    }

    /** One round of merge_forward: `b` absorbs the free block after it. */
    method AbsorbNext(b: nat, n: nat)
      requires ValidBut(b) && b in g.free && b in g.size && b in g.home && n == b + g.size[b] && n < g.home[b].End() && n in g.free
      modifies this`mem, this`freeList, this`g
      ensures ValidBut(b) && Kept()
      ensures n in old(g).size && g == Merged(old(g), b)
      ensures freeList == HeadAfter(old(mem), old(freeList), n) && (old(mem)[b + 3] == 0 ==> mem[b + 3] == 0)
      ensures AllLess(old(mem), old(g), old(freeList), mem, g, freeList, n)
    {
      assert PlaceOk(g, b) && IsBlock(g, n);
      Delist(n, b);
      UnlinkedAll(old(mem), g, old(freeList), n, mem, freeList);
      FirstStays(old(mem), g, old(freeList), n, mem, b);
      LinksOnlyDead(hhdm, runs, old(mem), g, mem);
      ghost var m1, g1 := mem, g;
      Fuse(b, n);
      LinksNext(m1, mem, g1);
      LessThenSame(old(mem), old(g), old(freeList), m1, g1, freeList, mem, g, freeList, n);
      PayloadsAgain(old(mem), old(g), m1, g1, mem);
      DeadAgain(hhdm, runs, old(mem), old(g), runs, m1, g1, runs, mem, g);
    }

    /** Removing another block leaves a block without predecessor without one. */
    static lemma FirstStays(m: Words, g: Blocks, head: nat, n: nat, m': Words, b: nat)
      requires Chained(m, g, head) && Total(m') && n in g.free && b in g.free && n != b && Unlinked(m, g, n, m')
      ensures m[b + 3] == 0 ==> m'[b + 3] == 0
    {
      assert LinkOk(m, g, n) && LinkOk(m, g, b);
      assert b != m[n + 2] && b != m[n + 3] ==> SameLinks(m, m', b);
    }

    /** `b->size += n->size` and the new footer, with `n` already off its chain. */
    method Fuse(b: nat, n: nat)
      requires ValidBut(b) && b in g.free && b in g.size && b in g.home && n == b + g.size[b] && n < g.home[b].End()
      requires n in g.free && n in g.size && Isolated(mem, n, freeList)
      modifies this`mem, this`g
      ensures ValidBut(b) && Kept()
      ensures g == Merged(old(g), b) && mem[b + 3] == old(mem)[b + 3]
      ensures forall c {:trigger SameLinks(old(mem), mem, c)} :: c in old(g).free ==> SameLinks(old(mem), mem, c)
    {
      assert PlaceOk(g, b) && IsBlock(g, n) && PlaceOk(g, n);
      MergeRuns(hhdm, runs, g, pmm.counts, b);
      MergeCoalesced(g, b);
      StoreMerged(b, n);
      MergeDead(hhdm, runs, old(mem), g, b, mem);
      MergeStored(old(mem), g, b, freeList, old(mem), mem);
      g := Merged(g, b);
    }

    method StoreMerged(b: nat, n: nat)
      requires Tiled(g) && Tagged(mem, g) && b in g.size && n == b + g.size[b] && n in g.size
      modifies this`mem
      ensures MergeWritten(old(mem), g, b, mem)
      ensures forall a: nat :: a == b || a == b + g.size[b] + g.size[n] - 1 || mem[a] == old(mem)[a]
    {
      assert TagOk(mem, g, b) && TagOk(mem, g, n) && PlaceOk(g, b);
      var size := mem[b] + mem[n];
      var m := mem[b := size];
      mem := m[b + size - 1 := size];
    }

    /** Storing the size and footer of a merged block keeps the tiling, the tags and the chains. */
    static lemma MergeStored(m1: Words, g: Blocks, b: nat, head: nat, m2: Words, m3: Words)
      requires Tiled(g) && Tagged(m1, g) && b in g.size && b in g.home && b + g.size[b] < g.home[b].End() && b + g.size[b] in g.size
      requires b in g.free && b + g.size[b] in g.free && MergeWritten(m1, g, b, m3)
      requires Chained(m2, g, head) && Isolated(m2, b + g.size[b], head)
      requires forall a: nat :: a == b || a == b + g.size[b] + g.size[b + g.size[b]] - 1 || m3[a] == m2[a]
      ensures var g' := Merged(g, b);
              Tiled(g') && Tagged(m3, g') && Chained(m3, g', head) && PayloadsKept(m1, g, m3) && SameLive(g, g')
      ensures forall c {:trigger SameLinks(m2, m3, c)} :: c in g.free ==> SameLinks(m2, m3, c)
    {
      MergeTiled(g, b);
      MergeTagged(m1, g, b, m3);
      MergePayloads(m1, g, b, m3);
      forall c | c in g.free ensures SameLinks(m2, m3, c) {
        assert IsBlock(g, c);
        Far(g, c, b);
        Far(g, c, b + g.size[b]);
      }
      assert SameLinks(m2, m3, b + g.size[b]);
      SameChains(m2, g, head, m3);
      DropChained(m3, g, head, b + g.size[b], Merged(g, b));
    }

    /** The tests of merge_forward: the free block after `b` in its run, or 0. */
    method NextFree(b: nat) returns (n: nat)
      requires Tiled(g) && Tagged(mem, g) && RunsOk(hhdm, runs, g, pmm.counts) && b in g.size && b in g.home
      ensures n != 0 ==> n == b + g.size[b] && n < g.home[b].End() && n in g.free
      ensures n == 0 && b + g.size[b] < g.home[b].End() ==> b + g.size[b] !in g.free
    {
      var i := FindPageRun(b);
      if i < 0 {
        OwnRun(hhdm, runs, g, pmm.counts, b);
        assert false;
      }
      FoundHome(hhdm, runs, g, pmm.counts, b, i);
      assert TagOk(mem, g, b) && PlaceOk(g, b);
      n := b + mem[b];
      if n >= RunAt(hhdm, runs[i]).End() { return 0; }
      assert TagOk(mem, g, n);
      if mem[n + 1] == 0 { return 0; }
    }

    /** merge_forward. */
    method MergeForward(b: nat)
      requires ValidBut(b) && b in g.free && b in g.size && b in g.home
      modifies this`mem, this`freeList, this`g
      ensures MergedOn(old(mem), old(g), old(freeList), b)
    {
      SelfKept(hhdm, runs, mem, g);
      var n := NextFree(b);
      // no two neighbours are free, so the second round finds nothing
      while n != 0
        invariant n != 0 ==> g == old(g) && mem == old(mem) && freeList == old(freeList)
        invariant n != 0 ==> n == b + g.size[b] && n < g.home[b].End() && n in g.free
        invariant n == 0 ==> MergedOn(old(mem), old(g), old(freeList), b)
        decreases if n != 0 then 1 else 0
      {
        n := ForwardRound(b, n);
      }
    }

    /** What merge_forward leaves, from memory `m`, blocks `h` and list head `head`. */
    ghost predicate MergedOn(m: Words, h: Blocks, head: nat, b: nat)
      requires Total(m)
      reads this, pmm, pmm.bitmap, pmm.bitmap.bytes, pmm.refs
    {
      && ValidBut(b) && PayloadsKept(m, h, mem) && SameLive(h, g) && DeadKept(hhdm, runs, m, h, runs, mem, g)
      && b in g.free && b in g.size && b in g.home && b in h.home && g.home[b] == h.home[b]
      && (b + g.size[b] < g.home[b].End() ==> b + g.size[b] !in g.free)
      && g == Forward(h, b) && (m[b + 3] == 0 ==> mem[b + 3] == 0)
      && freeList == (if HasNext(h, b) then HeadAfter(m, head, b + h.size[b]) else head)
      && (if HasNext(h, b) then AllLess(m, h, head, mem, g, freeList, b + h.size[b]) else mem == m && g == h)
    }

    method ForwardRound(b: nat, n: nat) returns (n': nat)
      requires ValidBut(b) && b in g.free && b in g.size && b in g.home && n == b + g.size[b] && n < g.home[b].End() && n in g.free
      modifies this`mem, this`freeList, this`g
      ensures n' == 0 && MergedOn(old(mem), old(g), old(freeList), b)
    {
      assert IsBlock(g, n) && PlaceOk(g, n) && PlaceOk(g, b) && NextInUse(g, b, n);
      AbsorbNext(b, n);
      assert PlaceOk(g, b);
      n' := NextFree(b);
    }

    static lemma SelfKept(hhdm: nat, runs: seq<PageRun>, m: Words, g: Blocks)
      requires Total(m)
      ensures PayloadsKept(m, g, m) && SameLive(g, g) && DeadKept(hhdm, runs, m, g, runs, m, g)
    {
    }

    static lemma KeptAgain(hhdm: nat, r0: seq<PageRun>, m0: Words, g0: Blocks, r1: seq<PageRun>, m1: Words, g1: Blocks,
                           r2: seq<PageRun>, m2: Words, g2: Blocks)
      requires PayloadsKept(m0, g0, m1) && SameLive(g0, g1) && DeadKept(hhdm, r0, m0, g0, r1, m1, g1)
      requires PayloadsKept(m1, g1, m2) && SameLive(g1, g2) && DeadKept(hhdm, r1, m1, g1, r2, m2, g2)
      ensures PayloadsKept(m0, g0, m2) && SameLive(g0, g2) && DeadKept(hhdm, r0, m0, g0, r2, m2, g2)
    {
      PayloadsAgain(m0, g0, m1, g1, m2);
      DeadAgain(hhdm, r0, m0, g0, r1, m1, g1, r2, m2, g2);
    }

    /** Every block lies in some run. */
    static lemma OwnRun(hhdm: nat, runs: seq<PageRun>, g: Blocks, counts: map<nat, nat>, b: nat)
      requires Tiled(g) && RunsOk(hhdm, runs, g, counts) && b in g.size
      ensures exists i :: 0 <= i < |runs| && RunAt(hhdm, runs[i]).Contains(b)
    {
      assert HomeOk(hhdm, runs, g, b) && PlaceOk(g, b);
      var i :| 0 <= i < |runs| && g.home[b] == RunAt(hhdm, runs[i]);
      assert RunAt(hhdm, runs[i]).Contains(b);
    }

    /** One round of merge_backward: the free block `p` before `b` absorbs it.  Both leave their chains, and the
        result is not put back on one. */
    method AbsorbInto(p: nat, b: nat)
      requires ValidBut(b) && p in g.free && p in g.size && p in g.home && b == p + g.size[p] && b < g.home[p].End()
      requires b in g.free && b in g.size
      modifies this`mem, this`freeList, this`g
      ensures ValidBut(p) && Kept() && g == Merged(old(g), p) && Isolated(mem, p, freeList)
      ensures old(mem)[b + 3] == 0 ==> ListBack(old(mem), old(g), old(freeList), b, p)
    {
      ghost var m, h, head := mem, g, freeList;
      Far(g, p, b);
      Delist(p, b);
      LinksOnlyDead(hhdm, runs, m, g, mem);
      UnlinkedAll(m, h, head, p, mem, freeList);
      FirstStays(m, h, head, p, mem, b);
      ghost var m1, g1, head1 := mem, g, freeList;
      JoinBack(p, b);
      KeptAgain(hhdm, runs, m, h, runs, m1, g1, runs, mem, g);
      if m[b + 3] == 0 { BackDone(m, h, head, p, b, m1, head1, mem, g, freeList); }
    }

    /** The list after merge_backward of a block `b` without predecessor into the block `p`. */
    ghost predicate ListBack(m: Words, h: Blocks, head: nat, b: nat, p: nat)
      reads this
    {
      && Chained(m, h, head) && Chained(mem, g, freeList) && OnChain(m, h, b) && |Chain(m, h, head, b)| > 0
      && ListOf(mem, g, freeList) == Without(Chain(m, h, head, b)[1..], p)
    }

    /** The rest of a round of merge_backward, with `p` off its chain. */
    method JoinBack(p: nat, b: nat)
      requires ValidBut(b) && p in g.free && p in g.size && p in g.home && b == p + g.size[p] && b < g.home[p].End()
      requires b in g.free && b in g.size && Isolated(mem, p, freeList)
      modifies this`mem, this`freeList, this`g
      ensures ValidBut(p) && Kept() && g == Merged(old(g), p) && Isolated(mem, p, freeList)
      ensures AllLess(old(mem), old(g), old(freeList), mem, g, freeList, b) && freeList == HeadAfter(old(mem), old(freeList), b)
    {
      ghost var g0 := g;
      MergeBackCoalesced(g, p);
      StoreAndRemove(p, b);
      Joined(hhdm, runs, pmm.counts, old(mem), g, p, freeList, mem);
      g := Merged(g, p);
      LessThenSame(old(mem), g0, old(freeList), mem, g0, freeList, mem, g, freeList, b);
    }

    static lemma Joined(hhdm: nat, runs: seq<PageRun>, counts: map<nat, nat>, m1: Words, g: Blocks, p: nat, head: nat, m3: Words)
      requires Tiled(g) && Tagged(m1, g) && p in g.size && p in g.home && p + g.size[p] < g.home[p].End() && p + g.size[p] in g.size
      requires p in g.free && p + g.size[p] in g.free && MergeWritten(m1, g, p, m3)
      requires Chained(m3, g, head) && Isolated(m3, p + g.size[p], head) && RunsOk(hhdm, runs, g, counts)
      ensures var g' := Merged(g, p);
              && Tiled(g') && Tagged(m3, g') && Chained(m3, g', head) && RunsOk(hhdm, runs, g', counts)
              && PayloadsKept(m1, g, m3) && SameLive(g, g') && DeadKept(hhdm, runs, m1, g, runs, m3, g')
    {
      MergeRuns(hhdm, runs, g, counts, p);
      MergeDead(hhdm, runs, m1, g, p, m3);
      MergeStored(m1, g, p, head, m3, m3);
    }

    method StoreAndRemove(p: nat, b: nat)
      requires Tiled(g) && Tagged(mem, g) && Chained(mem, g, freeList) && p in g.free && p in g.size
      requires b == p + g.size[p] && b in g.free && b in g.size && Isolated(mem, p, freeList)
      modifies this`mem, this`freeList
      ensures Chained(mem, g, freeList) && MergeWritten(old(mem), g, p, mem)
      ensures Isolated(mem, b, freeList) && Isolated(mem, p, freeList)
      ensures AllLess(old(mem), g, old(freeList), mem, g, freeList, b) && freeList == HeadAfter(old(mem), old(freeList), b)
    {
      ghost var m1, head := mem, freeList;
      StoreBefore(p, b);
      ghost var m2 := mem;
      RemoveFree(b);
      ThenRemoved(m1, g, p, m2, mem);
      UnlinkedAll(m2, g, head, b, mem, freeList);
      LinksNext(m1, m2, g);
      SameThenLess(m1, g, head, m2, mem, freeList, b);
      assert SameLinks(m1, m2, b);
    }

    method StoreBefore(p: nat, b: nat)
      requires Tiled(g) && Tagged(mem, g) && Chained(mem, g, freeList) && p in g.free && p in g.size
      requires b == p + g.size[p] && b in g.size && Isolated(mem, p, freeList)
      modifies this`mem
      ensures Chained(mem, g, freeList) && MergeWritten(old(mem), g, p, mem) && Isolated(mem, p, freeList)
      ensures forall c {:trigger SameLinks(old(mem), mem, c)} :: c in g.free ==> SameLinks(old(mem), mem, c)
    {
      StoreMerged(p, b);
      TwoStores(old(mem), g, p, freeList, mem);
    }

    /** The size and footer stores leave the chains alone. */
    static lemma TwoStores(m1: Words, g: Blocks, p: nat, head: nat, m2: Words)
      requires Tiled(g) && Chained(m1, g, head) && p in g.size && p + g.size[p] in g.size && p in g.free && Isolated(m1, p, head)
      requires MergeWritten(m1, g, p, m2)
      requires forall a: nat :: a == p || a == p + g.size[p] + g.size[p + g.size[p]] - 1 || m2[a] == m1[a]
      ensures Chained(m2, g, head) && Isolated(m2, p, head)
      ensures forall c {:trigger SameLinks(m1, m2, c)} :: c in g.free ==> SameLinks(m1, m2, c)
    {
      forall c | c in g.free ensures SameLinks(m1, m2, c) {
        assert IsBlock(g, c);
        Far(g, c, p);
        Far(g, c, p + g.size[p]);
      }
      SameChains(m1, g, head, m2);
      assert SameLinks(m1, m2, p);
    }

    static lemma ThenRemoved(m1: Words, g: Blocks, p: nat, m2: Words, m3: Words)
      requires Tiled(g) && p in g.size && p + g.size[p] in g.size && MergeWritten(m1, g, p, m2) && LinksOnly(m2, g, m3)
      ensures MergeWritten(m1, g, p, m3)
    {
      LinksAreNotTags(g, p);
      LinksAreNotTags(g, p + g.size[p]);
    }

    /** The tests of merge_backward: the free block before `b` in its run, found through its footer, or 0. */
    method PrevFree(b: nat) returns (p: nat)
      requires Tiled(g) && Tagged(mem, g) && RunsOk(hhdm, runs, g, pmm.counts) && b in g.size && b in g.home
      ensures p != 0 ==> p in g.free && p in g.size && p in g.home && p + g.size[p] == b && b < g.home[p].End() && g.home[p] == g.home[b]
      ensures p != 0 ==> HasPrev(g, b) && p == g.pred[b]
      ensures p == 0 && b > g.home[b].start ==> b in g.pred && g.pred[b] !in g.free
    {
      var i := FindPageRun(b);
      if i < 0 {
        OwnRun(hhdm, runs, g, pmm.counts, b);
        assert false;
      }
      FoundHome(hhdm, runs, g, pmm.counts, b, i);
      var start := RunAt(hhdm, runs[i]).start;
      assert PlaceOk(g, b);
      if b > start {
        Far(g, g.pred[b], b);
        assert TagOk(mem, g, g.pred[b]) && PlaceOk(g, g.pred[b]);
      }
      var inside := b > start + 1 && mem[b - 1] <= b && b - mem[b - 1] >= start;
      if !inside { return 0; }
      p := b - mem[b - 1];
      if mem[p + 1] == 0 { return 0; }
    }

    /** merge_backward. */
    method MergeBackward(b: nat) returns (r: nat)
      requires ValidBut(b) && b in g.free && b in g.size && b in g.home
      requires b + g.size[b] < g.home[b].End() ==> b + g.size[b] !in g.free
      modifies this`mem, this`freeList, this`g
      ensures MergedBack(old(mem), old(g), old(freeList), b, r)
    {
      SelfKept(hhdm, runs, mem, g);
      assert PlaceOk(g, b);
      r := b;
      var p := PrevFree(r);
      // no two neighbours are free, so the second round finds nothing
      while p != 0
        invariant p != 0 ==> r == b && g == old(g) && mem == old(mem) && freeList == old(freeList)
        invariant p != 0 ==> p in g.free && p in g.size && p in g.home && p + g.size[p] == b && b < g.home[p].End() && g.home[p] == g.home[b]
        invariant p != 0 ==> HasPrev(g, b) && p == g.pred[b]
        invariant p == 0 ==> MergedBack(old(mem), old(g), old(freeList), b, r)
        decreases if p != 0 then 1 else 0
      {
        var q := BackwardRound(p, r);
        r, p := p, q;
      }
    }

    /** What merge_backward leaves, from memory `m`, blocks `h` and list head `head`. */
    ghost predicate MergedBack(m: Words, h: Blocks, head: nat, b: nat, r: nat)
      reads this, pmm, pmm.bitmap, pmm.bitmap.bytes, pmm.refs
    {
      && ValidBut(r) && PayloadsKept(m, h, mem) && SameLive(h, g) && DeadKept(hhdm, runs, m, h, runs, mem, g)
      && r in g.free && r in g.size && r in g.home && b in h.home && g.home[r] == h.home[b]
      && (r + g.size[r] < g.home[r].End() ==> r + g.size[r] !in g.free)
      && (r > g.home[r].start ==> r in g.pred && g.pred[r] !in g.free)
      && r == Result(h, b) && g == Backward(h, b)
      && (if r == b then mem == m && freeList == head else Isolated(mem, r, freeList))
      && (r != b && b + 3 in m && m[b + 3] == 0 ==> ListBack(m, h, head, b, r))
    }

    method BackwardRound(p: nat, b: nat) returns (q: nat)
      requires ValidBut(b) && p in g.free && p in g.size && p in g.home && b == p + g.size[p] && b < g.home[p].End()
      requires b in g.free && b in g.size && b in g.home && g.home[p] == g.home[b]
      requires HasPrev(g, b) && p == g.pred[b]
      requires b + g.size[b] < g.home[b].End() ==> b + g.size[b] !in g.free
      modifies this`mem, this`freeList, this`g
      ensures q == 0 && MergedBack(old(mem), old(g), old(freeList), b, p)
    {
      Far(g, p, b);
      assert PlaceOk(g, p);
      assert HasPrev(g, p) ==> NextInUse(g, b, g.pred[p]);
      AbsorbInto(p, b);
      assert PlaceOk(g, p);
      q := PrevFree(p);
    }

    /** `b->free = true`: the block becomes a chain of its own. */
    method MarkFree(b: nat)
      requires Valid() && b in g.size && b !in g.free
      modifies this`mem, this`g, this`clock
      ensures ValidBut(b) && g == Flagged(old(g), b, false) && Isolated(mem, b, freeList) && PayloadsKept(old(mem), g, mem)
      ensures mem == old(mem)[b + 1 := 1]
      ensures DeadKept(hhdm, runs, old(mem), old(g), runs, mem, g) && Dead(hhdm, runs, mem, g, b)
    {
      ghost var m, g0 := mem, g;
      assert TagOk(m, g0, b) && PlaceOk(g0, b);
      mem := mem[b + 1 := 1];
      g, clock := Flagged(g, b, false), clock + 1;
      FlaggedTiled(g0, b, false);
      FlaggedTagged(m, g0, b, false, mem);
      forall c | c in g0.free ensures SameLinks(m, mem, c) { assert IsBlock(g0, c); }
      assert SameLinks(m, mem, b);
      SameChains(m, g0, freeList, mem);
      AddChained(mem, g0, freeList, b, g);
      FreedCoalesced(g0, b);
      SameRuns(hhdm, runs, g0, pmm.counts, g);
      NewlyDead(hhdm, runs, m, g0, b);
      forall c, w: nat | InPayload(g, c, w) ensures mem[w] == m[w] { assert InPayload(g0, c, w); }
    }

    static lemma NewlyDead(hhdm: nat, runs: seq<PageRun>, m: Words, g: Blocks, b: nat)
      requires Tiled(g) && Total(m) && b in g.size && b !in g.free
      ensures var m', g' := m[b + 1 := 1], Flagged(g, b, false);
              DeadKept(hhdm, runs, m, g, runs, m', g') && Dead(hhdm, runs, m', g', b)
    {
      var m', g' := m[b + 1 := 1], Flagged(g, b, false);
      assert Within(g', b, b);
      forall a | Dead(hhdm, runs, m, g, a) ensures Dead(hhdm, runs, m', g', a) {
        if Grave(m, g, a) { FreshGrave(m, g, b, a); }
      }
    }

    /** The runs after the last entry of the table has replaced entry `i`. */
    static function WithoutEntry(runs: seq<PageRun>, i: nat): seq<PageRun>
      requires i < |runs|
    {
      runs[i := runs[|runs| - 1]][..|runs| - 1]
    }

    /** A run that is one free block goes back to the frame allocator. */
    method ReleaseRun(i: nat, b: nat)
      requires Valid() && i < |runs| && b in g.free && b in g.size && b in g.home
      requires g.home[b] == RunAt(hhdm, runs[i]) && b == RunAt(hhdm, runs[i]).start && g.size[b] == RunAt(hhdm, runs[i]).size
      modifies this, pmm, pmm.bitmap, pmm.bitmap.bytes, pmm.refs
      ensures Valid() && Kept() && g == WithoutRun(old(g), b) && freeList == HeadAfter(old(mem), old(freeList), b)
      ensures AllLess(old(mem), old(g), old(freeList), mem, g, freeList, b)
    {
      DelistDead(b);
      ghost var m1, g1, r1, c1 := mem, g, runs, pmm.counts;
      assert RunOk(hhdm, runs[i], g, pmm.counts);
      pmm.FreePages(runs[i].pfn, runs[i].pages);
      runs := WithoutEntry(runs, i);
      g := WithoutRun(g, b);
      RunGone(hhdm, r1, m1, g1, c1, i, b, freeList, pmm.counts);
      LessThenSame(old(mem), g1, old(freeList), m1, g1, freeList, mem, g, freeList, b);
      KeptAgain(hhdm, r1, old(mem), old(g), r1, m1, g1, runs, mem, g);
    }

    method DelistDead(b: nat)
      requires Valid() && b in g.free
      modifies this`mem, this`freeList
      ensures Valid() && Kept() && Isolated(mem, b, freeList) && freeList == HeadAfter(old(mem), old(freeList), b)
      ensures AllLess(old(mem), g, old(freeList), mem, g, freeList, b)
    {
      Delist(b, 0);
      UnlinkedAll(old(mem), g, old(freeList), b, mem, freeList);
      LinksOnlyDead(hhdm, runs, old(mem), g, mem);
    }

    static lemma RunGone(hhdm: nat, runs: seq<PageRun>, m: Words, g: Blocks, counts: map<nat, nat>, i: nat, b: nat, head: nat, counts': map<nat, nat>)
      requires Tiled(g) && Tagged(m, g) && Chained(m, g, head) && Coalesced(g, 0) && RunsOk(hhdm, runs, g, counts)
      requires i < |runs| && b in g.free && b in g.size && b in g.home && Isolated(m, b, head)
      requires g.home[b] == RunAt(hhdm, runs[i]) && b == RunAt(hhdm, runs[i]).start && g.size[b] == RunAt(hhdm, runs[i]).size
      requires forall p :: p in counts' <==> p in counts && !(runs[i].pfn <= p < runs[i].pfn + runs[i].pages)
      requires forall p :: p in counts' ==> counts'[p] == counts[p]
      ensures var g' := WithoutRun(g, b);
              && Tiled(g') && Tagged(m, g') && Chained(m, g', head) && Coalesced(g', 0)
              && RunsOk(hhdm, WithoutEntry(runs, i), g', counts')
              && PayloadsKept(m, g, m) && SameLive(g, g') && DeadKept(hhdm, runs, m, g, WithoutEntry(runs, i), m, g')
    {
      var g' := WithoutRun(g, b);
      DropRunTiled(g, b);
      forall c | c in g'.size ensures TagOk(m, g', c) { assert TagOk(m, g, c); }
      DropChained(m, g, head, b, g');
      forall c | c in g'.free ensures NextInUse(g', 0, c) { assert NextInUse(g, 0, c); }
      OtherRuns(hhdm, runs, g, counts, i, b, counts');
      OtherDead(hhdm, runs, m, g, counts, i, b);
    }

    static lemma OtherRuns(hhdm: nat, runs: seq<PageRun>, g: Blocks, counts: map<nat, nat>, i: nat, b: nat, counts': map<nat, nat>)
      requires Tiled(g) && RunsOk(hhdm, runs, g, counts) && i < |runs| && b in g.size && b in g.home
      requires g.home[b] == RunAt(hhdm, runs[i]) && b == RunAt(hhdm, runs[i]).start && g.size[b] == RunAt(hhdm, runs[i]).size
      requires forall p :: p in counts' <==> p in counts && !(runs[i].pfn <= p < runs[i].pfn + runs[i].pages)
      requires forall p :: p in counts' ==> counts'[p] == counts[p]
      ensures RunsOk(hhdm, WithoutEntry(runs, i), WithoutRun(g, b), counts')
    {
      var g', runs' := WithoutRun(g, b), WithoutEntry(runs, i);
      forall k | 0 <= k < |runs'| ensures RunOk(hhdm, runs'[k], g', counts') {
        OtherRun(hhdm, runs, g, counts, i, b, counts', EntryFrom(runs, i, k));
      }
      forall c | c in g'.size ensures HomeOk(hhdm, runs', g', c) { OtherHome(hhdm, runs, g, counts, i, b, c); }
    }

    /** Entry `k` of the shortened table comes from an entry other than `i`. */
    static function EntryFrom(runs: seq<PageRun>, i: nat, k: nat): (j: nat)
      requires i < |runs| && k < |runs| - 1
      ensures j < |runs| && j != i && WithoutEntry(runs, i)[k] == runs[j]
    {
      if k == i then |runs| - 1 else k
    }

    static lemma OtherRun(hhdm: nat, runs: seq<PageRun>, g: Blocks, counts: map<nat, nat>, i: nat, b: nat, counts': map<nat, nat>, j: nat)
      requires RunsOk(hhdm, runs, g, counts) && i < |runs| && j < |runs| && j != i && b == RunAt(hhdm, runs[i]).start
      requires forall p :: p in counts' <==> p in counts && !(runs[i].pfn <= p < runs[i].pfn + runs[i].pages)
      requires forall p :: p in counts' ==> counts'[p] == counts[p]
      ensures RunOk(hhdm, runs[j], WithoutRun(g, b), counts')
    {
      assert RunOk(hhdm, runs[j], g, counts) && RunOk(hhdm, runs[i], g, counts);
    }

    static lemma OtherHome(hhdm: nat, runs: seq<PageRun>, g: Blocks, counts: map<nat, nat>, i: nat, b: nat, c: nat)
      requires Tiled(g) && RunsOk(hhdm, runs, g, counts) && i < |runs| && b in g.size && c in g.size && c != b
      requires b == RunAt(hhdm, runs[i]).start && g.size[b] == RunAt(hhdm, runs[i]).size
      ensures HomeOk(hhdm, WithoutEntry(runs, i), WithoutRun(g, b), c)
    {
      assert HomeOk(hhdm, runs, g, c) && PlaceOk(g, c);
      var j :| 0 <= j < |runs| && g.home[c] == RunAt(hhdm, runs[j]);
      Far(g, b, c);
      var k := if j == |runs| - 1 then i else j;
      assert WithoutEntry(runs, i)[k] == runs[j];
    }

    static lemma OtherDead(hhdm: nat, runs: seq<PageRun>, m: Words, g: Blocks, counts: map<nat, nat>, i: nat, b: nat)
      requires Tiled(g) && RunsOk(hhdm, runs, g, counts) && i < |runs| && b in g.size && b in g.home
      requires g.home[b] == RunAt(hhdm, runs[i]) && b == RunAt(hhdm, runs[i]).start && g.size[b] == RunAt(hhdm, runs[i]).size
      ensures DeadKept(hhdm, runs, m, g, WithoutEntry(runs, i), m, WithoutRun(g, b))
    {
      var g', runs' := WithoutRun(g, b), WithoutEntry(runs, i);
      forall a | Dead(hhdm, runs, m, g, a) ensures Dead(hhdm, runs', m, g', a) {
        if Grave(m, g, a) {
          var x :| Within(g, a, x);
          if x == b {
            assert PlaceOk(g, b) && RunAt(hhdm, runs[i]).Contains(a);
            forall k | 0 <= k < |runs'| ensures !RunAt(hhdm, runs'[k]).Contains(a) {
              var j := EntryFrom(runs, i, k);
              assert runs[i].pfn + runs[i].pages <= runs[j].pfn || runs[j].pfn + runs[j].pages <= runs[i].pfn;
            }
          } else {
            assert Within(g', a, x);
          }
        } else {
          forall k | 0 <= k < |runs'| ensures !RunAt(hhdm, runs'[k]).Contains(a) {
            assert runs'[k] == runs[EntryFrom(runs, i, k)];
          }
        }
      }
    }

    ghost predicate InUse(ptr: nat)
      reads this
    {
      ptr >= HEADER && ptr - HEADER in g.size && ptr - HEADER !in g.free
    }

    ghost predicate IsDead(ptr: nat)
      reads this
    {
      ptr == 0 || (ptr >= HEADER && Dead(hhdm, runs, mem, g, ptr - HEADER))
    }

    /** What kfree of block `b` does to the blocks and to the list that kmalloc searches, from memory `m`, blocks `h` and list
        head `head`.  `b` is merged with its free neighbours; if the result fills its run it is given back with it.
        HeapLists.FreedFinds says which blocks are on the new list. */
    ghost predicate FreedAs(m: Words, h: Blocks, head: nat, b: nat)
      requires Valid() && Chained(m, h, head)
      reads this, pmm, pmm.bitmap, pmm.bitmap.bytes, pmm.refs
    {
      var r := Result(h, b);
      && ListOf(mem, g, freeList) == FreedList(m, h, head, b)
      && if FillsRun(Freed(h, b), r) then SameBlocks(WithoutRun(Freed(h, b), r), g)
         else
           && SameBlocks(Freed(h, b), g) && r in g.free
           && (if r == b then mem[r + 3] == 0 && freeList == HeadThen(m, h, head, b) else Isolated(mem, r, freeList))
    }

    /** The search of kmalloc comes to block `c`. */
    ghost predicate Found(c: nat)
      requires Valid()
      reads this, pmm, pmm.bitmap, pmm.bitmap.bytes, pmm.refs
    {
      c in ListOf(mem, g, freeList)
    }

    /** kfree of a pointer in use, or of one already freed since the last kmalloc. */
    method Free(ptr: nat)
      requires Valid() && (InUse(ptr) || IsDead(ptr))
      modifies this, pmm, pmm.bitmap, pmm.bitmap.bytes, pmm.refs
      ensures Valid() && IsDead(ptr)
      // a second kfree changes nothing
      ensures old(IsDead(ptr)) ==>
                && mem == old(mem) && g == old(g) && runs == old(runs) && freeList == old(freeList)
                && pmm.counts == old(pmm.counts) && pmm.Free() == old(pmm.Free())
      // otherwise exactly this block is given back, and the other payloads are untouched
      ensures old(InUse(ptr)) ==> OneMore(g, old(g), ptr) && FreedAs(old(mem), old(g), old(freeList), ptr - HEADER)
      ensures PayloadsKept(old(mem), g, mem)
      ensures DeadKept(hhdm, old(runs), old(mem), old(g), runs, mem, g)
    {
      if ptr == 0 { SelfKept(hhdm, runs, mem, g); return; }
      var b := ptr - HEADER;
      var i := FindPageRun(b);
      if i < 0 || mem[b + 1] != 0 {
        SelfKept(hhdm, runs, mem, g);
        NotInUse(b, i);
        return;
      }
      GiveBack(b, i);
    }

    /** An address without a run, or with its flag set, does not start a block in use. */
    lemma NotInUse(b: nat, i: int)
      requires Valid()
      requires (forall j :: 0 <= j < |runs| ==> !RunAt(hhdm, runs[j]).Contains(b)) || mem[b + 1] != 0
      ensures !(b in g.size && b !in g.free)
    {
      if b in g.size {
        assert TagOk(mem, g, b);
        OwnRun(hhdm, runs, g, pmm.counts, b);
      }
    }

    /** The body of kfree for a block in use. */
    method GiveBack(b: nat, i: nat)
      requires Valid() && b in g.size && b !in g.free && i < |runs| && RunAt(hhdm, runs[i]).Contains(b)
      modifies this, pmm, pmm.bitmap, pmm.bitmap.bytes, pmm.refs
      ensures Valid() && OneMore(g, old(g), b + HEADER) && PayloadsKept(old(mem), g, mem)
      ensures DeadKept(hhdm, old(runs), old(mem), old(g), runs, mem, g) && Dead(hhdm, runs, mem, g, b)
      ensures FreedAs(old(mem), old(g), old(freeList), b)
    {
      FoundHome(hhdm, runs, g, pmm.counts, b, i);
      ghost var m0, g0, r0, head := mem, g, runs, freeList;
      var r := FreeAndMerge(b);
      ghost var m2, g2, head2 := mem, g, freeList;
      SameLoss(m0, g0, b, r);
      LetGo(i, r);
      ListLetGo(m0, g0, head, b, r, m2, g2, head2);
      AfterLetGo(r0, m0, g0, b, m2, g2);
    }

    lemma AfterLetGo(r0: seq<PageRun>, m0: Words, g0: Blocks, b: nat, m2: Words, g2: Blocks)
      requires OneMore(g2, g0, b + HEADER) && PayloadsKept(m0, g2, m2) && DeadKept(hhdm, r0, m0, g0, r0, m2, g2) && Dead(hhdm, r0, m2, g2, b)
      requires PayloadsKept(m2, g2, mem) && SameLive(g2, g) && DeadKept(hhdm, r0, m2, g2, runs, mem, g)
      ensures OneMore(g, g0, b + HEADER) && PayloadsKept(m0, g, mem)
      ensures DeadKept(hhdm, r0, m0, g0, runs, mem, g) && Dead(hhdm, runs, mem, g, b)
    {
      StillLess(m0, g0, b, m2, g2, mem, g);
      DeadAgain(hhdm, r0, m0, g0, r0, m2, g2, runs, mem, g);
    }

    /** The list once a block that fills its run is gone with it. */
    lemma ListLetGo(m: Words, h: Blocks, head: nat, b: nat, r: nat, m2: Words, g2: Blocks, head2: nat)
      requires Chained(m, h, head) && Chained(m2, g2, head2) && Chained(mem, g, freeList) && r in g2.free && r == Result(h, b)
      requires HasPrev(h, b) ==> r != b
      requires ListOf(m2, g2, head2) == MergedList(m, h, head, b)
      requires r == b ==> m2[b + 3] == 0 && OnChain(m2, g2, b) && Chain(m2, g2, head2, b) == [b] + Rest(m, h, head, b)
      requires r != b ==> Isolated(m2, r, head2)
      requires if FillsRun(Freed(h, b), r) then AllLess(m2, g2, head2, mem, g, freeList, r) && freeList == HeadAfter(m2, head2, r)
               else mem == m2 && g == g2 && freeList == head2
      ensures ListOf(mem, g, freeList) == FreedList(m, h, head, b)
    {
      if FillsRun(Freed(h, b), r) && r == b { FirstRemoved(m2, g2, head2, b, mem, g, freeList); }
    }

    /** kfree up to the release of the run. */
    method FreeAndMerge(b: nat) returns (r: nat)
      requires Valid() && b in g.size && b !in g.free && b in g.home
      modifies this`mem, this`freeList, this`g, this`clock
      ensures Valid() && OneMore(g, old(g), b + HEADER) && PayloadsKept(old(mem), g, mem)
      ensures DeadKept(hhdm, runs, old(mem), old(g), runs, mem, g) && Dead(hhdm, runs, mem, g, b)
      ensures r in g.free && r in g.size && r in g.home && g.home[r] == old(g).home[b]
      ensures r == Result(old(g), b) && SameBlocks(Freed(old(g), b), g)
      ensures (HasPrev(old(g), b) ==> r != b) && ListMerged(old(mem), old(g), old(freeList), b, r)
      ensures if r == b then mem[r + 3] == 0 && freeList == HeadThen(old(mem), old(g), old(freeList), b) else Isolated(mem, r, freeList)
    {
      ghost var g0, m0, head := g, mem, freeList;
      assert PlaceOk(g, b);
      MarkFree(b);
      MarkedHead(m0, g0, head, b, mem, g);
      r := MergeMarked(m0, g0, b);
    }

    method MergeMarked(ghost m0: Words, ghost g0: Blocks, b: nat) returns (r: nat)
      requires ValidBut(b) && b in g.free && b in g.size && b in g.home && b in g0.size && b !in g0.free && Isolated(mem, b, freeList) && b != 0
      requires Marked(m0, g0, freeList, b, mem, g) && PayloadsKept(m0, g, mem)
      requires DeadKept(hhdm, runs, m0, g0, runs, mem, g) && Dead(hhdm, runs, mem, g, b)
      modifies this`mem, this`freeList, this`g, this`clock
      ensures Valid() && OneMore(g, g0, b + HEADER) && PayloadsKept(m0, g, mem)
      ensures DeadKept(hhdm, runs, m0, g0, runs, mem, g) && Dead(hhdm, runs, mem, g, b)
      ensures r in g.free && r in g.size && r in g.home && g.home[r] == old(g).home[b]
      ensures r == Result(g0, b) && SameBlocks(Freed(g0, b), g)
      ensures ListMerged(m0, g0, old(freeList), b, r)
      ensures if r == b then mem[r + 3] == 0 && freeList == HeadThen(m0, g0, old(freeList), b) else Isolated(mem, r, freeList)
    {
      ghost var m1, g1, head := mem, g, freeList;
      r := Coalesce(b);
      AfterMerge(m0, g0, head, b, m1, g1, r, Rest(m0, g0, head, b), MergedList(m0, g0, head, b));
    }

    /** Setting the free flag of `b` changes no neighbours and no list. */
    static ghost predicate Marked(m: Words, h: Blocks, head: nat, b: nat, m1: Words, h1: Blocks) {
      && Chained(m, h, head) && Chained(m1, h1, head) && h1 == Flagged(h, b, false)
      && HasNext(h1, b) == HasNext(h, b) && HasPrev(h1, b) == HasPrev(h, b) && Result(h1, b) == Result(h, b)
      && StaysInFront(m1, h1, head, b) == StaysInFront(m, h, head, b) && HeadThen(m1, h1, head, b) == HeadThen(m, h, head, b)
      && (HasPrev(h, b) ==> Result(h, b) != b)
      && Rest(m1, h1, head, b) == Rest(m, h, head, b) && MergedList(m1, h1, head, b) == MergedList(m, h, head, b)
    }

    lemma AfterMerge(m0: Words, g0: Blocks, head: nat, b: nat, m1: Words, g1: Blocks, r: nat, rest: seq<nat>, merged: seq<nat>)
      requires Valid() && Total(m0) && b in g0.size && b !in g0.free && b != 0 && g1 == Flagged(g0, b, false) && PayloadsKept(m0, g1, m1)
      requires PayloadsKept(m1, g1, mem) && SameLive(g1, g) && DeadKept(hhdm, runs, m1, g1, runs, mem, g)
      requires DeadKept(hhdm, runs, m0, g0, runs, m1, g1) && Dead(hhdm, runs, m1, g1, b)
      requires r in g.free && r == Result(g0, b) && SameBlocks(Backward(Forward(g1, b), b), g) && (HasPrev(g0, b) ==> r != b)
      requires if r == b then mem[b + 3] == 0 && freeList == HeadThen(m0, g0, head, b) else Isolated(mem, r, freeList)
      requires Chained(m0, g0, head) && Rest(m0, g0, head, b) == rest && MergedList(m0, g0, head, b) == merged
      requires ListOf(mem, g, freeList) == merged && (r == b ==> OnChain(mem, g, b) && Chain(mem, g, freeList, b) == [b] + rest)
      ensures OneMore(g, g0, b + HEADER) && PayloadsKept(m0, g, mem) && SameBlocks(Freed(g0, b), g)
      ensures DeadKept(hhdm, runs, m0, g0, runs, mem, g) && Dead(hhdm, runs, mem, g, b)
      ensures ListMerged(m0, g0, head, b, r)
    {
      OneLess(m0, g0, b, m1, g1, mem, g);
      DeadAgain(hhdm, runs, m0, g0, runs, m1, g1, runs, mem, g);
    }

    /** Without stamps the two descriptions say the same. */
    lemma SameLoss(m: Words, h: Blocks, b: nat, r: nat)
      requires SameBlocks(Freed(h, b), g)
      ensures FillsRun(g, r) == FillsRun(Freed(h, b), r) && SameBlocks(WithoutRun(Freed(h, b), r), WithoutRun(g, r))
    {
    }

    static lemma StillLess(m0: Words, g0: Blocks, b: nat, m2: Words, g2: Blocks, m3: Words, g3: Blocks)
      requires OneMore(g2, g0, b + HEADER) && PayloadsKept(m0, g2, m2) && PayloadsKept(m2, g2, m3) && SameLive(g2, g3)
      ensures OneMore(g3, g0, b + HEADER) && PayloadsKept(m0, g3, m3)
    {
      PayloadsAgain(m0, g2, m2, g2, m3);
      forall c, w: nat | InPayload(g3, c, w) ensures m3[w] == m0[w] { assert InPayload(g2, c, w); }
    }

    /** The end of kfree: a block that fills its run is given back with it. */
    method LetGo(i: nat, r: nat)
      requires Valid() && i < |runs| && r in g.free && r in g.size && r in g.home && g.home[r] == RunAt(hhdm, runs[i])
      modifies this, pmm, pmm.bitmap, pmm.bitmap.bytes, pmm.refs
      ensures Valid() && Kept()
      ensures if FillsRun(old(g), r)
              then g == WithoutRun(old(g), r) && freeList == HeadAfter(old(mem), old(freeList), r)
                   && AllLess(old(mem), old(g), old(freeList), mem, g, freeList, r)
              else g == old(g) && mem == old(mem) && freeList == old(freeList)
    {
      SelfKept(hhdm, runs, mem, g);
      assert TagOk(mem, g, r);
      if mem[r] == RunAt(hhdm, runs[i]).size && r == RunAt(hhdm, runs[i]).start { ReleaseRun(i, r); }
    }

    /** Setting the free flag changes no link. */
    static lemma MarkedHead(m: Words, h: Blocks, head: nat, b: nat, m1: Words, h1: Blocks)
      requires Chained(m, h, head) && Tiled(h) && b in h.size && b in h.home && b !in h.free && m1 == m[b + 1 := 1] && h1 == Flagged(h, b, false)
      requires Chained(m1, h1, head)
      ensures Marked(m, h, head, b, m1, h1)
    {
      assert PlaceOk(h, b);
      assert HasNext(h, b) ==> LinkOk(m, h, b + h.size[b]);
      if b > h.home[b].start { Far(h, h.pred[b], b); }
      forall c | c in h.free ensures NextSame(m, m1, c) { assert IsBlock(h, c); Far(h, b, c); }
      MarkedList(m, h, head, b, m1, h1);
    }

    static lemma OneLess(m0: Words, g0: Blocks, b: nat, m1: Words, g1: Blocks, m2: Words, g2: Blocks)
      requires b in g0.size && b !in g0.free && g1 == Flagged(g0, b, false)
      requires PayloadsKept(m0, g1, m1) && PayloadsKept(m1, g1, m2) && SameLive(g1, g2)
      ensures OneMore(g2, g0, b + HEADER) && PayloadsKept(m0, g2, m2)
    {
      PayloadsAgain(m0, g1, m1, g1, m2);
      forall c, w: nat | InPayload(g2, c, w) ensures m2[w] == m0[w] { assert InPayload(g1, c, w); }
    }

    /** Put a free block on the chain and merge it both ways.  When it merges backwards, the result is on no chain
        that starts at `free_list`, so first fit will not find it. */
    method Coalesce(b: nat) returns (r: nat)
      requires ValidBut(b) && b in g.free && b in g.size && b in g.home && Isolated(mem, b, freeList)
      modifies this`mem, this`freeList, this`g, this`clock
      ensures Valid() && Kept() && r in g.free && r in g.size && r in g.home && g.home[r] == old(g).home[b]
      ensures r == Result(old(g), b) && SameBlocks(Backward(Forward(old(g), b), b), g)
      ensures if r == b then mem[b + 3] == 0 && freeList == HeadThen(old(mem), old(g), old(freeList), b) else Isolated(mem, r, freeList)
      ensures ListMerged(old(mem), old(g), old(freeList), b, r)
    {
      ghost var m0, g0, head := mem, g, freeList;
      ResultForward(g, b);
      EnlistAndMerge(b);
      ghost var m1, g1, head1 := mem, g, freeList;
      r := MergeRest(b);
      KeptAgain(hhdm, runs, old(mem), old(g), runs, m1, g1, runs, mem, g);
      SameMerges(Forward(old(g), b), g1, b);
      MergedOf(m0, g0, head, b, m1, g1, head1, r);
    }

    /** The list, and what is behind a block that was not merged backwards, before the run is released. */
    ghost predicate ListMerged(m: Words, h: Blocks, head: nat, b: nat, r: nat)
      reads this
    {
      && Chained(m, h, head) && Chained(mem, g, freeList) && ListOf(mem, g, freeList) == MergedList(m, h, head, b)
      && (r == b ==> OnChain(mem, g, b) && Chain(mem, g, freeList, b) == [b] + Rest(m, h, head, b))
    }

    lemma MergedOf(m0: Words, g0: Blocks, head: nat, b: nat, m1: Words, g1: Blocks, head1: nat, r: nat)
      requires Chained(m0, g0, head) && Chained(m1, g1, head1) && Chained(mem, g, freeList) && OnChain(m1, g1, b)
      requires Chain(m1, g1, head1, b) == [b] + Rest(m0, g0, head, b) && ListOf(m1, g1, head1) == ForwardList(m0, g0, head, b)
      requires r == Result(g0, b) && (HasPrev(g0, b) ==> g0.pred[b] != b)
      requires if r == b then mem == m1 && g == g1 && freeList == head1 else ListBack(m1, g1, head1, b, r)
      ensures ListMerged(m0, g0, head, b, r)
    {
    }

    /** set_footer and merge_backward, after which no two neighbours are free. */
    method MergeRest(b: nat) returns (r: nat)
      requires ValidBut(b) && b in g.free && b in g.size && b in g.home
      requires b + g.size[b] < g.home[b].End() ==> b + g.size[b] !in g.free
      modifies this`mem, this`freeList, this`g
      ensures Valid() && MergedBack(old(mem), old(g), old(freeList), b, r)
    {
      SetFooter(b);
      r := MergeBackward(b);
      assert PlaceOk(g, r);
      CoalescedAgain(g, r);
    }

    /** set_footer, where the footer is right already. */
    method SetFooter(b: nat)
      requires Tagged(mem, g) && b in g.size
      modifies this`mem
      ensures mem == old(mem)
    {
      assert TagOk(mem, g, b);
      mem := mem[b + mem[b] - 1 := mem[b]];
    }

    /** free_list_insert and merge_forward. */
    method EnlistAndMerge(b: nat)
      requires ValidBut(b) && b in g.free && b in g.size && b in g.home && Isolated(mem, b, freeList)
      modifies this`mem, this`freeList, this`g, this`clock
      ensures ValidBut(b) && Kept() && b in g.free && b in g.size && b in g.home && g.home[b] == old(g).home[b]
      ensures b + g.size[b] < g.home[b].End() ==> b + g.size[b] !in g.free
      ensures SameBlocks(Forward(old(g), b), g) && mem[b + 3] == 0 && freeList == HeadThen(old(mem), old(g), old(freeList), b)
      ensures ListForward(old(mem), old(g), old(freeList), b)
    {
      ghost var m0, g0, head := mem, g, freeList;
      assert PlaceOk(g, b);
      EnlistDead(b);
      ghost var m1, g1 := mem, g;
      MergeForward(b);
      AfterForward(m0, g0, head, b, m1, g1);
    }

    /** What free_list_insert of `b` leaves. */
    static ghost predicate Enlisted(hhdm: nat, runs: seq<PageRun>, m0: Words, g0: Blocks, head: nat, b: nat, m1: Words, g1: Blocks) {
      && Total(m0) && Total(m1) && SameBlocks(g0, g1) && m1[b + 3] == 0
      && PayloadsKept(m0, g0, m1) && SameLive(g0, g1) && DeadKept(hhdm, runs, m0, g0, runs, m1, g1)
      && (if HasNext(g1, b) then HeadAfter(m1, b, b + g1.size[b]) else b) == HeadThen(m0, g0, head, b)
      && Inserted(m0, g0, head, m1, g1, b) && b in g0.free && Isolated(m0, b, head) && b in g0.size && g0.size[b] > 0 && b in g0.home
    }

    lemma AfterForward(m0: Words, g0: Blocks, head: nat, b: nat, m1: Words, g1: Blocks)
      requires Enlisted(hhdm, runs, m0, g0, head, b, m1, g1) && MergedOn(m1, g1, b, b)
      ensures PayloadsKept(m0, g0, mem) && SameLive(g0, g) && DeadKept(hhdm, runs, m0, g0, runs, mem, g)
      ensures SameBlocks(Forward(g0, b), g) && mem[b + 3] == 0 && freeList == HeadThen(m0, g0, head, b)
      ensures b in g.home && g.home[b] == g0.home[b] && ListForward(m0, g0, head, b)
    {
      ForwardOf(m0, g0, head, b, m1, g1);
      MergedToo(m0, g0, head, b, m1, g1);
    }

    /** The list, and what is behind `b`, after merge_forward. */
    ghost predicate ListForward(m: Words, h: Blocks, head: nat, b: nat)
      reads this
    {
      && Chained(m, h, head) && Chained(mem, g, freeList) && OnChain(mem, g, b)
      && Chain(mem, g, freeList, b) == [b] + Rest(m, h, head, b)
      && ListOf(mem, g, freeList) == ForwardList(m, h, head, b)
    }

    lemma ForwardOf(m0: Words, g0: Blocks, head: nat, b: nat, m1: Words, g1: Blocks)
      requires Total(m0) && Total(m1) && MergedOn(m1, g1, b, b) && SameBlocks(g0, g1)
      requires (if HasNext(g1, b) then HeadAfter(m1, b, b + g1.size[b]) else b) == HeadThen(m0, g0, head, b)
      requires Inserted(m0, g0, head, m1, g1, b) && b in g0.free && Isolated(m0, b, head) && b in g0.size && g0.size[b] > 0
      ensures ListForward(m0, g0, head, b)
    {
      ForwardDone(m0, g0, head, b, m1, g1, mem, g, freeList);
    }

    lemma MergedToo(m0: Words, g0: Blocks, head: nat, b: nat, m1: Words, g1: Blocks)
      requires Total(m0) && Total(m1) && MergedOn(m1, g1, b, b) && SameBlocks(g0, g1) && m1[b + 3] == 0
      requires PayloadsKept(m0, g0, m1) && SameLive(g0, g1) && DeadKept(hhdm, runs, m0, g0, runs, m1, g1)
      requires (if HasNext(g1, b) then HeadAfter(m1, b, b + g1.size[b]) else b) == HeadThen(m0, g0, head, b)
      ensures PayloadsKept(m0, g0, mem) && SameLive(g0, g) && DeadKept(hhdm, runs, m0, g0, runs, mem, g)
      ensures SameBlocks(Forward(g0, b), g) && mem[b + 3] == 0 && freeList == HeadThen(m0, g0, head, b)
    {
      KeptAgain(hhdm, runs, m0, g0, runs, m1, g1, runs, mem, g);
      SameMerges(g0, g1, b);
    }

    /** free_list_insert, with what it means for blocks freed before. */
    method EnlistDead(b: nat)
      requires ValidBut(b) && b in g.free && b in g.size && b in g.home && Isolated(mem, b, freeList)
      modifies this`mem, this`freeList, this`g, this`clock
      ensures ValidBut(b) && freeList == b && Enlisted(hhdm, runs, old(mem), old(g), old(freeList), b, mem, g)
    {
      ghost var m0, g0, head := mem, g, freeList;
      assert PlaceOk(g, b);
      Enlist(b, b);
      EnlistedAs(hhdm, runs, m0, g0, head, b, mem, g);
    }

    static lemma EnlistedAs(hhdm: nat, runs: seq<PageRun>, m0: Words, g0: Blocks, head: nat, b: nat, m1: Words, g1: Blocks)
      requires Tiled(g0) && Chained(m0, g0, head) && Chained(m1, g1, b) && SameBlocks(g0, g1) && LinksOnly(m0, g0, m1) && PayloadsKept(m0, g0, m1)
      requires b in g0.free && b in g0.size && b in g0.home && b > 0 && g0.size[b] > 0 && Isolated(m0, b, head)
      requires forall c {:trigger SameLinks(m0, m1, c)} :: c in g0.free && c != b && c != head ==> SameLinks(m0, m1, c)
      requires m1[b + 2] == head && m1[b + 3] == 0 && (head != 0 ==> m1[head + 2] == m0[head + 2] && m1[head + 3] == b)
      ensures Enlisted(hhdm, runs, m0, g0, head, b, m1, g1)
    {
      forall c | c in g0.free && c != b ensures NextSame(m0, m1, c) { assert c != head ==> SameLinks(m0, m1, c); }
      InsertedChain(m0, g0, head, b, m1, g1);
      LinksOnlyDead(hhdm, runs, m0, g0, m1);
      SameDead(hhdm, runs, m1, g0, g1);
      DeadAgain(hhdm, runs, m0, g0, runs, m1, g0, runs, m1, g1);
      assert HasNext(g0, b) && b + g0.size[b] != head ==> SameLinks(m0, m1, b + g0.size[b]);
      EnlistedHead(m0, g0, head, b, m1, g1);
    }

    static lemma SameDead(hhdm: nat, runs: seq<PageRun>, m: Words, g: Blocks, g': Blocks)
      requires g'.free == g.free && g'.size == g.size
      ensures DeadKept(hhdm, runs, m, g, runs, m, g')
    {
      forall a | Dead(hhdm, runs, m, g, a) ensures Dead(hhdm, runs, m, g', a) {
        if Grave(m, g, a) {
          var x :| Within(g, a, x);
          assert Within(g', a, x);
        }
      }
    }

    /** A store into a block in use leaves the flags of freed blocks alone. */
    static lemma PokeDead(hhdm: nat, runs: seq<PageRun>, m: Words, g: Blocks, b: nat, w: nat, v: nat)
      requires Tiled(g) && Total(m) && b in g.size && b !in g.free && b <= w < b + g.size[b]
      ensures DeadKept(hhdm, runs, m, g, runs, m[w := v], g)
    {
      var m' := m[w := v];
      forall a | Dead(hhdm, runs, m, g, a) ensures Dead(hhdm, runs, m', g, a) {
        if Grave(m, g, a) {
          var x :| Within(g, a, x);
          Far(g, b, x);
          assert m'[a + 1] == m[a + 1];
        }
      }
    }

    // ----- how the list is lost -----

    /** Three neighbours in use, with a fourth block in use after them, and no free block before the first. */
    static ghost predicate FourInUse(g: Blocks, z: nat, a: nat, b: nat) {
      && z in g.size && z !in g.free && z in g.home && !HasPrev(g, z)
      && a in g.size && a !in g.free && a == z + g.size[z]
      && b in g.size && b !in g.free && b == a + g.size[a]
      && b + g.size[b] !in g.free && b + g.size[b] < g.home[z].End()
    }

    /** The same with the second one free. */
    static ghost predicate OneFree(g: Blocks, z: nat, a: nat, b: nat) {
      && z in g.size && z !in g.free && z in g.home && !HasPrev(g, z)
      && a in g.size && a in g.free && a == z + g.size[z] && a in g.home && g.home[a].start <= z
      && b in g.size && b !in g.free && b == a + g.size[a] && b in g.home && HasPrev(g, b) && g.pred[b] == a
      && b + g.size[b] !in g.free && b + g.size[b] < g.home[z].End()
    }

    /** The first one in use, and a free block after it that does not reach to the end of the run. */
    static ghost predicate BeforeFree(g: Blocks, z: nat, a: nat) {
      && z in g.size && z !in g.free && z in g.home && !HasPrev(g, z)
      && a in g.size && a in g.free && a == z + g.size[z] && a + g.size[a] < g.home[z].End()
    }

    /** Freeing the middle one, then the one after it, then the one before it: the second kfree merges into the first block,
        which is then on no list, and the third removes it from the list it is not on.  No free block is found any more. */
    method LoseList(z: nat, a: nat, b: nat)
      requires Valid() && FourInUse(g, z, a, b)
      modifies this, pmm, pmm.bitmap, pmm.bitmap.bytes, pmm.refs
      ensures Valid() && freeList == 0 && forall c :: !Found(c)
    {
      FreeMiddle(z, a, b);
      FreeAfter(z, a, b);
      FreeBefore(z, a);
    }

    method FreeMiddle(z: nat, a: nat, b: nat)
      requires Valid() && FourInUse(g, z, a, b)
      modifies this, pmm, pmm.bitmap, pmm.bitmap.bytes, pmm.refs
      ensures Valid() && OneFree(g, z, a, b)
    {
      ghost var g0 := g;
      Free(a + HEADER);
      MiddleFreed(g0, z, a, b, g);
    }

    static lemma MiddleFreed(g: Blocks, z: nat, a: nat, b: nat, g': Blocks)
      requires Tiled(g) && FourInUse(g, z, a, b)
      requires if FillsRun(Freed(g, a), Result(g, a)) then SameBlocks(WithoutRun(Freed(g, a), Result(g, a)), g') else SameBlocks(Freed(g, a), g')
      ensures OneFree(g', z, a, b)
    {
      assert PlaceOk(g, z) && PlaceOk(g, a) && PlaceOk(g, b);
      assert Freed(g, a) == Flagged(g, a, false);
    }

    method FreeAfter(z: nat, a: nat, b: nat)
      requires Valid() && OneFree(g, z, a, b)
      modifies this, pmm, pmm.bitmap, pmm.bitmap.bytes, pmm.refs
      ensures Valid() && BeforeFree(g, z, a) && Isolated(mem, a, freeList)
    {
      ghost var m, h, head := mem, g, freeList;
      AfterFreed(h, z, a, b);
      Free(b + HEADER);
      MergedBefore(m, h, head, b, Freed(h, b), z, a);
    }

    lemma MergedBefore(m: Words, h: Blocks, head: nat, b: nat, f: Blocks, z: nat, a: nat)
      requires Valid() && Chained(m, h, head) && FreedAs(m, h, head, b) && Result(h, b) == a != b
      requires f == Freed(h, b) && !FillsRun(f, a) && BeforeFree(f, z, a)
      ensures BeforeFree(g, z, a) && Isolated(mem, a, freeList)
    {
    }

    static lemma AfterFreed(g: Blocks, z: nat, a: nat, b: nat)
      requires Tiled(g) && OneFree(g, z, a, b)
      ensures Result(g, b) == a != b && !FillsRun(Freed(g, b), a) && BeforeFree(Freed(g, b), z, a)
    {
      assert PlaceOk(g, z) && PlaceOk(g, a) && PlaceOk(g, b);
      assert Forward(Flagged(g, b, false), b) == Flagged(g, b, false);
      Far(g, z, a);
      Far(g, z, b);
    }

    method FreeBefore(z: nat, a: nat)
      requires Valid() && BeforeFree(g, z, a) && Isolated(mem, a, freeList)
      modifies this, pmm, pmm.bitmap, pmm.bitmap.bytes, pmm.refs
      ensures Valid() && freeList == 0
    {
      ghost var g0 := g;
      BeforeFreed(g0, z, a);
      Free(z + HEADER);
    }

    static lemma BeforeFreed(g: Blocks, z: nat, a: nat)
      requires Tiled(g) && BeforeFree(g, z, a)
      ensures Result(g, z) == z && !FillsRun(Freed(g, z), z) && HasNext(g, z)
    {
      assert PlaceOk(g, z) && PlaceOk(g, a);
      var h := Forward(Flagged(g, z, false), z);
      assert !HasPrev(h, z) && h.size[z] == g.size[z] + g.size[a] && Backward(h, z) == h;
    }

    /** A store through a pointer in use, inside its block. */
    method Poke(ptr: nat, k: nat, v: nat)
      requires Valid() && InUse(ptr) && k < g.size[ptr - HEADER] - HEADER - 1
      modifies this`mem
      ensures Valid() && mem == old(mem)[ptr + k := v]
      ensures forall b, w: nat {:trigger InPayload(g, b, w)} :: InPayload(g, b, w) && w != ptr + k ==> mem[w] == old(mem)[w]
      ensures DeadKept(hhdm, runs, old(mem), g, runs, mem, g)
    {
      PokeDead(hhdm, runs, mem, g, ptr - HEADER, ptr + k, v);
      assert InPayload(g, ptr - HEADER, ptr + k);
      PokeKeeps(mem, g, freeList, ptr - HEADER, ptr + k, v);
      mem := mem[ptr + k := v];
    }
  }
}
