/** Boundary tags and free chains of kernel/mm/kmalloc.c, as values.

    Memory is word-addressed (8 bytes a word), so a block header is the four words
    size, free, next, prev and a footer is one word holding the size.  `Blocks` is the
    ghost description of the heap; each lemma shows that one elementary update of the
    C code keeps `Tagged` (the tiling and its tags) and `Chained` (the free chains). */
module HeapBlocks {

  const HEADER: nat := 4
  const MIN_BLOCK: nat := 7

  type Words = imap<nat, nat>

  ghost predicate Total(mem: Words) {
    forall a: nat :: a in mem
  }

  /** A run of pages: its first word and its length in words. */
  datatype Run = Run(start: nat, size: nat) {
    function End(): nat { start + size }
    predicate Contains(a: nat) { start <= a < End() }
  }

  /** `size`: every block and its size.  `home`: its run.  `pred`: the block just before it in the run.
      `free`: the free blocks.  `stamp`: when each was last put on a chain. */
  datatype Blocks = Blocks(size: map<nat, nat>, home: map<nat, Run>, pred: map<nat, nat>, free: set<nat>, stamp: map<nat, nat>)

  // ----- the tiling -----

  /** One block and its neighbours in the run. */
  ghost predicate PlaceOk(g: Blocks, b: nat)
    requires b in g.size
  {
    var n := g.size[b];
    && n >= MIN_BLOCK && b > 0
    && b in g.home && g.home[b].start <= b && b + n <= g.home[b].End()
    && (b + n < g.home[b].End() ==>
          b + n in g.size && b + n in g.home && g.home[b + n] == g.home[b] && b + n in g.pred && g.pred[b + n] == b)
    && (b > g.home[b].start ==>
          && b in g.pred && g.pred[b] in g.size && g.pred[b] in g.home
          && g.pred[b] + g.size[g.pred[b]] == b && g.home[g.pred[b]] == g.home[b])
  }

  /** Blocks tile their runs and do not overlap. */
  ghost predicate Tiled(g: Blocks) {
    && (forall b {:trigger PlaceOk(g, b)} :: b in g.size ==> PlaceOk(g, b))
    && (forall b, c {:trigger Apart(g, b, c)} :: b in g.size && c in g.size ==> Apart(g, b, c))
    && (forall b {:trigger IsBlock(g, b)} :: b in g.free ==> IsBlock(g, b))
  }

  ghost predicate Apart(g: Blocks, b: nat, c: nat)
    requires b in g.size
  {
    b < c ==> b + g.size[b] <= c
  }

  ghost predicate IsBlock(g: Blocks, b: nat) {
    b in g.size
  }

  /** Distinct blocks start at least a minimal block apart. */
  lemma Far(g: Blocks, b: nat, c: nat)
    requires Tiled(g) && b in g.size && c in g.size
    ensures b > 0 && g.size[b] >= MIN_BLOCK
    ensures b == c || b + MIN_BLOCK <= b + g.size[b] <= c || c + MIN_BLOCK <= c + g.size[c] <= b
  {
    assert PlaceOk(g, b) && PlaceOk(g, c);
    assert Apart(g, b, c) && Apart(g, c, b);
  }

  /** No two neighbours are both free, except possibly `x` and its neighbours. */
  ghost predicate Coalesced(g: Blocks, x: nat) {
    forall b {:trigger NextInUse(g, x, b)} :: b in g.free ==> NextInUse(g, x, b)
  }

  ghost predicate NextInUse(g: Blocks, x: nat, b: nat) {
    b in g.size && b in g.home && b + g.size[b] < g.home[b].End() && b != x && b + g.size[b] != x ==> b + g.size[b] !in g.free
  }

  lemma CoalescedLess(g: Blocks, x: nat, g': Blocks)
    requires Coalesced(g, x) && g'.size == g.size && g'.home == g.home && g'.free <= g.free
    ensures Coalesced(g', x)
  {
    forall b | b in g'.free ensures NextInUse(g', x, b) { assert NextInUse(g, x, b); }
  }

  lemma CoalescedExcept(g: Blocks, x: nat)
    requires Coalesced(g, 0) && 0 !in g.free && Tiled(g)
    ensures Coalesced(g, x)
  {
    forall b | b in g.free ensures NextInUse(g, x, b) { assert NextInUse(g, 0, b); }
  }

  // ----- the tags -----

  /** Header and footer; a block in use is on no chain. */
  ghost predicate TagOk(mem: Words, g: Blocks, b: nat)
    requires Total(mem) && b in g.size
  {
    && mem[b] == g.size[b] && g.size[b] > 0 && mem[b + g.size[b] - 1] == g.size[b]
    && (mem[b + 1] != 0 <==> b in g.free)
    && (b !in g.free ==> mem[b + 2] == 0 && mem[b + 3] == 0)
  }

  ghost predicate Tagged(mem: Words, g: Blocks) {
    Total(mem) && forall b {:trigger TagOk(mem, g, b)} :: b in g.size ==> TagOk(mem, g, b)
  }

  /** Word `a` is the next or prev word of a free block. */
  ghost predicate IsLink(g: Blocks, a: nat) {
    (a >= 2 && a - 2 in g.free) || (a >= 3 && a - 3 in g.free)
  }

  /** Only links were written. */
  ghost predicate LinksOnly(mem: Words, g: Blocks, mem': Words) {
    Total(mem) && Total(mem') && forall a: nat :: IsLink(g, a) || mem'[a] == mem[a]
  }

  lemma LinksAreNotTags(g: Blocks, b: nat)
    requires Tiled(g) && b in g.size
    ensures !IsLink(g, b) && !IsLink(g, b + 1) && g.size[b] > 0 && !IsLink(g, b + g.size[b] - 1)
    ensures b !in g.free ==> !IsLink(g, b + 2) && !IsLink(g, b + 3)
  {
    forall c | c in g.free
      ensures c + 2 != b && c + 3 != b && c + 2 != b + 1 && c + 3 != b + 1
      ensures c + 2 != b + g.size[b] - 1 && c + 3 != b + g.size[b] - 1
      ensures b != c ==> c + 2 != b + 2 && c + 3 != b + 2 && c + 2 != b + 3 && c + 3 != b + 3
    {
      assert IsBlock(g, c);
      Far(g, b, c);
    }
    assert PlaceOk(g, b);
  }

  lemma LinksOnlyTagged(mem: Words, g: Blocks, mem': Words)
    requires Tiled(g) && Tagged(mem, g) && LinksOnly(mem, g, mem')
    ensures Tagged(mem', g)
  {
    forall b | b in g.size ensures TagOk(mem', g, b) {
      assert TagOk(mem, g, b);
      LinksAreNotTags(g, b);
    }
  }

  // ----- the chains -----

  /** The neighbours of a free block on its chain; stamps fall from head to tail. */
  ghost predicate LinkOk(mem: Words, g: Blocks, b: nat)
    requires Total(mem)
  {
    var n, p := mem[b + 2], mem[b + 3];
    && b in g.stamp
    && (n != 0 ==> n in g.free && mem[n + 3] == b && n in g.stamp && g.stamp[n] < g.stamp[b])
    && (p != 0 ==> p in g.free && mem[p + 2] == b && p in g.stamp && g.stamp[b] < g.stamp[p])
  }

  /** The free blocks form disjoint doubly linked chains without cycles, and `head` is null or heads one of them. */
  ghost predicate Chained(mem: Words, g: Blocks, head: nat) {
    && Total(mem) && 0 !in g.free
    && (forall b {:trigger LinkOk(mem, g, b)} :: b in g.free ==> LinkOk(mem, g, b))
    && (head != 0 ==> head in g.free && mem[head + 3] == 0)
  }

  /** `b` is a chain of its own that `head` does not start. */
  ghost predicate Isolated(mem: Words, b: nat, head: nat)
    requires Total(mem)
  {
    mem[b + 2] == 0 && mem[b + 3] == 0 && head != b
  }

  /** Block `c` has the same next and prev words. */
  ghost predicate SameLinks(mem: Words, mem': Words, c: nat)
    requires Total(mem) && Total(mem')
  {
    mem'[c + 2] == mem[c + 2] && mem'[c + 3] == mem[c + 3]
  }

  /** Chains depend on nothing but the links of free blocks. */
  lemma SameChains(mem: Words, g: Blocks, head: nat, mem': Words)
    requires Chained(mem, g, head) && Total(mem')
    requires forall c {:trigger SameLinks(mem, mem', c)} :: c in g.free ==> SameLinks(mem, mem', c)
    ensures Chained(mem', g, head)
  {
    forall c | c in g.free ensures LinkOk(mem', g, c) {
      assert LinkOk(mem, g, c) && SameLinks(mem, mem', c);
      var n, p := mem[c + 2], mem[c + 3];
      assert n != 0 ==> SameLinks(mem, mem', n);
      assert p != 0 ==> SameLinks(mem, mem', p);
    }
    if head != 0 { assert SameLinks(mem, mem', head); }
  }

  /** free_list_insert, in terms of links: nothing but `b` and the old head changes. */
  lemma InsertChained(mem: Words, g: Blocks, head: nat, b: nat, t: nat, mem': Words, g': Blocks)
    requires Chained(mem, g, head) && Total(mem') && b in g.free && Isolated(mem, b, head)
    requires forall c :: c in g.stamp ==> g.stamp[c] < t
    requires g' == g.(stamp := g.stamp[b := t])
    requires mem'[b + 2] == head && mem'[b + 3] == 0 && (head != 0 ==> mem'[head + 3] == b && mem'[head + 2] == mem[head + 2])
    requires forall c {:trigger SameLinks(mem, mem', c)} :: c in g.free && c != head && c != b ==> SameLinks(mem, mem', c)
    ensures Chained(mem', g', b)
  {
    if head != 0 { assert LinkOk(mem, g, head); }
    forall c | c in g'.free ensures LinkOk(mem', g', c) {
      if c != b {
        assert LinkOk(mem, g, c);
        assert c != head ==> SameLinks(mem, mem', c);
        var n, p := mem[c + 2], mem[c + 3];
        assert n != 0 ==> LinkOk(mem, g, n) && (n != head && n != b ==> SameLinks(mem, mem', n));
        assert p != 0 ==> LinkOk(mem, g, p) && (p != head && p != b ==> SameLinks(mem, mem', p));
      }
    }
  }

  /** What `free_list` becomes when `b` is removed. */
  ghost function HeadAfter(mem: Words, head: nat, b: nat): nat
    requires Total(mem)
  {
    if mem[b + 3] != 0 then head else mem[b + 2]
  }

  /** What free_list_remove does to the links: the neighbours of `b` are joined, `b` is cut off. */
  ghost predicate Unlinked(mem: Words, g: Blocks, b: nat, mem': Words)
    requires Total(mem) && Total(mem')
  {
    var n, p := mem[b + 2], mem[b + 3];
    && mem'[b + 2] == 0 && mem'[b + 3] == 0
    && (p != 0 ==> mem'[p + 2] == n && mem'[p + 3] == mem[p + 3])
    && (n != 0 ==> mem'[n + 3] == p && mem'[n + 2] == mem[n + 2])
    && (forall c {:trigger SameLinks(mem, mem', c)} :: c in g.free && c != b && c != n && c != p ==> SameLinks(mem, mem', c))
  }

  lemma UnlinkedOne(mem: Words, g: Blocks, head: nat, b: nat, mem': Words, c: nat)
    requires Chained(mem, g, head) && Total(mem') && b in g.free && c in g.free && Unlinked(mem, g, b, mem')
    ensures LinkOk(mem', g, c)
  {
    assert LinkOk(mem, g, c);
    UnlinkedNext(mem, g, head, b, mem', c);
    UnlinkedPrev(mem, g, head, b, mem', c);
  }

  lemma UnlinkedNext(mem: Words, g: Blocks, head: nat, b: nat, mem': Words, c: nat)
    requires Chained(mem, g, head) && Total(mem') && b in g.free && c in g.free && Unlinked(mem, g, b, mem') && LinkOk(mem, g, c)
    ensures var n := mem'[c + 2]; n != 0 ==> n in g.free && mem'[n + 3] == c && n in g.stamp && g.stamp[n] < g.stamp[c]
  {
    var n, p := mem[b + 2], mem[b + 3];
    assert LinkOk(mem, g, b);
    assert n != 0 ==> LinkOk(mem, g, n);
    assert p != 0 ==> LinkOk(mem, g, p);
    assert c != b && c != n && c != p ==> SameLinks(mem, mem', c);
    var next := mem[c + 2];
    if next != 0 {
      assert LinkOk(mem, g, next);
      assert next != b && next != n && next != p ==> SameLinks(mem, mem', next);
    }
  }

  lemma UnlinkedPrev(mem: Words, g: Blocks, head: nat, b: nat, mem': Words, c: nat)
    requires Chained(mem, g, head) && Total(mem') && b in g.free && c in g.free && Unlinked(mem, g, b, mem') && LinkOk(mem, g, c)
    ensures var p := mem'[c + 3]; p != 0 ==> p in g.free && mem'[p + 2] == c && p in g.stamp && g.stamp[c] < g.stamp[p]
  {
    var n, p := mem[b + 2], mem[b + 3];
    assert LinkOk(mem, g, b);
    assert n != 0 ==> LinkOk(mem, g, n);
    assert p != 0 ==> LinkOk(mem, g, p);
    assert c != b && c != n && c != p ==> SameLinks(mem, mem', c);
    var prev := mem[c + 3];
    if prev != 0 {
      assert LinkOk(mem, g, prev);
      assert prev != b && prev != n && prev != p ==> SameLinks(mem, mem', prev);
    }
  }

  /** free_list_remove: `b` becomes a chain of its own. */
  lemma RemoveChained(mem: Words, g: Blocks, head: nat, b: nat, mem': Words, head': nat)
    requires Chained(mem, g, head) && Total(mem') && b in g.free && Unlinked(mem, g, b, mem')
    requires head' == if mem[b + 3] != 0 then head else mem[b + 2]
    ensures Chained(mem', g, head') && Isolated(mem', b, head')
  {
    forall c | c in g.free ensures LinkOk(mem', g, c) { UnlinkedOne(mem, g, head, b, mem', c); }
    UnlinkedHead(mem, g, head, b, mem', head');
  }

  lemma UnlinkedHead(mem: Words, g: Blocks, head: nat, b: nat, mem': Words, head': nat)
    requires Chained(mem, g, head) && Total(mem') && b in g.free && Unlinked(mem, g, b, mem')
    requires head' == if mem[b + 3] != 0 then head else mem[b + 2]
    ensures head' != b && (head' != 0 ==> head' in g.free && mem'[head' + 3] == 0)
  {
    assert LinkOk(mem, g, b);
    if head' != 0 {
      assert LinkOk(mem, g, head');
      assert head' != b && head' != mem[b + 2] && head' != mem[b + 3] ==> SameLinks(mem, mem', head');
    }
  }

  /** A block that is a chain of its own can leave the free set. */
  lemma DropChained(mem: Words, g: Blocks, head: nat, b: nat, g': Blocks)
    requires Chained(mem, g, head) && b in g.free && Isolated(mem, b, head)
    requires g'.free == g.free - {b} && g'.stamp == g.stamp
    ensures Chained(mem, g', head)
  {
    forall c | c in g'.free ensures LinkOk(mem, g', c) {
      assert LinkOk(mem, g, c);
      assert mem[c + 2] != b && mem[c + 3] != b;
    }
  }

  /** A block with null links joins the free set as a chain of its own. */
  lemma AddChained(mem: Words, g: Blocks, head: nat, b: nat, g': Blocks)
    requires Chained(mem, g, head) && b !in g.free && b != 0 && mem[b + 2] == 0 && mem[b + 3] == 0
    requires g'.free == g.free + {b} && g'.stamp == g.stamp[b := 0]
    ensures Chained(mem, g', head) && Isolated(mem, b, head)
  {
    forall c | c in g'.free ensures LinkOk(mem, g', c) {
      if c != b { assert LinkOk(mem, g, c); }
    }
  }

  // ----- payloads -----

  /** Word `w` belongs to the caller of the block `b`. */
  ghost predicate InPayload(g: Blocks, b: nat, w: nat) {
    b in g.size && b !in g.free && b + HEADER <= w < b + g.size[b] - 1
  }

  ghost predicate PayloadsKept(mem: Words, g: Blocks, mem': Words) {
    Total(mem) && Total(mem') && forall b, w: nat {:trigger InPayload(g, b, w)} :: InPayload(g, b, w) ==> mem'[w] == mem[w]
  }

  /** Payloads of different blocks do not overlap. */
  lemma PayloadsApart(g: Blocks, b: nat, c: nat, w: nat)
    requires Tiled(g) && InPayload(g, b, w) && InPayload(g, c, w)
    ensures b == c
  {
    Far(g, b, c);
  }

  lemma LinksOnlyPayloads(mem: Words, g: Blocks, mem': Words)
    requires Tiled(g) && LinksOnly(mem, g, mem')
    ensures PayloadsKept(mem, g, mem')
  {
    forall b, w: nat | InPayload(g, b, w) ensures mem'[w] == mem[w] {
      forall c | c in g.free ensures c + 2 != w && c + 3 != w {
        assert IsBlock(g, c);
        Far(g, b, c);
      }
    }
  }

  // ----- merging -----

  /** Block `b` absorbs the next block of its run. */
  ghost function Merged(g: Blocks, b: nat): Blocks
    requires b in g.size && b + g.size[b] in g.size
  {
    var n := b + g.size[b];
    var e := n + g.size[n];
    Blocks((g.size - {n})[b := g.size[b] + g.size[n]], g.home - {n}, g.pred[e := b] - {n}, g.free - {n}, g.stamp)
  }

  lemma MergeTiled(g: Blocks, b: nat)
    requires Tiled(g) && b in g.size && b in g.home && b + g.size[b] < g.home[b].End() && b + g.size[b] in g.size
    ensures Tiled(Merged(g, b)) && PlaceOk(g, b) && PlaceOk(g, b + g.size[b])
  {
    var g' := Merged(g, b);
    assert PlaceOk(g, b) && PlaceOk(g, b + g.size[b]);
    forall c | c in g'.size ensures PlaceOk(g', c) { MergePlace(g, b, c); }
    forall c | c in g'.free ensures IsBlock(g', c) { assert IsBlock(g, c); }
    forall c, d | c in g'.size && d in g'.size ensures Apart(g', c, d) { MergeApart(g, b, c, d); }
  }

  lemma MergePlace(g: Blocks, b: nat, c: nat)
    requires Tiled(g) && b in g.size && b in g.home && b + g.size[b] < g.home[b].End() && b + g.size[b] in g.size
    requires c in Merged(g, b).size
    ensures PlaceOk(Merged(g, b), c)
  {
    var n := b + g.size[b];
    var e := n + g.size[n];
    assert PlaceOk(g, b) && PlaceOk(g, n) && PlaceOk(g, c);
    Far(g, b, c);
    Far(g, n, c);
    if c == b {
    } else if c == e {
      if c > g.home[c].start { Far(g, g.pred[c], n); }
    } else {
      assert c + g.size[c] < g.home[c].End() ==> c + g.size[c] != n && c + g.size[c] != e;
      assert c > g.home[c].start ==> g.pred[c] != n && g.pred[c] != b;
    }
  }

  lemma MergeApart(g: Blocks, b: nat, c: nat, d: nat)
    requires Tiled(g) && b in g.size && b + g.size[b] in g.size
    requires c in Merged(g, b).size && d in Merged(g, b).size
    ensures Apart(Merged(g, b), c, d)
  {
    Far(g, c, d);
    Far(g, b + g.size[b], d);
  }

  /** The header of `b` and the footer of the merged block, and links, were written. */
  ghost predicate MergeWritten(mem: Words, g: Blocks, b: nat, mem': Words)
    requires b in g.size && b + g.size[b] in g.size
  {
    var m := g.size[b] + g.size[b + g.size[b]];
    && Total(mem) && Total(mem') && mem'[b] == m && m > 0 && mem'[b + m - 1] == m
    && forall a: nat :: IsLink(g, a) || a == b || a == b + m - 1 || mem'[a] == mem[a]
  }

  lemma MergeTagged(mem: Words, g: Blocks, b: nat, mem': Words)
    requires Tiled(g) && Tagged(mem, g)
    requires b in g.size && b in g.home && b + g.size[b] < g.home[b].End() && b + g.size[b] in g.size
    requires b in g.free && b + g.size[b] in g.free && MergeWritten(mem, g, b, mem')
    ensures Tagged(mem', Merged(g, b))
  {
    forall c | c in Merged(g, b).size ensures TagOk(mem', Merged(g, b), c) { MergeTag(mem, g, b, mem', c); }
  }

  lemma MergeTag(mem: Words, g: Blocks, b: nat, mem': Words, c: nat)
    requires Tiled(g) && Tagged(mem, g)
    requires b in g.size && b + g.size[b] in g.size && c in Merged(g, b).size
    requires b in g.free && b + g.size[b] in g.free && MergeWritten(mem, g, b, mem')
    ensures TagOk(mem', Merged(g, b), c)
  {
    assert TagOk(mem, g, c) && TagOk(mem, g, b);
    LinksAreNotTags(g, c);
    Far(g, b, c);
    Far(g, b + g.size[b], c);
  }

  lemma MergePayloads(mem: Words, g: Blocks, b: nat, mem': Words)
    requires Tiled(g) && b in g.size && b + g.size[b] in g.size
    requires b in g.free && b + g.size[b] in g.free && MergeWritten(mem, g, b, mem')
    ensures PayloadsKept(mem, g, mem')
  {
    forall c, w: nat | InPayload(g, c, w) ensures mem'[w] == mem[w] {
      Far(g, b, c);
      Far(g, b + g.size[b], c);
      forall d | d in g.free ensures d + 2 != w && d + 3 != w {
        assert IsBlock(g, d);
        Far(g, c, d);
      }
    }
  }

  lemma MergeCoalesced(g: Blocks, b: nat)
    requires Tiled(g) && b in g.size && b in g.home && b + g.size[b] < g.home[b].End() && b + g.size[b] in g.size
    requires Coalesced(g, b)
    ensures Coalesced(Merged(g, b), b)
  {
    var n, g' := b + g.size[b], Merged(g, b);
    forall c | c in g'.free ensures NextInUse(g', b, c) {
      assert NextInUse(g, b, c) && IsBlock(g, c);
    }
  }

  /** With its neighbours in use, the exception is no longer needed. */
  lemma CoalescedAgain(g: Blocks, b: nat)
    requires Tiled(g) && b in g.size && Coalesced(g, b) && PlaceOk(g, b)
    requires b + g.size[b] < g.home[b].End() ==> b + g.size[b] !in g.free
    requires b > g.home[b].start ==> g.pred[b] !in g.free
    ensures Coalesced(g, 0)
  {
    forall c | c in g.free ensures NextInUse(g, 0, c) {
      assert NextInUse(g, b, c) && IsBlock(g, c);
      assert PlaceOk(g, c);
    }
  }

  // ----- splitting -----

  /** The first `k` words stay block `b`; the rest is a new free block. */
  ghost function Splitted(g: Blocks, b: nat, k: nat): Blocks
    requires b in g.size && k < g.size[b] && b in g.home
  {
    var n := g.size[b];
    Blocks(g.size[b := k][b + k := n - k], g.home[b + k := g.home[b]], g.pred[b + n := b + k][b + k := b],
           g.free + {b + k}, g.stamp[b + k := 0])
  }

  lemma SplitTiled(g: Blocks, b: nat, k: nat)
    requires Tiled(g) && b in g.size && b in g.home && MIN_BLOCK <= k && k + MIN_BLOCK <= g.size[b]
    ensures b + k !in g.size && Tiled(Splitted(g, b, k))
  {
    var g' := Splitted(g, b, k);
    assert PlaceOk(g, b);
    if b + k in g.size { Far(g, b, b + k); }
    forall c | c in g'.size ensures PlaceOk(g', c) { SplitPlace(g, b, k, c); }
    forall c | c in g'.free ensures IsBlock(g', c) { assert c in g.free ==> IsBlock(g, c); }
    forall c, d | c in g'.size && d in g'.size ensures Apart(g', c, d) { SplitApart(g, b, k, c, d); }
  }

  lemma SplitPlace(g: Blocks, b: nat, k: nat, c: nat)
    requires Tiled(g) && b in g.size && b in g.home && MIN_BLOCK <= k && k + MIN_BLOCK <= g.size[b]
    requires b + k !in g.size && c in Splitted(g, b, k).size
    ensures PlaceOk(Splitted(g, b, k), c)
  {
    assert PlaceOk(g, b);
    if c != b + k {
      assert PlaceOk(g, c);
      Far(g, b, c);
      if c == b + g.size[b] {
        if c > g.home[c].start { Far(g, g.pred[c], b); }
      } else if c != b {
        assert c + g.size[c] < g.home[c].End() ==> c + g.size[c] != b + k && c + g.size[c] != b + g.size[b];
        assert c > g.home[c].start ==> g.pred[c] != b;
      }
    }
  }

  lemma SplitApart(g: Blocks, b: nat, k: nat, c: nat, d: nat)
    requires Tiled(g) && b in g.size && b in g.home && MIN_BLOCK <= k && k + MIN_BLOCK <= g.size[b]
    requires c in Splitted(g, b, k).size && d in Splitted(g, b, k).size
    ensures Apart(Splitted(g, b, k), c, d)
  {
    if c != b + k && d != b + k { Far(g, c, d); }
    else if c != b + k { Far(g, c, b); }
    else if d != b + k { Far(g, d, b); }
  }

  ghost predicate SplitWritten(mem: Words, g: Blocks, b: nat, k: nat, mem': Words)
    requires b in g.size && 0 < k <= g.size[b]
  {
    var n := g.size[b];
    && Total(mem) && Total(mem')
    && mem'[b] == k && mem'[b + k - 1] == k && mem'[b + k] == n - k && mem'[b + n - 1] == n - k
    && mem'[b + k + 1] != 0 && mem'[b + k + 2] == 0 && mem'[b + k + 3] == 0
    && forall a: nat :: a == b || a == b + k - 1 || b + k <= a < b + k + 4 || a == b + n - 1 || mem'[a] == mem[a]
  }

  lemma SplitTagged(mem: Words, g: Blocks, b: nat, k: nat, mem': Words)
    requires Tiled(g) && Tagged(mem, g) && b in g.size && b in g.home && b in g.free
    requires MIN_BLOCK <= k && k + MIN_BLOCK <= g.size[b] && SplitWritten(mem, g, b, k, mem')
    ensures Tagged(mem', Splitted(g, b, k))
  {
    var g' := Splitted(g, b, k);
    forall c | c in g'.size ensures TagOk(mem', g', c) {
      if c != b + k {
        assert TagOk(mem, g, c) && PlaceOk(g, c);
        Far(g, b, c);
      }
    }
  }

  lemma SplitOthers(mem: Words, g: Blocks, b: nat, k: nat, mem': Words)
    requires Tiled(g) && b in g.size && b in g.free
    requires MIN_BLOCK <= k && k + MIN_BLOCK <= g.size[b] && SplitWritten(mem, g, b, k, mem')
    ensures PayloadsKept(mem, g, mem')
    ensures forall c {:trigger SameLinks(mem, mem', c)} :: c in g.size ==> SameLinks(mem, mem', c)
  {
    forall c, w: nat | InPayload(g, c, w) ensures mem'[w] == mem[w] { Far(g, b, c); }
    forall c | c in g.size ensures SameLinks(mem, mem', c) { Far(g, b, c); }
  }

  lemma SplitCoalesced(g: Blocks, b: nat, k: nat)
    requires Tiled(g) && b in g.size && b in g.free && Coalesced(g, 0) && b in g.home && MIN_BLOCK <= k && k + MIN_BLOCK <= g.size[b]
    ensures Coalesced(Splitted(g, b, k), b)
  {
    var g', n := Splitted(g, b, k), g.size[b];
    assert PlaceOk(g, b);
    forall c | c in g'.free ensures NextInUse(g', b, c) {
      assert NextInUse(g, 0, b);
      if c != b + k {
        assert NextInUse(g, 0, c) && IsBlock(g, c);
        assert PlaceOk(g, c);
        Far(g, b, c);
      }
    }
  }

  // ----- runs -----

  /** A new run is one free block. */
  ghost function WithRun(g: Blocks, r: Run): Blocks {
    Blocks(g.size[r.start := r.size], g.home[r.start := r], g.pred, g.free + {r.start}, g.stamp[r.start := 0])
  }

  ghost predicate Clear(g: Blocks, r: Run) {
    forall c :: c in g.size ==> c + g.size[c] <= r.start || r.End() <= c
  }

  lemma NewRunTiled(g: Blocks, r: Run)
    requires Tiled(g) && r.start > 0 && r.size >= MIN_BLOCK && Clear(g, r)
    ensures r.start !in g.size && Tiled(WithRun(g, r))
  {
    var g' := WithRun(g, r);
    assert r.start in g.size ==> PlaceOk(g, r.start);
    forall c | c in g'.size ensures PlaceOk(g', c) {
      if c != r.start { assert PlaceOk(g, c); }
    }
    forall c, d | c in g'.size && d in g'.size ensures Apart(g', c, d) {
      assert c in g.size && d in g.size ==> Apart(g, c, d);
    }
    forall c | c in g'.free ensures IsBlock(g', c) { assert c in g.free ==> IsBlock(g, c); }
  }

  /** A free block that fills its run leaves with it. */
  ghost function WithoutRun(g: Blocks, b: nat): Blocks {
    Blocks(g.size - {b}, g.home - {b}, g.pred, g.free - {b}, g.stamp)
  }

  lemma DropRunTiled(g: Blocks, b: nat)
    requires Tiled(g) && b in g.size && b in g.home && g.home[b] == Run(b, g.size[b])
    ensures Tiled(WithoutRun(g, b))
  {
    var g' := WithoutRun(g, b);
    assert PlaceOk(g, b);
    forall c | c in g'.size ensures PlaceOk(g', c) { assert PlaceOk(g, c); }
    forall c, d | c in g'.size && d in g'.size ensures Apart(g', c, d) { assert Apart(g, c, d); }
    forall c | c in g'.free ensures IsBlock(g', c) { assert IsBlock(g, c); }
  }

  /** The header, null links and footer of a new run were written, inside it. */
  ghost predicate RunWritten(mem: Words, r: Run, mem': Words) {
    && Total(mem) && Total(mem') && r.size > 0
    && mem'[r.start] == r.size && mem'[r.start + 1] != 0 && mem'[r.start + 2] == 0 && mem'[r.start + 3] == 0
    && mem'[r.start + r.size - 1] == r.size
    && forall a: nat :: r.Contains(a) || mem'[a] == mem[a]
  }

  lemma NewRunTagged(mem: Words, g: Blocks, r: Run, mem': Words)
    requires Tiled(g) && Tagged(mem, g) && r.size >= MIN_BLOCK && Clear(g, r) && RunWritten(mem, r, mem')
    ensures Tagged(mem', WithRun(g, r)) && PayloadsKept(mem, g, mem')
    ensures forall c {:trigger SameLinks(mem, mem', c)} :: c in g.size ==> SameLinks(mem, mem', c)
  {
    var g' := WithRun(g, r);
    forall c | c in g'.size ensures TagOk(mem', g', c) {
      if c != r.start { assert TagOk(mem, g, c) && PlaceOk(g, c); }
    }
    forall c | c in g.size ensures SameLinks(mem, mem', c) { assert PlaceOk(g, c); }
    forall b, w: nat | InPayload(g, b, w) ensures mem'[w] == mem[w] { assert PlaceOk(g, b); }
  }

  lemma NewRunCoalesced(g: Blocks, r: Run)
    requires Tiled(g) && Coalesced(g, 0) && r.size >= MIN_BLOCK && Clear(g, r) && r.start > 0
    ensures Coalesced(WithRun(g, r), 0)
  {
    var g' := WithRun(g, r);
    forall c | c in g'.free ensures NextInUse(g', 0, c) {
      if c != r.start {
        assert NextInUse(g, 0, c) && IsBlock(g, c);
        assert PlaceOk(g, c);
        assert c + g.size[c] in g.size ==> PlaceOk(g, c + g.size[c]);
      }
    }
  }

  // ----- use and release -----

  /** Block `b` is taken off the free set (`inUse`) or put back. */
  ghost function Flagged(g: Blocks, b: nat, inUse: bool): Blocks {
    if inUse then g.(free := g.free - {b}) else g.(free := g.free + {b}, stamp := g.stamp[b := 0])
  }

  lemma FlaggedTiled(g: Blocks, b: nat, inUse: bool)
    requires Tiled(g) && b in g.size
    ensures Tiled(Flagged(g, b, inUse))
  {
    var g' := Flagged(g, b, inUse);
    forall c | c in g'.size ensures PlaceOk(g', c) { assert PlaceOk(g, c); }
    forall c, d | c in g'.size && d in g'.size ensures Apart(g', c, d) { assert Apart(g, c, d); }
    forall c | c in g'.free ensures IsBlock(g', c) { assert c in g.free ==> IsBlock(g, c); }
  }

  lemma FlaggedTagged(mem: Words, g: Blocks, b: nat, inUse: bool, mem': Words)
    requires Tiled(g) && Tagged(mem, g) && b in g.size && Total(mem')
    requires mem' == mem[b + 1 := if inUse then 0 else 1] && mem[b + 2] == 0 && mem[b + 3] == 0
    ensures Tagged(mem', Flagged(g, b, inUse)) && PayloadsKept(mem, g, mem')
    ensures forall c {:trigger SameLinks(mem, mem', c)} :: c in g.size ==> SameLinks(mem, mem', c)
  {
    var g' := Flagged(g, b, inUse);
    forall c | c in g'.size ensures TagOk(mem', g', c) {
      assert TagOk(mem, g, c);
      Far(g, b, c);
    }
    forall c | c in g.size ensures SameLinks(mem, mem', c) { Far(g, b, c); }
    forall c, w: nat | InPayload(g, c, w) ensures mem'[w] == mem[w] { Far(g, b, c); }
  }

  lemma FreedCoalesced(g: Blocks, b: nat)
    requires Coalesced(g, 0) && Tiled(g) && b in g.size
    ensures Coalesced(Flagged(g, b, false), b)
  {
    forall c | c in Flagged(g, b, false).free ensures NextInUse(Flagged(g, b, false), b, c) {
      if c != b { assert NextInUse(g, 0, c) && IsBlock(g, c); assert PlaceOk(g, c); }
    }
  }

  /** A block in use needs no exception. */
  lemma InUseCoalesced(g: Blocks, b: nat)
    requires Coalesced(g, b) && b !in g.free
    ensures Coalesced(g, 0)
  {
    forall c | c in g.free ensures NextInUse(g, 0, c) { assert NextInUse(g, b, c); }
  }

  /** The first block on the chain from `b` that is large enough, or 0. */
  ghost function FirstFit(mem: Words, g: Blocks, head: nat, b: nat, total: nat): nat
    requires Chained(mem, g, head) && (b != 0 ==> b in g.free && LinkOk(mem, g, b))
    decreases if b == 0 then 0 else g.stamp[b] + 1
  {
    if b == 0 then 0
    else if mem[b] >= total then b
    else
      assert mem[b + 2] != 0 ==> LinkOk(mem, g, mem[b + 2]);
      FirstFit(mem, g, head, mem[b + 2], total)
  }

  /** Block `c` has the same size word and the same successor on its chain. */
  ghost predicate SameNext(mem: Words, mem': Words, c: nat)
    requires Total(mem) && Total(mem')
  {
    mem'[c] == mem[c] && mem'[c + 2] == mem[c + 2]
  }

  /** A block of `words` words was put in front of the chain that `head` starts. */
  ghost predicate Pushed(mem: Words, g: Blocks, head: nat, mem': Words, g': Blocks, head': nat, words: nat) {
    && Total(mem) && Total(mem') && head' != 0 && mem'[head'] == words && mem'[head' + 2] == head && g'.free == g.free + {head'}
    && forall c {:trigger SameNext(mem, mem', c)} :: c in g.free ==> SameNext(mem, mem', c)
  }

  // ----- what freeing does to the blocks -----

  /** The block after `b` is free. */
  ghost predicate HasNext(g: Blocks, b: nat) {
    b in g.size && b in g.home && b + g.size[b] < g.home[b].End() && b + g.size[b] in g.free
  }

  /** The block before `b` is free. */
  ghost predicate HasPrev(g: Blocks, b: nat) {
    b in g.home && b > g.home[b].start && b in g.pred && g.pred[b] in g.free
  }

  ghost function Forward(g: Blocks, b: nat): Blocks {
    if HasNext(g, b) && b + g.size[b] in g.size then Merged(g, b) else g
  }

  ghost function Backward(g: Blocks, b: nat): Blocks {
    if HasPrev(g, b) && g.pred[b] in g.size && g.pred[b] + g.size[g.pred[b]] in g.size then Merged(g, g.pred[b]) else g
  }

  /** The block that `b` is part of once it is freed. */
  ghost function Result(g: Blocks, b: nat): nat {
    if HasPrev(g, b) then g.pred[b] else b
  }

  /** The blocks once `b` is freed and merged both ways, leaving stamps aside. */
  ghost function Freed(g: Blocks, b: nat): Blocks {
    Backward(Forward(Flagged(g, b, false), b), b)
  }

  ghost predicate SameBlocks(g: Blocks, g': Blocks) {
    g' == g.(stamp := g'.stamp)
  }

  lemma SameNeighbour(g: Blocks, g': Blocks, b: nat)
    requires SameBlocks(g, g')
    ensures g'.free == g.free && g'.size == g.size && HasNext(g', b) == HasNext(g, b)
  {
  }

  lemma SameMerged(g: Blocks, g': Blocks, b: nat)
    requires SameBlocks(g, g') && b in g.size && b + g.size[b] in g.size
    ensures SameBlocks(Merged(g, b), Merged(g', b))
  {
  }

  lemma SameMerges(g: Blocks, g': Blocks, b: nat)
    requires SameBlocks(g, g')
    ensures SameBlocks(Forward(g, b), Forward(g', b)) && SameBlocks(Backward(g, b), Backward(g', b)) && Result(g', b) == Result(g, b)
  {
    if HasNext(g, b) && b + g.size[b] in g.size { SameMerged(g, g', b); }
    if HasPrev(g, b) && g.pred[b] in g.size && g.pred[b] + g.size[g.pred[b]] in g.size { SameMerged(g, g', g.pred[b]); }
  }

  /** With `b` put in front of the list, absorbing the next block moves the head as HeadThen says. */
  lemma EnlistedHead(m: Words, g: Blocks, head: nat, b: nat, m1: Words, g1: Blocks)
    requires Total(m) && Total(m1) && SameBlocks(g, g1) && b in g.size && b in g.home && b > 0 && g.size[b] > 0
    requires head != 0 ==> m1[head + 3] == b
    requires HasNext(g, b) && b + g.size[b] != head ==> SameLinks(m, m1, b + g.size[b])
    requires HasNext(g, b) && b + g.size[b] == head ==> head != 0
    ensures HasNext(g1, b) == HasNext(g, b)
    ensures (if HasNext(g1, b) then HeadAfter(m1, b, b + g1.size[b]) else b) == HeadThen(m, g, head, b)
  {
  }

  /** Absorbing the next block does not change what comes before. */
  lemma ResultForward(g: Blocks, b: nat)
    requires Tiled(g) && b in g.size && b in g.home
    ensures HasPrev(Forward(g, b), b) == HasPrev(g, b) && Result(Forward(g, b), b) == Result(g, b)
  {
    if HasNext(g, b) {
      assert PlaceOk(g, b) && IsBlock(g, b + g.size[b]) && PlaceOk(g, b + g.size[b]);
      if b in g.pred && g.pred[b] in g.free && b > g.home[b].start { Far(g, g.pred[b], b); }
    }
  }

  /** Block `b`, when it is put in front of the list, stays there: the block after it is not free, or heads the list,
      or has a predecessor on its chain. */
  ghost predicate StaysInFront(mem: Words, g: Blocks, head: nat, b: nat)
    requires Total(mem)
  {
    HasNext(g, b) ==> b + g.size[b] == head || mem[b + g.size[b] + 3] != 0
  }

  /** Where the list starts once `b` is in front of it and has absorbed the block after it. */
  ghost function HeadThen(mem: Words, g: Blocks, head: nat, b: nat): nat
    requires Total(mem)
  {
    if StaysInFront(mem, g, head, b) then b else mem[b + g.size[b] + 2]
  }

  ghost predicate FillsRun(g: Blocks, b: nat) {
    b in g.size && b in g.home && g.home[b] == Run(b, g.size[b])
  }

  /** First fit looks at nothing but sizes and successors. */
  lemma {:induction false} FitKept(mem: Words, g: Blocks, head: nat, mem': Words, g': Blocks, head': nat, a: nat, total: nat)
    requires Chained(mem, g, head) && Chained(mem', g', head') && g.free <= g'.free
    requires forall c {:trigger SameNext(mem, mem', c)} :: c in g.free ==> SameNext(mem, mem', c)
    requires a != 0 ==> a in g.free && LinkOk(mem, g, a) && LinkOk(mem', g', a)
    ensures FirstFit(mem', g', head', a, total) == FirstFit(mem, g, head, a, total)
    decreases if a == 0 then 0 else g.stamp[a] + 1
  {
    if a != 0 {
      assert SameNext(mem, mem', a);
      var n := mem[a + 2];
      assert n != 0 ==> LinkOk(mem, g, n) && LinkOk(mem', g', n);
      FitKept(mem, g, head, mem', g', head', n, total);
    }
  }

  /** A block put in front is found exactly when it is large enough; otherwise the search is what it was. */
  lemma PushedFit(mem: Words, g: Blocks, head: nat, mem': Words, g': Blocks, head': nat, words: nat, total: nat)
    requires Chained(mem, g, head) && Chained(mem', g', head') && Pushed(mem, g, head, mem', g', head', words)
    requires head != 0 ==> LinkOk(mem, g, head)
    requires LinkOk(mem', g', head')
    ensures FirstFit(mem', g', head', head', total) == if words >= total then head' else FirstFit(mem, g, head, head, total)
  {
    assert head != 0 ==> LinkOk(mem', g', head);
    FitKept(mem, g, head, mem', g', head', head, total);
  }

  lemma MergeBackCoalesced(g: Blocks, p: nat)
    requires Tiled(g) && p in g.size && p in g.home && p + g.size[p] < g.home[p].End() && p + g.size[p] in g.size
    requires Coalesced(g, p + g.size[p])
    ensures Coalesced(Merged(g, p), p)
  {
    var b, g' := p + g.size[p], Merged(g, p);
    forall c | c in g'.free ensures NextInUse(g', p, c) {
      assert NextInUse(g, b, c) && IsBlock(g, c);
      Far(g, c, p);
    }
  }

  // ----- headers of freed blocks -----

  /** Address `a` is, or once was, the start of a block that is now inside the free block `x`. */
  ghost predicate Within(g: Blocks, a: nat, x: nat) {
    x in g.free && x in g.size && (a == x || (x + MIN_BLOCK <= a && a + MIN_BLOCK <= x + g.size[x]))
  }

  /** The free flag at `a` still reads true. */
  ghost predicate Grave(mem: Words, g: Blocks, a: nat) {
    a + 1 in mem && mem[a + 1] != 0 && exists x :: Within(g, a, x)
  }

  lemma LinksOnlyGrave(mem: Words, g: Blocks, mem': Words, a: nat)
    requires Tiled(g) && LinksOnly(mem, g, mem') && Grave(mem, g, a)
    ensures Grave(mem', g, a)
  {
    var x :| Within(g, a, x);
    forall c | c in g.free ensures c + 2 != a + 1 && c + 3 != a + 1 {
      assert IsBlock(g, c);
      Far(g, c, x);
    }
  }

  lemma MergeGrave(mem: Words, g: Blocks, b: nat, mem': Words, a: nat)
    requires Tiled(g) && b in g.size && b + g.size[b] in g.size && b in g.free && b + g.size[b] in g.free
    requires MergeWritten(mem, g, b, mem') && Grave(mem, g, a)
    ensures Grave(mem', Merged(g, b), a)
  {
    var x :| Within(g, a, x);
    var n := b + g.size[b];
    Far(g, x, b);
    Far(g, x, n);
    Far(g, b, n);
    forall c | c in g.free ensures c + 2 != a + 1 && c + 3 != a + 1 {
      assert IsBlock(g, c);
      Far(g, c, x);
    }
    assert Within(Merged(g, b), a, if x == n then b else x);
  }

  lemma FreshGrave(mem: Words, g: Blocks, b: nat, a: nat)
    requires Tiled(g) && Total(mem) && b in g.size && b !in g.free && Grave(mem, g, a)
    ensures Grave(mem[b + 1 := 1], Flagged(g, b, false), a)
  {
    var x :| Within(g, a, x);
    Far(g, x, b);
    assert Within(Flagged(g, b, false), a, x);
  }

  /** A store into a payload touches no tag, no link and no other payload. */
  lemma PokeKeeps(mem: Words, g: Blocks, head: nat, b: nat, w: nat, v: nat)
    requires Tiled(g) && Tagged(mem, g) && Chained(mem, g, head) && InPayload(g, b, w)
    ensures Tagged(mem[w := v], g) && Chained(mem[w := v], g, head)
    ensures forall c, u: nat {:trigger InPayload(g, c, u)} :: InPayload(g, c, u) && u != w ==> mem[w := v][u] == mem[u]
  {
    var mem' := mem[w := v];
    forall c | c in g.size ensures TagOk(mem', g, c) {
      assert TagOk(mem, g, c);
      Far(g, b, c);
    }
    forall c | c in g.free ensures SameLinks(mem, mem', c) {
      assert IsBlock(g, c);
      Far(g, b, c);
    }
    SameChains(mem, g, head, mem');
  }

  /** A block that is a chain of its own is not found by first fit, whatever the size asked for. */
  lemma {:induction false} NeverFound(mem: Words, g: Blocks, head: nat, a: nat, b: nat, total: nat)
    requires Chained(mem, g, head) && Isolated(mem, b, head) && b != 0 && a != b
    requires a != 0 ==> a in g.free && LinkOk(mem, g, a)
    ensures FirstFit(mem, g, head, a, total) != b
    decreases if a == 0 then 0 else g.stamp[a] + 1
  {
    if a != 0 && mem[a] < total {
      assert mem[a + 2] != 0 ==> LinkOk(mem, g, mem[a + 2]);
      NeverFound(mem, g, head, mem[a + 2], b, total);
    }
  }
}
