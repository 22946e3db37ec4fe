/** The lists that the next words of free blocks form (kernel/mm/kmalloc.c), as sequences. */
module HeapLists {
  import opened HeapBlocks

  ghost predicate OnChain(mem: Words, g: Blocks, a: nat)
    requires Total(mem)
  {
    a == 0 || (a in g.free && LinkOk(mem, g, a))
  }

  /** The blocks from `a` on, in order. */
  ghost function Chain(mem: Words, g: Blocks, head: nat, a: nat): seq<nat>
    requires Chained(mem, g, head) && OnChain(mem, g, a)
    decreases if a == 0 then 0 else g.stamp[a] + 1
  {
    if a == 0 then []
    else
      assert mem[a + 2] != 0 ==> LinkOk(mem, g, mem[a + 2]);
      [a] + Chain(mem, g, head, mem[a + 2])
  }

  /** The blocks that a search of kmalloc goes through. */
  ghost function ListOf(mem: Words, g: Blocks, head: nat): seq<nat>
    requires Chained(mem, g, head)
  {
    assert head != 0 ==> LinkOk(mem, g, head);
    Chain(mem, g, head, head)
  }

  /** `s` without the first `x` in it. */
  ghost function Without(s: seq<nat>, x: nat): seq<nat> {
    if s == [] then [] else if s[0] == x then s[1..] else [s[0]] + Without(s[1..], x)
  }

  lemma {:induction false} WithoutAbsent(s: seq<nat>, x: nat)
    requires x !in s
    ensures Without(s, x) == s
  {
    if s != [] { WithoutAbsent(s[1..], x); }
  }

  ghost predicate Distinct(s: seq<nat>) {
    forall i, j :: 0 <= i < j < |s| ==> s[i] != s[j]
  }

  lemma {:induction false} WithoutIn(s: seq<nat>, x: nat, c: nat)
    requires Distinct(s)
    ensures c in Without(s, x) <==> c in s && c != x
  {
    if s != [] {
      assert s == [s[0]] + s[1..];
      WithoutIn(s[1..], x, c);
    }
  }

  lemma {:induction false} WithoutDistinct(s: seq<nat>, x: nat)
    requires Distinct(s)
    ensures Distinct(Without(s, x))
  {
    if s != [] && s[0] != x {
      WithoutDistinct(s[1..], x);
      WithoutIn(s[1..], x, s[0]);
    }
  }

  // ----- one chain -----

  /** Stamps fall along a chain, so it has no block twice. */
  lemma {:induction false} ChainStamps(mem: Words, g: Blocks, head: nat, a: nat)
    requires Chained(mem, g, head) && OnChain(mem, g, a)
    ensures forall c :: c in Chain(mem, g, head, a) ==> c in g.free && c in g.stamp && a != 0 && g.stamp[c] <= g.stamp[a]
    ensures Distinct(Chain(mem, g, head, a))
    decreases if a == 0 then 0 else g.stamp[a] + 1
  {
    if a != 0 {
      var n := mem[a + 2];
      assert n != 0 ==> LinkOk(mem, g, n);
      ChainStamps(mem, g, head, n);
    }
  }

  /** A block does not come after itself. */
  lemma AfterSelf(mem: Words, g: Blocks, head: nat, a: nat)
    requires Chained(mem, g, head) && a in g.free
    ensures LinkOk(mem, g, a) && OnChain(mem, g, mem[a + 2]) && a !in Chain(mem, g, head, mem[a + 2])
  {
    assert LinkOk(mem, g, a);
    assert mem[a + 2] != 0 ==> LinkOk(mem, g, mem[a + 2]);
    ChainStamps(mem, g, head, mem[a + 2]);
  }

  /** Of the blocks of a chain only the first can be without predecessor, and each other one comes after its predecessor. */
  lemma {:induction false} ChainPrev(mem: Words, g: Blocks, head: nat, a: nat, k: nat)
    requires Chained(mem, g, head) && OnChain(mem, g, a) && k < |Chain(mem, g, head, a)|
    ensures var s := Chain(mem, g, head, a); if k == 0 then s[k] == a else s[k - 1] != 0 && mem[s[k] + 3] == s[k - 1]
    decreases k
  {
    var n := mem[a + 2];
    assert n != 0 ==> LinkOk(mem, g, n);
    assert Chain(mem, g, head, a) == [a] + Chain(mem, g, head, n);
    if k > 0 {
      ChainPrev(mem, g, head, n, k - 1);
      assert k == 1 ==> n != 0;
    }
  }

  /** Chains with different first blocks have no block in common. */
  lemma {:induction false} ChainsApart(mem: Words, g: Blocks, head: nat, a: nat, b: nat, k: nat)
    requires Chained(mem, g, head) && OnChain(mem, g, a) && OnChain(mem, g, b) && a != b
    requires a != 0 ==> mem[a + 3] == 0
    requires b != 0 ==> mem[b + 3] == 0
    requires k < |Chain(mem, g, head, a)|
    ensures Chain(mem, g, head, a)[k] !in Chain(mem, g, head, b)
    decreases k
  {
    var s, t := Chain(mem, g, head, a), Chain(mem, g, head, b);
    if s[k] in t {
      var j :| 0 <= j < |t| && t[j] == s[k];
      ChainPrev(mem, g, head, a, k);
      ChainPrev(mem, g, head, b, j);
      assert k > 0 && j > 0 && s[k - 1] == t[j - 1];
      ChainsApart(mem, g, head, a, b, k - 1);
    }
  }

  // ----- what the list operations do to a chain -----

  ghost predicate NextSame(mem: Words, mem': Words, c: nat)
    requires Total(mem) && Total(mem')
  {
    mem'[c + 2] == mem[c + 2]
  }

  /** In the second state the chain from `a` is that of the first without `x`. */
  ghost predicate ChainLess(m: Words, g: Blocks, head: nat, m': Words, g': Blocks, head': nat, x: nat, a: nat) {
    && Chained(m, g, head) && Chained(m', g', head') && OnChain(m, g, a) && OnChain(m', g', a)
    && Chain(m', g', head', a) == Without(Chain(m, g, head, a), x)
  }

  /** This holds of every free block but `x`; if `x` is 0 the chains are the same. */
  ghost predicate AllLess(m: Words, g: Blocks, head: nat, m': Words, g': Blocks, head': nat, x: nat) {
    forall a {:trigger ChainLess(m, g, head, m', g', head', x, a)} :: a in g.free && a != x ==> ChainLess(m, g, head, m', g', head', x, a)
  }

  /** Other links, the same next words. */
  lemma {:induction false} SameChain(m: Words, g: Blocks, head: nat, m': Words, g': Blocks, head': nat, x: nat, a: nat)
    requires Chained(m, g, head) && Chained(m', g', head') && OnChain(m, g, a) && OnChain(m', g', a)
    requires x != 0 ==> x != a && m[x + 3] == 0
    requires forall c {:trigger NextSame(m, m', c)} :: c in g.free && c != x ==> NextSame(m, m', c)
    ensures Chain(m', g', head', a) == Chain(m, g, head, a)
    decreases if a == 0 then 0 else g.stamp[a] + 1
  {
    if a != 0 {
      assert NextSame(m, m', a);
      var n := m[a + 2];
      assert n != 0 ==> LinkOk(m, g, n) && LinkOk(m', g', n);
      SameChain(m, g, head, m', g', head', x, n);
    }
  }

  ghost predicate Inserted(m: Words, g: Blocks, head: nat, m': Words, g': Blocks, b: nat) {
    && Chained(m, g, head) && Chained(m', g', b) && ListOf(m', g', b) == [b] + ListOf(m, g, head)
    && AllLess(m, g, head, m', g', b, b)
  }

  /** free_list_insert: the block in front of the list, and no other chain changed. */
  lemma InsertedChain(m: Words, g: Blocks, head: nat, b: nat, m': Words, g': Blocks)
    requires Chained(m, g, head) && Chained(m', g', b) && b in g.free && Isolated(m, b, head) && g'.free == g.free
    requires m'[b + 2] == head && forall c {:trigger NextSame(m, m', c)} :: c in g.free && c != b ==> NextSame(m, m', c)
    ensures Inserted(m, g, head, m', g', b)
  {
    assert LinkOk(m', g', b) && LinkOk(m, g, b);
    forall a | a in g.free && a != b ensures Chain(m', g', b, a) == Chain(m, g, head, a) && ChainLess(m, g, head, m', g', b, b, a) {
      assert LinkOk(m, g, a) && LinkOk(m', g', a);
      SameChain(m, g, head, m', g', b, b, a);
      NeverInside(m, g, head, a, b);
      WithoutAbsent(Chain(m, g, head, a), b);
    }
    assert head != 0 ==> LinkOk(m, g, head) && LinkOk(m', g', head);
    SameChain(m, g, head, m', g', b, b, head);
    assert Chain(m', g', b, b) == [b] + Chain(m', g', b, head);
  }

  /** A block without predecessor is on no chain but its own. */
  lemma NeverInside(mem: Words, g: Blocks, head: nat, a: nat, x: nat)
    requires Chained(mem, g, head) && OnChain(mem, g, a) && x != 0 && x != a && mem[x + 3] == 0
    ensures x !in Chain(mem, g, head, a)
  {
    var s := Chain(mem, g, head, a);
    forall k | 0 <= k < |s| ensures s[k] != x { ChainPrev(mem, g, head, a, k); }
  }

  /** free_list_remove: every other chain loses the block, wherever it was. */
  lemma {:induction false} UnlinkedChain(m: Words, g: Blocks, head: nat, x: nat, m': Words, head': nat, a: nat)
    requires Chained(m, g, head) && Chained(m', g, head') && x in g.free && Unlinked(m, g, x, m')
    requires a != x && OnChain(m, g, a) && OnChain(m', g, a)
    ensures Chain(m', g, head', a) == Without(Chain(m, g, head, a), x)
    decreases if a == 0 then 0 else g.stamp[a] + 1
  {
    if a != 0 {
      AfterSelf(m, g, head, x);
      var n, y := m[a + 2], m[x + 2];
      assert n != 0 ==> LinkOk(m, g, n);
      UnlinkedStep(m, g, head, x, m', a);
      if n == x {
        assert y != 0 ==> LinkOk(m', g, y);
        UnlinkedChain(m, g, head, x, m', head', y);
        WithoutAbsent(Chain(m, g, head, y), x);
        assert Chain(m, g, head, a) == [a] + ([x] + Chain(m, g, head, y));
        assert Without([x] + Chain(m, g, head, y), x) == Chain(m, g, head, y);
      } else {
        assert n != 0 ==> LinkOk(m', g, n);
        UnlinkedChain(m, g, head, x, m', head', n);
      }
      assert Chain(m, g, head, a)[1..] == Chain(m, g, head, n);
    }
  }

  lemma UnlinkedStep(m: Words, g: Blocks, head: nat, x: nat, m': Words, a: nat)
    requires Chained(m, g, head) && Total(m') && x in g.free && a in g.free && a != x && Unlinked(m, g, x, m')
    ensures m'[a + 2] == if m[a + 2] == x then m[x + 2] else m[a + 2]
  {
    assert LinkOk(m, g, x) && LinkOk(m, g, a);
    assert a != m[x + 2] && a != m[x + 3] ==> SameLinks(m, m', a);
  }

  lemma UnlinkedAll(m: Words, g: Blocks, head: nat, x: nat, m': Words, head': nat)
    requires Chained(m, g, head) && Chained(m', g, head') && x in g.free && Unlinked(m, g, x, m')
    ensures AllLess(m, g, head, m', g, head', x)
  {
    forall a | a in g.free && a != x ensures ChainLess(m, g, head, m', g, head', x, a) {
      assert LinkOk(m, g, a) && LinkOk(m', g, a);
      UnlinkedChain(m, g, head, x, m', head', a);
    }
  }

  /** Stores that change no next word, after a removal. */
  lemma LessThenSame(m: Words, g: Blocks, head: nat, m1: Words, g1: Blocks, head1: nat, m2: Words, g2: Blocks, head2: nat, x: nat)
    requires AllLess(m, g, head, m1, g1, head1, x) && Chained(m1, g1, head1) && Chained(m2, g2, head2)
    requires g1.free == g.free && (forall a :: a in g.free && a != x ==> a in g2.free)
    requires forall c {:trigger NextSame(m1, m2, c)} :: c in g1.free ==> NextSame(m1, m2, c)
    ensures AllLess(m, g, head, m2, g2, head2, x)
  {
    forall a | a in g.free && a != x ensures ChainLess(m, g, head, m2, g2, head2, x, a) {
      assert ChainLess(m, g, head, m1, g1, head1, x, a) && LinkOk(m2, g2, a);
      SameChain(m1, g1, head1, m2, g2, head2, 0, a);
    }
  }

  /** The same stores before a removal. */
  lemma SameThenLess(m: Words, g: Blocks, head: nat, m1: Words, m2: Words, head2: nat, x: nat)
    requires Chained(m, g, head) && Chained(m1, g, head) && AllLess(m1, g, head, m2, g, head2, x)
    requires forall c {:trigger NextSame(m, m1, c)} :: c in g.free ==> NextSame(m, m1, c)
    ensures AllLess(m, g, head, m2, g, head2, x)
  {
    forall a | a in g.free && a != x ensures ChainLess(m, g, head, m2, g, head2, x, a) {
      assert ChainLess(m1, g, head, m2, g, head2, x, a) && LinkOk(m, g, a);
      SameChain(m, g, head, m1, g, head, 0, a);
    }
  }

  lemma LinksNext(m: Words, m': Words, g: Blocks)
    requires Total(m) && Total(m') && forall c {:trigger SameLinks(m, m', c)} :: c in g.free ==> SameLinks(m, m', c)
    ensures forall c {:trigger NextSame(m, m', c)} :: c in g.free ==> NextSame(m, m', c)
  {
    forall c | c in g.free ensures NextSame(m, m', c) { assert SameLinks(m, m', c); }
  }

  // ----- what kmalloc does to the list -----

  /** First fit finds a block of the list. */
  lemma {:induction false} FitListed(m: Words, g: Blocks, head: nat, a: nat, total: nat)
    requires Chained(m, g, head) && OnChain(m, g, a)
    ensures var r := FirstFit(m, g, head, a, total); r != 0 ==> r in Chain(m, g, head, a)
    decreases if a == 0 then 0 else g.stamp[a] + 1
  {
    if a != 0 && m[a] < total {
      assert m[a + 2] != 0 ==> LinkOk(m, g, m[a + 2]);
      FitListed(m, g, head, m[a + 2], total);
    }
  }

  /** Removing a block of the list. */
  lemma ListedRemoved(m: Words, g: Blocks, head: nat, b: nat, m': Words, head': nat)
    requires Chained(m, g, head) && Chained(m', g, head') && b in g.free && AllLess(m, g, head, m', g, head', b)
    requires b in ListOf(m, g, head) && head' == HeadAfter(m, head, b)
    ensures ListOf(m', g, head') == Without(ListOf(m, g, head), b)
  {
    assert head != 0 ==> LinkOk(m, g, head);
    var s := ListOf(m, g, head);
    if b == head {
      FirstRemoved(m, g, head, b, m', g, head');
    } else {
      var k :| 0 <= k < |s| && s[k] == b;
      ChainPrev(m, g, head, head, k);
      assert ChainLess(m, g, head, m', g, head', b, head);
    }
  }

  /** Stores that change no next word of a free block leave the list. */
  lemma SameList(m: Words, g: Blocks, head: nat, m': Words, g': Blocks)
    requires Chained(m, g, head) && Chained(m', g', head)
    requires forall c {:trigger NextSame(m, m', c)} :: c in g.free ==> NextSame(m, m', c)
    ensures ListOf(m', g', head) == ListOf(m, g, head)
  {
    assert head != 0 ==> LinkOk(m, g, head) && LinkOk(m', g', head);
    SameChain(m, g, head, m', g', head, 0, head);
  }

  /** A block put in front. */
  lemma PushedList(m: Words, g: Blocks, head: nat, m': Words, g': Blocks, head': nat, words: nat)
    requires Chained(m, g, head) && Chained(m', g', head') && Pushed(m, g, head, m', g', head', words)
    ensures ListOf(m', g', head') == [head'] + ListOf(m, g, head)
  {
    assert LinkOk(m', g', head');
    assert head != 0 ==> LinkOk(m, g, head) && LinkOk(m', g', head);
    forall c | c in g.free ensures NextSame(m, m', c) { assert SameNext(m, m', c); }
    SameChain(m, g, head, m', g', head', 0, head);
  }

  /** What split_block puts on the list: the end of a block of `words` words of which `k` are kept. */
  ghost function Remainder(words: nat, b: nat, k: nat): seq<nat> {
    if words < k + MIN_BLOCK then [] else [b + k]
  }

  ghost function Members(s: seq<nat>): set<nat> {
    set c | c in s
  }

  /** The search of kmalloc comes to every free block. */
  ghost predicate AllListed(m: Words, g: Blocks, head: nat) {
    Chained(m, g, head) && forall c :: c in g.free ==> c in ListOf(m, g, head)
  }

  // ----- what kfree does to the list -----

  /** The list without the block after `b`, if that is free. */
  ghost function Rest(m: Words, h: Blocks, head: nat, b: nat): seq<nat>
    requires Chained(m, h, head)
  {
    if HasNext(h, b) then Without(ListOf(m, h, head), b + h.size[b]) else ListOf(m, h, head)
  }

  /** The list once `b` has been put in front of it and has absorbed the block after it. */
  ghost function ForwardList(m: Words, h: Blocks, head: nat, b: nat): seq<nat>
    requires Chained(m, h, head)
  {
    if StaysInFront(m, h, head, b) then [b] + Rest(m, h, head, b)
    else
      assert LinkOk(m, h, b + h.size[b]);
      var y := m[b + h.size[b] + 2];
      assert y != 0 ==> LinkOk(m, h, y);
      Chain(m, h, head, y)
  }

  /** The same once it is merged into a free block before it, too. */
  ghost function MergedList(m: Words, h: Blocks, head: nat, b: nat): seq<nat>
    requires Chained(m, h, head)
  {
    if HasPrev(h, b) then Without(Rest(m, h, head, b), h.pred[b]) else ForwardList(m, h, head, b)
  }

  /** free_list_insert and merge_forward together. */
  lemma ForwardDone(m: Words, h: Blocks, head: nat, b: nat, m1: Words, g1: Blocks, m2: Words, g2: Blocks, head2: nat)
    requires Chained(m, h, head) && b in h.free && Isolated(m, b, head) && b in h.size && h.size[b] > 0 && SameBlocks(h, g1)
    requires Inserted(m, h, head, m1, g1, b) && Chained(m2, g2, head2) && b in g2.free
    requires if HasNext(g1, b) then AllLess(m1, g1, b, m2, g2, head2, b + g1.size[b]) else m2 == m1 && g2 == g1
    requires head2 == HeadThen(m, h, head, b)
    ensures OnChain(m2, g2, b) && Chain(m2, g2, head2, b) == [b] + Rest(m, h, head, b)
    ensures ListOf(m2, g2, head2) == ForwardList(m, h, head, b)
  {
    SameNeighbour(h, g1, b);
    assert LinkOk(m2, g2, b) && LinkOk(m1, g1, b) && LinkOk(m, h, b);
    if HasNext(h, b) {
      var n := b + h.size[b];
      assert ChainLess(m1, g1, b, m2, g2, head2, n, b);
      var L := ListOf(m, h, head);
      assert ([b] + L)[1..] == L;
      if !StaysInFront(m, h, head, b) && head2 != 0 { TailKept(m, h, head, b, m1, g1, m2, g2, head2, n); }
    }
  }

  /** The chain behind a block that was removed is as it was. */
  lemma TailKept(m: Words, h: Blocks, head: nat, b: nat, m1: Words, g1: Blocks, m2: Words, g2: Blocks, y: nat, n: nat)
    requires Chained(m, h, head) && b in h.free && Isolated(m, b, head) && n in h.free && n != b && y == m[n + 2] != 0 && h.free == g1.free
    requires Inserted(m, h, head, m1, g1, b) && Chained(m2, g2, y) && AllLess(m1, g1, b, m2, g2, y, n)
    ensures OnChain(m, h, y) && ListOf(m2, g2, y) == Chain(m, h, head, y)
  {
    AfterSelf(m, h, head, n);
    assert LinkOk(m, h, b);
    assert ChainLess(m, h, head, m1, g1, b, b, y) && ChainLess(m1, g1, b, m2, g2, y, n, y);
    NeverInside(m, h, head, y, b);
    WithoutAbsent(Chain(m, h, head, y), b);
    WithoutAbsent(Chain(m, h, head, y), n);
  }

  /** Two removals in merge_backward, of `p` and then of `b`, which is the first of its chain: what is left is the chain
      behind `b`, without `p`. */
  lemma BackDone(m: Words, h: Blocks, head: nat, p: nat, b: nat, m1: Words, head1: nat, m2: Words, g2: Blocks, head2: nat)
    requires Chained(m, h, head) && p in h.free && b in h.free && p != b && m[b + 3] == 0
    requires Chained(m1, h, head1) && AllLess(m, h, head, m1, h, head1, p) && m1[b + 3] == 0
    requires Chained(m2, g2, head2) && AllLess(m1, h, head1, m2, g2, head2, b) && head2 == HeadAfter(m1, head1, b)
    ensures OnChain(m, h, b) && |Chain(m, h, head, b)| > 0
    ensures ListOf(m2, g2, head2) == Without(Chain(m, h, head, b)[1..], p)
  {
    assert LinkOk(m, h, b) && ChainLess(m, h, head, m1, h, head1, p, b);
    AfterSelf(m1, h, head1, b);
    var y := m1[b + 2];
    assert Chain(m1, h, head1, b) == [b] + Chain(m1, h, head1, y);
    assert Chain(m1, h, head1, b)[1..] == Chain(m1, h, head1, y);
    if y != 0 {
      assert ChainLess(m1, h, head1, m2, g2, head2, b, y);
      WithoutAbsent(Chain(m1, h, head1, y), b);
    }
  }

  /** The list after kfree of block `b`. */
  ghost function FreedList(m: Words, h: Blocks, head: nat, b: nat): seq<nat>
    requires Chained(m, h, head)
  {
    if !FillsRun(Freed(h, b), Result(h, b)) then MergedList(m, h, head, b)
    else if HasPrev(h, b) then [] else Rest(m, h, head, b)
  }

  /** Setting the free flag of `b` changes no list. */
  lemma MarkedList(m: Words, h: Blocks, head: nat, b: nat, m1: Words, h1: Blocks)
    requires Chained(m, h, head) && Chained(m1, h1, head) && b in h.size && b !in h.free && h1 == Flagged(h, b, false)
    requires HasNext(h1, b) == HasNext(h, b) && HasPrev(h1, b) == HasPrev(h, b) && StaysInFront(m1, h1, head, b) == StaysInFront(m, h, head, b)
    requires forall c {:trigger NextSame(m, m1, c)} :: c in h.free ==> NextSame(m, m1, c)
    ensures Rest(m1, h1, head, b) == Rest(m, h, head, b) && MergedList(m1, h1, head, b) == MergedList(m, h, head, b)
  {
    assert head != 0 ==> LinkOk(m, h, head) && LinkOk(m1, h1, head);
    SameChain(m, h, head, m1, h1, head, 0, head);
    if !StaysInFront(m, h, head, b) {
      var n := b + h.size[b];
      assert LinkOk(m, h, n) && NextSame(m, m1, n);
      var y := m[n + 2];
      assert y != 0 ==> LinkOk(m, h, y) && LinkOk(m1, h1, y);
      SameChain(m, h, head, m1, h1, head, 0, y);
    }
  }

  /** Removing the first block of a chain leaves the rest of it as the list. */
  lemma FirstRemoved(m: Words, g: Blocks, head: nat, b: nat, m': Words, g': Blocks, head': nat)
    requires Chained(m, g, head) && Chained(m', g', head') && b in g.free && m[b + 3] == 0
    requires AllLess(m, g, head, m', g', head', b) && head' == HeadAfter(m, head, b)
    ensures OnChain(m, g, b) && |Chain(m, g, head, b)| > 0 && ListOf(m', g', head') == Chain(m, g, head, b)[1..]
  {
    AfterSelf(m, g, head, b);
    var y := m[b + 2];
    assert Chain(m, g, head, b) == [b] + Chain(m, g, head, y);
    if y != 0 {
      assert ChainLess(m, g, head, m', g', head', b, y);
      WithoutAbsent(Chain(m, g, head, y), b);
    }
  }

  // ----- which blocks are found -----

  /** The free blocks on the list, other than those that `b` is merged with. */
  ghost function Others(m: Words, h: Blocks, head: nat, b: nat): seq<nat>
    requires Chained(m, h, head)
  {
    if HasPrev(h, b) then Without(Rest(m, h, head, b), h.pred[b]) else Rest(m, h, head, b)
  }

  lemma OthersAre(m: Words, h: Blocks, head: nat, b: nat, c: nat)
    requires Chained(m, h, head)
    ensures c in Others(m, h, head, b) <==>
            c in ListOf(m, h, head) && !(HasNext(h, b) && c == b + h.size[b]) && !(HasPrev(h, b) && c == h.pred[b])
  {
    assert head != 0 ==> LinkOk(m, h, head);
    ChainStamps(m, h, head, head);
    if HasNext(h, b) {
      WithoutIn(ListOf(m, h, head), b + h.size[b], c);
      WithoutDistinct(ListOf(m, h, head), b + h.size[b]);
    }
    if HasPrev(h, b) { WithoutIn(Rest(m, h, head, b), h.pred[b], c); }
  }

  /** The list keeps the other blocks it had: unless a backward merge is followed by the release of the run, or a block on no
      list is absorbed and nothing repairs that. */
  ghost predicate KeepsOthers(m: Words, h: Blocks, head: nat, b: nat)
    requires Total(m)
  {
    if FillsRun(Freed(h, b), Result(h, b)) then !HasPrev(h, b) else HasPrev(h, b) || StaysInFront(m, h, head, b)
  }

  /** After kfree of `b` the search comes to the block that `b` is part of if and only if there was no free block before it and
      it stays in front.  It comes to every other block it came to before if and only if KeepsOthers or there was none. */
  lemma FreedFinds(m: Words, h: Blocks, head: nat, b: nat)
    requires Chained(m, h, head) && b in h.size && h.size[b] > 0 && b !in h.free
    ensures !FillsRun(Freed(h, b), Result(h, b)) ==>
              (Result(h, b) in FreedList(m, h, head, b) <==> !HasPrev(h, b) && StaysInFront(m, h, head, b))
    ensures (forall c :: c in Others(m, h, head, b) ==> c in FreedList(m, h, head, b)) <==>
            Others(m, h, head, b) == [] || KeepsOthers(m, h, head, b)
  {
    assert head != 0 ==> LinkOk(m, h, head);
    ChainStamps(m, h, head, head);
    OthersAre(m, h, head, b, b);
    if HasPrev(h, b) { OthersAre(m, h, head, b, h.pred[b]); }
    if !StaysInFront(m, h, head, b) { AllLost(m, h, head, b); }
    var others := Others(m, h, head, b);
    if others != [] && !KeepsOthers(m, h, head, b) { assert others[0] in others && others[0] !in FreedList(m, h, head, b); }
  }

  /** When the list becomes that of a block that was on none, it has no block that it had. */
  lemma AllLost(m: Words, h: Blocks, head: nat, b: nat)
    requires Chained(m, h, head) && b in h.size && h.size[b] > 0 && b !in h.free && !StaysInFront(m, h, head, b)
    ensures b !in ForwardList(m, h, head, b)
    ensures forall c :: c in Others(m, h, head, b) ==> c !in ForwardList(m, h, head, b)
  {
    var n := b + h.size[b];
    AfterSelf(m, h, head, n);
    assert head != 0 ==> LinkOk(m, h, head);
    ChainStamps(m, h, head, m[n + 2]);
    assert Chain(m, h, head, n) == [n] + Chain(m, h, head, m[n + 2]);
    forall c | c in Others(m, h, head, b) ensures c !in ForwardList(m, h, head, b) {
      OthersAre(m, h, head, b, c);
      var k :| 0 <= k < |ListOf(m, h, head)| && ListOf(m, h, head)[k] == c;
      ChainsApart(m, h, head, head, n, k);
    }
  }

  /** Of a list with every free block on it, kfree makes one with every free block on it if and only if the block before is not
      free, or all free blocks are gone with the run. */
  lemma StaysListed(m: Words, h: Blocks, head: nat, b: nat, m': Words, g': Blocks, head': nat)
    requires Tiled(h) && AllListed(m, h, head) && b in h.size && b in h.home && b !in h.free && Chained(m', g', head')
    requires ListOf(m', g', head') == FreedList(m, h, head, b)
    requires SameBlocks(if FillsRun(Freed(h, b), Result(h, b)) then WithoutRun(Freed(h, b), Result(h, b)) else Freed(h, b), g')
    ensures AllListed(m', g', head') <==> !HasPrev(h, b) || (FillsRun(Freed(h, b), Result(h, b)) && g'.free == {})
  {
    FreedSet(h, b);
    ListedFront(m, h, head, b);
    var free := h.free - (if HasNext(h, b) then {b + h.size[b]} else {});
    var others := free - (if HasPrev(h, b) then {h.pred[b]} else {});
    forall c ensures c in Others(m, h, head, b) <==> c in others { ListedOthers(m, h, head, b, c); }
    ListedThen(m, h, head, b, free, others, g'.free);
  }

  lemma ListedFront(m: Words, h: Blocks, head: nat, b: nat)
    requires AllListed(m, h, head)
    ensures StaysInFront(m, h, head, b)
  {
    if HasNext(h, b) {
      assert head != 0 ==> LinkOk(m, h, head);
      var s, n := ListOf(m, h, head), b + h.size[b];
      var k :| 0 <= k < |s| && s[k] == n;
      ChainPrev(m, h, head, head, k);
    }
  }

  lemma ListedOthers(m: Words, h: Blocks, head: nat, b: nat, c: nat)
    requires AllListed(m, h, head)
    ensures c in Others(m, h, head, b) <==> c in h.free && !(HasNext(h, b) && c == b + h.size[b]) && !(HasPrev(h, b) && c == h.pred[b])
  {
    OthersAre(m, h, head, b, c);
    assert head != 0 ==> LinkOk(m, h, head);
    ChainStamps(m, h, head, head);
  }

  lemma ListedThen(m: Words, h: Blocks, head: nat, b: nat, free: set<nat>, others: set<nat>, free': set<nat>)
    requires Chained(m, h, head) && StaysInFront(m, h, head, b) && b !in free && (HasPrev(h, b) ==> h.pred[b] in free && h.pred[b] != b)
    requires others == free - (if HasPrev(h, b) then {h.pred[b]} else {})
    requires forall c :: c in Others(m, h, head, b) <==> c in others
    requires var fills, all := FillsRun(Freed(h, b), Result(h, b)), free + (if HasPrev(h, b) then {} else {b});
             free' == if fills then all - {Result(h, b)} else all
    ensures (forall c :: c in free' ==> c in FreedList(m, h, head, b)) <==>
            !HasPrev(h, b) || (FillsRun(Freed(h, b), Result(h, b)) && free' == {})
  {
    var r := Result(h, b);
    if HasPrev(h, b) && !FillsRun(Freed(h, b), r) { assert r in free' && r !in FreedList(m, h, head, b); }
    if HasPrev(h, b) && FillsRun(Freed(h, b), r) && free' != {} {
      var c :| c in free';
      assert c !in FreedList(m, h, head, b);
    }
    if !HasPrev(h, b) {
      forall c | c in free' ensures c in FreedList(m, h, head, b) { assert c != b ==> c in others && c in Others(m, h, head, b); }
    }
  }

  /** The free blocks after `b` is freed and merged. */
  lemma FreedSet(h: Blocks, b: nat)
    requires Tiled(h) && b in h.size && b in h.home && b !in h.free
    ensures Freed(h, b).free == h.free - (if HasNext(h, b) then {b + h.size[b]} else {}) + (if HasPrev(h, b) then {} else {b})
    ensures HasPrev(h, b) ==> h.pred[b] != b && !(HasNext(h, b) && h.pred[b] == b + h.size[b])
  {
    assert PlaceOk(h, b);
    var f := Flagged(h, b, false);
    FlaggedTiled(h, b, false);
    ResultForward(f, b);
    if HasNext(h, b) { assert IsBlock(h, b + h.size[b]); }
    if HasPrev(h, b) {
      Far(h, h.pred[b], b);
      assert IsBlock(h, h.pred[b]) && PlaceOk(h, h.pred[b]);
    }
  }
}
