/** Whole runs of the kernel heap: any sequence of kmalloc, kfree and stores through
    pointers in use.  What a caller stored is what it reads back, and freeing a
    pointer again before the next kmalloc changes nothing. */
module HeapRuns {
  import opened HeapBlocks
  import opened HeapLists
  import opened Kmalloc

  datatype Op = Malloc(size: nat) | Release(ptr: nat) | Store(ptr: nat, k: nat, v: nat)

  /** The words of a payload. */
  ghost function Payload(mem: Words, g: Blocks, ptr: nat): seq<nat>
    requires Total(mem) && ptr >= HEADER && ptr - HEADER in g.size && g.size[ptr - HEADER] >= MIN_BLOCK
  {
    seq(g.size[ptr - HEADER] - HEADER - 1, k requires 0 <= k => mem[ptr + k])
  }

  /** The pointers in use, each with the words its owner expects to find. */
  ghost predicate Matches(model: map<nat, seq<nat>>, mem: Words, g: Blocks, ptr: nat) {
    && Total(mem)
    && (ptr in model <==> ptr >= HEADER && ptr - HEADER in g.size && ptr - HEADER !in g.free)
    && (ptr in model ==>
          && |model[ptr]| + HEADER + 1 == g.size[ptr - HEADER]
          && forall k :: 0 <= k < |model[ptr]| ==> mem[ptr + k] == model[ptr][k])
  }

  ghost predicate Modelled(model: map<nat, seq<nat>>, mem: Words, g: Blocks) {
    forall ptr {:trigger Matches(model, mem, g, ptr)} :: Matches(model, mem, g, ptr)
  }

  function Put(s: seq<nat>, k: nat, v: nat): seq<nat>
    requires k < |s|
  {
    s[k := v]
  }

  /** The whole heap at one moment, with what the callers stored and what they freed since the last kmalloc. */
  datatype View = View(mem: Words, g: Blocks, runs: seq<PageRun>, freeList: nat, counts: map<nat, nat>, free: set<nat>,
                       model: map<nat, seq<nat>>, freed: set<nat>)

  /** The block kmalloc finds on its list, or 0. */
  ghost function Fit(v: View, size: nat): nat
    requires size < WRAP && Chained(v.mem, v.g, v.freeList)
  {
    assert v.freeList != 0 ==> LinkOk(v.mem, v.g, v.freeList);
    FirstFit(v.mem, v.g, v.freeList, v.freeList, Rounded(size) / 8)
  }

  /** kmalloc succeeds: a block on the list is long enough, or there is room for a run and frames for it. */
  ghost predicate Served(v: View, size: nat)
    requires size < WRAP && Chained(v.mem, v.g, v.freeList)
  {
    && size > 0
    && (|| Fit(v, size) != 0
        || (|v.runs| < MAX_PAGE_RUNS && Rounded(size) <= WRAP - 4096 && exists s: nat :: Pmm.IsRun(v.free, s, PagesFor(Rounded(size)))))
  }

  /** The first kfree of block `b`, as `Heap.FreedAs` has it: merged with its free neighbours, and given back with its run if
      it fills it; and the list that kmalloc searches from then on. */
  ghost predicate Drops(m: Words, h: Blocks, head: nat, b: nat, m': Words, g': Blocks, head': nat) {
    && Chained(m, h, head) && Chained(m', g', head') && ListOf(m', g', head') == FreedList(m, h, head, b)
    && SameBlocks(if FillsRun(Freed(h, b), Result(h, b)) then WithoutRun(Freed(h, b), Result(h, b)) else Freed(h, b), g')
  }

  /** What kmalloc of `size` bytes does to the list, as `Heap.AllocatedAs` has it. */
  ghost predicate Takes(v: View, size: nat, r: nat, w: View) {
    && size < WRAP && Chained(v.mem, v.g, v.freeList) && Chained(w.mem, w.g, w.freeList)
    && if size == 0 then w.mem == v.mem && w.g == v.g && w.freeList == v.freeList
       else Heap.AllocatedAs(v.mem, v.g, v.freeList, Rounded(size) / 8, |v.runs| < MAX_PAGE_RUNS && v.free != {},
                             Heap.RunWords(v.free, Rounded(size)), r, ListOf(w.mem, w.g, w.freeList), w.g.free)
  }

  ghost predicate ViewOk(v: View) {
    && Tiled(v.g) && Chained(v.mem, v.g, v.freeList) && Modelled(v.model, v.mem, v.g) && forall p :: p in v.freed ==> p !in v.model
  }

  /** A kmalloc that succeeds adds a pointer not in use, with whatever words are there. */
  ghost predicate Mallocs(v: View, size: nat, r: nat, w: View) {
    && Takes(v, size, r, w) && (r != 0 <==> Served(v, size)) && w.freed == {}
    && (size > 0 && Fit(v, size) != 0 ==> r == Fit(v, size) + HEADER)
    && (if r == 0 then w.model == v.model
        else r !in v.model && r in w.model && w.model == v.model[r := w.model[r]] && (8 * |w.model[r]| >= size <==> size < WRAP - 47))
  }

  /** A kfree takes out its pointer; of a pointer freed before, or of null, it changes nothing at all (1: kfree was called). */
  ghost predicate Releases(v: View, ptr: nat, r: nat, w: View) {
    if ptr == 0 || ptr in v.freed then r == 1 && w == v
    else if ptr in v.model then
      && r == 1 && w.model == v.model - {ptr} && w.freed == v.freed + {ptr}
      && ptr >= HEADER && Drops(v.mem, v.g, v.freeList, ptr - HEADER, w.mem, w.g, w.freeList)
    else r == 0 && w == v
  }

  ghost predicate Stores(v: View, ptr: nat, k: nat, x: nat, r: nat, w: View) {
    && r == 0
    && if ptr in v.model && k < |v.model[ptr]|
       then w == v.(mem := v.mem[ptr + k := x], model := v.model[ptr := Put(v.model[ptr], k, x)]) else w == v
  }

  ghost predicate Step(v: View, op: Op, r: nat, w: View) {
    match op
    case Malloc(size) => Mallocs(v, size, r, w)
    case Release(ptr) => Releases(v, ptr, r, w)
    case Store(ptr, k, x) => Stores(v, ptr, k, x, r, w)
  }

  /** A run: a state per operation, each following from the one before. */
  ghost predicate IsRun(ops: seq<Op>, rs: seq<nat>, trace: seq<View>) {
    && |rs| == |ops| && |trace| == |ops| + 1
    && (forall i :: 0 <= i < |trace| ==> ViewOk(trace[i]))
    && forall i :: 0 <= i < |ops| ==> Step(trace[i], ops[i], rs[i], trace[i + 1])
  }

  lemma RunLonger(ops: seq<Op>, rs: seq<nat>, trace: seq<View>, i: nat, r: nat, w: View)
    requires i < |ops| && IsRun(ops[..i], rs, trace) && ViewOk(w) && Step(trace[i], ops[i], r, w)
    ensures IsRun(ops[..i + 1], rs + [r], trace + [w])
  {
    var ops', rs', trace' := ops[..i + 1], rs + [r], trace + [w];
    forall k | 0 <= k < |ops'| ensures Step(trace'[k], ops'[k], rs'[k], trace'[k + 1]) {
      assert k < i ==> ops'[k] == ops[..i][k] && Step(trace[k], ops[..i][k], rs[k], trace[k + 1]);
    }
  }

  /** Until the next kmalloc a freed pointer stays freed. */
  lemma {:induction false} StaysFreed(ops: seq<Op>, rs: seq<nat>, trace: seq<View>, i: nat, j: nat, p: nat)
    requires IsRun(ops, rs, trace) && i <= j <= |ops| && p in trace[i].freed
    requires forall k :: i <= k < j ==> !ops[k].Malloc?
    ensures p in trace[j].freed
    decreases j - i
  {
    if i < j {
      assert Step(trace[i], ops[i], rs[i], trace[i + 1]);
      StaysFreed(ops, rs, trace, i + 1, j, p);
    }
  }

  /** task_cleanup frees the kernel stack and then the equal legacy pointer: whatever kfrees and stores come between the
      two, the second one changes nothing. */
  lemma FreeTwice(ops: seq<Op>, rs: seq<nat>, trace: seq<View>, i: nat, j: nat, p: nat)
    requires IsRun(ops, rs, trace) && i < j < |ops| && ops[i] == Release(p) && ops[j] == Release(p) && p in trace[i].model
    requires forall k :: i < k < j ==> !ops[k].Malloc?
    ensures rs[j] == 1 && trace[j + 1] == trace[j]
  {
    assert ViewOk(trace[i]) && Step(trace[i], ops[i], rs[i], trace[i + 1]);
    assert Matches(trace[i].model, trace[i].mem, trace[i].g, p);
    StaysFreed(ops, rs, trace, i + 1, j, p);
    assert Step(trace[j], ops[j], rs[j], trace[j + 1]);
  }

  // ----- every free block on the list -----

  ghost predicate Listed(v: View) {
    AllListed(v.mem, v.g, v.freeList)
  }

  /** The block before `ptr`'s is free. */
  ghost predicate FreeBefore(v: View, ptr: nat) {
    ptr >= HEADER && HasPrev(v.g, ptr - HEADER)
  }

  /** A kfree that frees something. */
  ghost predicate Frees(v: View, op: Op) {
    op.Release? && op.ptr != 0 && op.ptr !in v.freed && op.ptr in v.model
  }

  /** Of a state with every free block on the list an operation makes one with every free block on it, unless it is a kfree of
      a block behind a free one; that kfree never does so while a free block is left. */
  lemma {:induction false} ListedStep(v: View, op: Op, r: nat, w: View)
    requires ViewOk(v) && ViewOk(w) && Step(v, op, r, w) && Listed(v)
    ensures !(Frees(v, op) && FreeBefore(v, op.ptr)) ==> Listed(w)
    ensures Frees(v, op) && FreeBefore(v, op.ptr) ==> (Listed(w) <==> w.g.free == {})
  {
    if op.Malloc? {
      TakenListed(v, op.size, r, w);
    } else if op.Store? {
      StoredListed(v, op.ptr, op.k, op.v, r, w);
    } else if Frees(v, op) {
      DroppedListed(v, op.ptr, r, w);
    }
  }

  lemma {:induction false} TakenListed(v: View, size: nat, r: nat, w: View)
    requires Takes(v, size, r, w) && Listed(v)
    ensures Listed(w)
  {
    if size > 0 {
      var fit := Fit(v, size);
      assert v.freeList != 0 ==> LinkOk(v.mem, v.g, v.freeList);
      ChainStamps(v.mem, v.g, v.freeList, v.freeList);
      forall c | c in w.g.free ensures c in ListOf(w.mem, w.g, w.freeList) { WithoutIn(ListOf(v.mem, v.g, v.freeList), fit, c); }
    }
  }

  lemma {:induction false} DroppedListed(v: View, ptr: nat, r: nat, w: View)
    requires ViewOk(v) && ViewOk(w) && Listed(v) && Releases(v, ptr, r, w) && ptr != 0 && ptr !in v.freed && ptr in v.model
    ensures Listed(w) <==> !FreeBefore(v, ptr) || w.g.free == {}
  {
    var b := ptr - HEADER;
    assert Matches(v.model, v.mem, v.g, ptr);
    assert PlaceOk(v.g, b);
    StaysListed(v.mem, v.g, v.freeList, b, w.mem, w.g, w.freeList);
    if HasPrev(v.g, b) && !FillsRun(Freed(v.g, b), Result(v.g, b)) {
      FreedSet(v.g, b);
      assert v.g.pred[b] in w.g.free;
    }
  }

  lemma {:induction false} StoredListed(v: View, ptr: nat, k: nat, x: nat, r: nat, w: View)
    requires ViewOk(v) && ViewOk(w) && Listed(v) && Stores(v, ptr, k, x, r, w)
    ensures Listed(w)
  {
    if !(ptr in v.model && k < |v.model[ptr]|) { return; }
    assert Matches(v.model, v.mem, v.g, ptr);
    forall c | c in v.g.free ensures NextSame(v.mem, w.mem, c) {
      assert IsBlock(v.g, c) && InPayload(v.g, ptr - HEADER, ptr + k);
      Far(v.g, ptr - HEADER, c);
    }
    SameList(v.mem, v.g, v.freeList, w.mem, w.g);
  }

  /** In every run in which no kfree is of a block behind a free one, kmalloc's search comes to every free block. */
  lemma {:induction false} NoneLost(ops: seq<Op>, rs: seq<nat>, trace: seq<View>, n: nat)
    requires IsRun(ops, rs, trace) && n <= |ops| && Listed(trace[0])
    requires forall i :: 0 <= i < n ==> !(Frees(trace[i], ops[i]) && FreeBefore(trace[i], ops[i].ptr))
    ensures Listed(trace[n])
  {
    if n > 0 {
      NoneLost(ops, rs, trace, n - 1);
      assert ViewOk(trace[n - 1]) && ViewOk(trace[n]) && Step(trace[n - 1], ops[n - 1], rs[n - 1], trace[n - 1 + 1]);
      ListedStep(trace[n - 1], ops[n - 1], rs[n - 1], trace[n]);
    }
  }

  /** A kfree of any of these pointers finds it freed already. */
  ghost predicate AllDead(freed: set<nat>, hhdm: nat, runs: seq<PageRun>, mem: Words, g: Blocks) {
    forall p :: p in freed ==> p >= HEADER && Dead(hhdm, runs, mem, g, p - HEADER)
  }

  class Client {
    const heap: Heap
    var owned: map<nat, nat>              // the callers' pointers, with their capacity in words
    var freed: set<nat>                   // the pointers freed since the last kmalloc
    ghost var model: map<nat, seq<nat>>   // what the callers stored

    constructor (heap: Heap)
      requires heap.Valid() && forall b :: b in heap.g.size ==> b in heap.g.free
      ensures Valid() && this.heap == heap && model == map[]
    {
      this.heap, owned, freed, model := heap, map[], {}, map[];
    }

    ghost predicate Valid()
      reads this, heap, heap.pmm, heap.pmm.bitmap, heap.pmm.bitmap.bytes, heap.pmm.refs
    {
      && heap.Valid() && Modelled(model, heap.mem, heap.g)
      && (forall p :: p in owned <==> p in model) && (forall p :: p in owned ==> owned[p] == |model[p]|)
      && (forall p :: p in freed ==> p !in model) && AllDead(freed, heap.hhdm, heap.runs, heap.mem, heap.g)
    }

    ghost function Now(): View
      reads this, heap, heap.pmm, heap.pmm.bitmap
    {
      View(heap.mem, heap.g, heap.runs, heap.freeList, heap.pmm.counts, heap.pmm.Free(), model, freed)
    }

    method DoMalloc(size: nat) returns (ptr: nat)
      requires Valid() && size < WRAP
      modifies this, heap, heap.pmm, heap.pmm.bitmap, heap.pmm.bitmap.bytes, heap.pmm.refs
      ensures Valid() && Mallocs(old(Now()), size, ptr, Now())
    {
      ghost var m0, g0 := heap.mem, heap.g;
      var words;
      ptr, words := Kmalloc(size);
      freed := {};
      if ptr == 0 {
        StillModelled(model, m0, g0, heap.mem, heap.g);
        return;
      }
      ghost var payload := Payload(heap.mem, heap.g, ptr);
      NowModelled(model, m0, g0, ptr, payload, heap.mem, heap.g);
      model := model[ptr := payload];
      owned := owned[ptr := words];
    }

    /** kmalloc, with the words of the block it returns. */
    method Kmalloc(size: nat) returns (ptr: nat, words: nat)
      requires heap.Valid() && size < WRAP
      modifies heap, heap.pmm, heap.pmm.bitmap, heap.pmm.bitmap.bytes, heap.pmm.refs
      ensures heap.Valid() && PayloadsKept(old(heap.mem), old(heap.g), heap.mem)
      ensures ptr != 0 <==> old(Served(Now(), size))
      ensures size > 0 && old(Fit(Now(), size)) != 0 ==> ptr == old(Fit(Now(), size)) + HEADER
      ensures Takes(old(Now()), size, ptr, Now())
      ensures ptr == 0 ==> SameLive(old(heap.g), heap.g)
      ensures ptr != 0 ==>
                && OneMore(old(heap.g), heap.g, ptr) && heap.g.size[ptr - HEADER] >= MIN_BLOCK
                && words == heap.g.size[ptr - HEADER] - HEADER - 1 && (8 * words >= size <==> size < WRAP - 47)
    {
      ptr := heap.Alloc(size);
      if ptr == 0 { return 0, 0; }
      assert PlaceOk(heap.g, ptr - HEADER) && TagOk(heap.mem, heap.g, ptr - HEADER);
      words := heap.mem[ptr - HEADER] - HEADER - 1;
    }

    static lemma StillModelled(model: map<nat, seq<nat>>, m0: Words, g0: Blocks, m: Words, g: Blocks)
      requires Modelled(model, m0, g0) && PayloadsKept(m0, g0, m) && SameLive(g0, g)
      ensures Modelled(model, m, g)
    {
      forall p: nat ensures Matches(model, m, g, p) {
        assert Matches(model, m0, g0, p);
        if p in model { WordsKept(model, m0, g0, m, p); }
      }
    }

    static lemma WordsKept(model: map<nat, seq<nat>>, m0: Words, g0: Blocks, m: Words, p: nat)
      requires Matches(model, m0, g0, p) && p in model && PayloadsKept(m0, g0, m)
      ensures forall k :: 0 <= k < |model[p]| ==> m[p + k] == model[p][k]
    {
      forall k | 0 <= k < |model[p]| ensures m[p + k] == model[p][k] { assert InPayload(g0, p - HEADER, p + k); }
    }

    static lemma NowModelled(model: map<nat, seq<nat>>, m0: Words, g0: Blocks, ptr: nat, words: seq<nat>, m: Words, g: Blocks)
      requires Modelled(model, m0, g0) && PayloadsKept(m0, g0, m) && OneMore(g0, g, ptr)
      requires g.size[ptr - HEADER] >= MIN_BLOCK && words == Payload(m, g, ptr)
      ensures ptr !in model && Modelled(model[ptr := words], m, g)
    {
      assert Matches(model, m0, g0, ptr);
      var model' := model[ptr := words];
      forall p: nat ensures Matches(model', m, g, p) {
        assert Matches(model, m0, g0, p);
        if p in model { WordsKept(model, m0, g0, m, p); }
      }
    }

    /** kfree of a pointer in use, of one freed before, or of null; the callers know which ones are. */
    method DoRelease(ptr: nat) returns (called: nat)
      requires Valid()
      modifies this, heap, heap.pmm, heap.pmm.bitmap, heap.pmm.bitmap.bytes, heap.pmm.refs
      ensures Valid() && Releases(old(Now()), ptr, called, Now())
    {
      if ptr == 0 || ptr in freed {
        FreeAgain(ptr);
        return 1;
      }
      if ptr !in owned { return 0; }
      FreeOwned(ptr);
      return 1;
    }

    /** The first kfree. */
    method FreeOwned(ptr: nat)
      requires Valid() && ptr in owned
      modifies this, heap, heap.pmm, heap.pmm.bitmap, heap.pmm.bitmap.bytes, heap.pmm.refs
      ensures Valid() && model == old(model) - {ptr} && freed == old(freed) + {ptr}
      ensures ptr >= HEADER && Drops(old(heap.mem), old(heap.g), old(heap.freeList), ptr - HEADER, heap.mem, heap.g, heap.freeList)
    {
      ghost var m0, g0, r0 := heap.mem, heap.g, heap.runs;
      assert Matches(model, m0, g0, ptr);
      Kfree(ptr);
      GoneFromModel(model, m0, g0, ptr, heap.mem, heap.g);
      StillDead(freed, heap.hhdm, r0, m0, g0, heap.runs, heap.mem, heap.g, ptr);
      model := model - {ptr};
      owned, freed := owned - {ptr}, freed + {ptr};
    }

    method Kfree(ptr: nat)
      requires heap.Valid() && heap.InUse(ptr)
      modifies heap, heap.pmm, heap.pmm.bitmap, heap.pmm.bitmap.bytes, heap.pmm.refs
      ensures heap.Valid() && OneMore(heap.g, old(heap.g), ptr) && PayloadsKept(old(heap.mem), heap.g, heap.mem)
      ensures DeadKept(heap.hhdm, old(heap.runs), old(heap.mem), old(heap.g), heap.runs, heap.mem, heap.g)
      ensures Dead(heap.hhdm, heap.runs, heap.mem, heap.g, ptr - HEADER)
      ensures Drops(old(heap.mem), old(heap.g), old(heap.freeList), ptr - HEADER, heap.mem, heap.g, heap.freeList)
    {
      heap.Free(ptr);
    }

    static lemma StillDead(freed: set<nat>, hhdm: nat, r0: seq<PageRun>, m0: Words, g0: Blocks, r: seq<PageRun>, m: Words, g: Blocks, ptr: nat)
      requires DeadKept(hhdm, r0, m0, g0, r, m, g) && AllDead(freed, hhdm, r0, m0, g0)
      requires ptr >= HEADER && Dead(hhdm, r, m, g, ptr - HEADER)
      ensures AllDead(freed + {ptr}, hhdm, r, m, g)
    {
      forall p | p in freed + {ptr} ensures p >= HEADER && Dead(hhdm, r, m, g, p - HEADER) {
        assert p in freed ==> Dead(hhdm, r0, m0, g0, p - HEADER);
      }
    }

    /** The second kfree. */
    method FreeAgain(ptr: nat)
      requires Valid() && (ptr == 0 || ptr in freed)
      modifies heap, heap.pmm, heap.pmm.bitmap, heap.pmm.bitmap.bytes, heap.pmm.refs
      ensures Valid() && Now() == old(Now())
    {
      heap.Free(ptr);
    }

    static lemma GoneFromModel(model: map<nat, seq<nat>>, m0: Words, g0: Blocks, ptr: nat, m: Words, g: Blocks)
      requires Modelled(model, m0, g0) && PayloadsKept(m0, g, m) && OneMore(g, g0, ptr)
      ensures Modelled(model - {ptr}, m, g)
    {
      var rest := model - {ptr};
      forall p: nat ensures Matches(rest, m, g, p) {
        assert Matches(model, m0, g0, p);
        if p in model && p != ptr {
          forall k | 0 <= k < |model[p]| ensures m[p + k] == model[p][k] { assert InPayload(g, p - HEADER, p + k); }
        }
      }
    }

    method DoStore(ptr: nat, k: nat, v: nat)
      requires Valid()
      modifies this, heap
      ensures Valid() && Stores(old(Now()), ptr, k, v, 0, Now())
    {
      if ptr !in owned || k >= owned[ptr] { return; }
      ghost var m0 := heap.mem;
      assert Matches(model, m0, heap.g, ptr);
      heap.Poke(ptr, k, v);
      StoredInModel(model, m0, heap.g, ptr, k, v, heap.mem);
      model := model[ptr := Put(model[ptr], k, v)];
    }

    static lemma StoredInModel(model: map<nat, seq<nat>>, m0: Words, g: Blocks, ptr: nat, k: nat, v: nat, m: Words)
      requires Modelled(model, m0, g) && Tiled(g) && ptr in model && k < |model[ptr]| && Total(m) && m == m0[ptr + k := v]
      requires forall b, w: nat {:trigger InPayload(g, b, w)} :: InPayload(g, b, w) && w != ptr + k ==> m[w] == m0[w]
      ensures Modelled(model[ptr := Put(model[ptr], k, v)], m, g)
    {
      var model' := model[ptr := Put(model[ptr], k, v)];
      forall p: nat ensures Matches(model', m, g, p) {
        assert Matches(model, m0, g, p) && Matches(model, m0, g, ptr);
        if p in model {
          forall j | 0 <= j < |model'[p]| ensures m[p + j] == model'[p][j] {
            assert InPayload(g, p - HEADER, p + j) && InPayload(g, ptr - HEADER, ptr + k);
            if p + j == ptr + k { PayloadsApart(g, p - HEADER, ptr - HEADER, p + j); }
          }
        }
      }
    }

    method Do(op: Op) returns (r: nat)
      requires Valid() && (op.Malloc? ==> op.size < WRAP)
      modifies this, heap, heap.pmm, heap.pmm.bitmap, heap.pmm.bitmap.bytes, heap.pmm.refs
      ensures Valid() && ViewOk(Now()) && Step(old(Now()), op, r, Now())
    {
      r := 0;
      match op {
        case Malloc(size) => r := DoMalloc(size);
        case Release(ptr) => r := DoRelease(ptr);
        case Store(ptr, k, v) => DoStore(ptr, k, v);
      }
    }

    /** After any run, every word of every block in use is what its owner last stored there. */
    method Run(ops: seq<Op>) returns (rs: seq<nat>, ghost trace: seq<View>)
      requires Valid() && forall op :: op in ops && op.Malloc? ==> op.size < WRAP
      modifies this, heap, heap.pmm, heap.pmm.bitmap, heap.pmm.bitmap.bytes, heap.pmm.refs
      ensures Valid() && IsRun(ops, rs, trace) && trace[0] == old(Now()) && trace[|ops|] == Now()
    {
      rs, trace := [], [Now()];
      for i := 0 to |ops|
        invariant Valid() && IsRun(ops[..i], rs, trace) && trace[0] == old(Now()) && trace[i] == Now()
      {
        assert ops[i] in ops;
        var r := Do(ops[i]);
        RunLonger(ops, rs, trace, i, r, Now());
        rs, trace := rs + [r], trace + [Now()];
      }
      assert ops[..|ops|] == ops;
    }
  }
}
