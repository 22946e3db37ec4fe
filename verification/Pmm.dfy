/** Physical page frames (kernel/mm/pmm.c).

    Frames are named by page frame number (physical address / 4096), so 0 is the C
    code's failure result.  The packed bitmap and the reference counts are updated in
    place.  Clients reason about `Free()` (indices whose bit is clear) and the ghost
    field `counts` (the frames handed out, with their reference counts). */
module Pmm {
  import opened Bits

  const MAX_PAGES: nat := 1048576

  /** Indices `s .. s+n` all lie in `free`. */
  ghost predicate IsRun(free: set<nat>, s: nat, n: nat) {
    forall i :: s <= i < s + n ==> i in free
  }

  /** `free'` is `free` without the indices `s .. s+n`. */
  ghost predicate RunTaken(free: set<nat>, free': set<nat>, s: nat, n: nat) {
    forall i :: i in free' <==> i in free && !(s <= i < s + n)
  }

  /** `c'` is `c` plus one reference for each of the new frames `p .. p+n`. */
  ghost predicate RunCounted(c: map<nat, nat>, c': map<nat, nat>, p: nat, n: nat) {
    && (forall q :: q in c ==> !(p <= q < p + n))
    && (forall q :: q in c' <==> q in c || p <= q < p + n)
    && (forall q :: q in c' ==> c'[q] == if q in c then c[q] else 1)
  }

  /** One reference fewer; the last one removes the entry. */
  ghost function Drop(counts: map<nat, nat>, p: nat): map<nat, nat> {
    if p !in counts then counts
    else if counts[p] > 1 then counts[p := counts[p] - 1] else counts - {p}
  }

  /** One entry of the boot memory map, in bytes. */
  datatype Region = Region(base: nat, length: nat, usable: bool) {
    function First(): nat { (base + 4095) / 4096 }
    function End(): nat { (base + length) / 4096 }

    /** This entry makes bitmap index `i` available when index 0 is frame `origin`. */
    predicate Covers(i: nat, origin: nat) {
      usable && i < MAX_PAGES && First() <= origin + i < End()
    }
  }

  /** One of the first `k` entries makes index `i` available. */
  ghost predicate Covered(regions: seq<Region>, k: nat, origin: nat, i: nat)
    requires k <= |regions|
  {
    exists j :: 0 <= j < k && regions[j].Covers(i, origin)
  }

  /** The first `k` entries list no frame twice. */
  ghost predicate Disjoint(regions: seq<Region>, k: nat, origin: nat)
    requires k <= |regions|
  {
    forall j, i: nat :: 0 <= j < k && regions[j].Covers(i, origin) ==> !Covered(regions, j, origin, i)
  }

  /** The first frame of the lowest usable entry, or the C code's all-ones start value. */
  method LowestFrame(regions: seq<Region>) returns (lowest: nat)
    ensures forall r :: r in regions && r.usable ==> lowest <= r.First()
    ensures lowest == 0 ==> exists r :: r in regions && r.usable && r.First() == 0
  {
    lowest := 0xF_FFFF_FFFF_FFFF;
    for i := 0 to |regions|
      invariant forall k :: 0 <= k < i && regions[k].usable ==> lowest <= regions[k].First()
      invariant lowest == 0 ==> exists r :: r in regions && r.usable && r.First() == 0
    {
      if regions[i].usable && regions[i].First() < lowest {
        assert regions[i] in regions;
        lowest := regions[i].First();
      }
    }
  }

  class FrameAllocator {
    const base: nat                 // pages_base as a page frame number
    const bitmap: Bitmap
    const refs: array<nat>          // uint8_t page_refs[]
    var pagesFree: nat
    var lastScan: nat
    ghost var counts: map<nat, nat>
    ghost var managed: set<nat>     // indices that are clear or handed out; the rest is reserved

    ghost function Free(): set<nat>
      reads bitmap
    {
      bitmap.clear
    }

    ghost predicate Valid()
      reads this, bitmap, bitmap.bytes, refs
    {
      && base > 0
      && bitmap.Valid() && bitmap.size == MAX_PAGES
      && refs.Length == MAX_PAGES
      && lastScan <= MAX_PAGES
      && (forall i: nat :: i < MAX_PAGES ==> refs[i] <= 255)
      && (forall i :: i in bitmap.clear ==> refs[i] == 0)
      && (forall p :: p in counts <==> base <= p < base + MAX_PAGES && refs[p - base] > 0)
      && (forall p :: p in counts ==> counts[p] == refs[p - base])
      && (forall i: nat {:trigger i in managed} :: i in managed <==> i < MAX_PAGES && (i in bitmap.clear || refs[i] > 0))
      && pagesFree == |bitmap.clear|
    }

    /** `pmm_init`: the state is consistent exactly when the memory map lists no frame twice,
        because `pages_total` is counted per listing. */
    constructor (regions: seq<Region>)
      requires forall r :: r in regions && r.usable ==> r.First() > 0
      ensures fresh(bitmap) && fresh(bitmap.bytes) && fresh(refs)
      ensures Valid() <==> Disjoint(regions, |regions|, base)
      ensures counts == map[] && forall i :: i in Free() <==> Covered(regions, |regions|, base, i)
    {
      var lowest := LowestFrame(regions);
      base := lowest;
      bitmap := new Bitmap(MAX_PAGES / 8);
      refs := new nat[MAX_PAGES](_ => 0);
      pagesFree, lastScan := 0, 0;
      counts, managed := map[], {};
      new;
      var total := 0;
      for k := 0 to |regions|
        invariant bitmap.Valid() && total >= |bitmap.clear|
        invariant forall i :: i in bitmap.clear <==> Covered(regions, k, base, i)
        invariant total == |bitmap.clear| <==> Disjoint(regions, k, base)
        invariant lastScan == 0 && counts == map[] && forall i :: 0 <= i < MAX_PAGES ==> refs[i] == 0
      {
        total := ClearRegion(regions[k], total);
      }
      pagesFree := total;
      managed := bitmap.clear;
    }

    /** Make the frames of one usable entry available, counting each listing. */
    method ClearRegion(r: Region, total: nat) returns (total': nat)
      requires bitmap.Valid() && bitmap.size == MAX_PAGES && total >= |bitmap.clear|
      requires r.usable ==> base <= r.First()
      modifies bitmap, bitmap.bytes
      ensures bitmap.Valid() && total' >= |bitmap.clear|
      ensures forall i :: i in bitmap.clear <==> i in old(bitmap.clear) || r.Covers(i, base)
      ensures total' == |bitmap.clear| <==>
              total == |old(bitmap.clear)| && forall i :: i in old(bitmap.clear) ==> !r.Covers(i, base)
    {
      total' := total;
      if !r.usable || r.End() < r.First() {
        assert bitmap.clear == old(bitmap.clear);
        return;
      }
      var p := r.First();
      while p < r.End()
        invariant r.First() <= p <= r.End()
        invariant bitmap.Valid() && total' >= |bitmap.clear|
        invariant forall i :: i in bitmap.clear <==> i in old(bitmap.clear) || (r.Covers(i, base) && base + i < p)
        invariant total' == |bitmap.clear| <==>
                  total == |old(bitmap.clear)| && forall i :: i in old(bitmap.clear) && base + i < p ==> !r.Covers(i, base)
      {
        if p - base < MAX_PAGES {
          ghost var c := bitmap.clear;
          bitmap.Set(p - base, false);
          assert p - base in c ==> bitmap.clear == c;
          total' := total' + 1;
        }
        p := p + 1;
      }
    }

    /** The three assignments shared by every successful allocation. */
    method Take(i: nat)
      requires Valid() && i in Free()
      modifies this`pagesFree, this`counts, bitmap`clear, bitmap.bytes, refs
      ensures Valid()
      ensures base + i !in old(counts) && counts == old(counts)[base + i := 1]
      ensures Free() == old(Free()) - {i}
    {
      bitmap.Set(i, true);
      refs[i] := 1;
      pagesFree := pagesFree - 1;
      counts := counts[base + i := 1];
    }

    /** First clear bit at or after the hint, else first clear bit before it. */
    method AllocPage() returns (pfn: nat)
      requires Valid()
      modifies this, bitmap, bitmap.bytes, refs
      ensures Valid()
      ensures managed == old(managed)
      ensures pfn == 0 <==> old(Free()) == {}
      ensures pfn == 0 ==> Free() == old(Free()) && counts == old(counts)
      ensures pfn != 0 ==>
                && InRange(pfn) && pfn - base in old(Free()) && Free() == old(Free()) - {pfn - base}
                && pfn !in old(counts) && counts == old(counts)[pfn := 1]
    {
      var i := FirstClear(lastScan, MAX_PAGES);
      if i == MAX_PAGES {
        i := FirstClear(0, lastScan);
        if i == lastScan {
          assert forall j :: j in Free() ==> false;
          return 0;
        }
      }
      Take(i);
      lastScan := i + 1;
      return base + i;
    }

    method FirstClear(lo: nat, hi: nat) returns (i: nat)
      requires Valid() && lo <= hi <= MAX_PAGES
      ensures lo <= i <= hi
      ensures forall j :: lo <= j < i ==> j !in Free()
      ensures i < hi ==> i in Free()
    {
      i := lo;
      while i < hi
        invariant lo <= i <= hi
        invariant forall j :: lo <= j < i ==> j !in Free()
      {
        var used := bitmap.Get(i);
        if !used { return; }
        i := i + 1;
      }
    }

    /** The lowest run of `count` clear bits, when `count` is at least two. */
    method AllocPages(count: nat) returns (pfn: nat)
      requires Valid()
      modifies this, bitmap, bitmap.bytes, refs
      ensures Valid() && managed == old(managed)
      ensures pfn == 0 ==> Free() == old(Free()) && counts == old(counts)
      ensures pfn != 0 ==>
                && count > 0 && base <= pfn && pfn + count <= base + MAX_PAGES
                && IsRun(old(Free()), pfn - base, count)
                && RunTaken(old(Free()), Free(), pfn - base, count)
                && RunCounted(old(counts), counts, pfn, count)
      ensures count == 0 ==> pfn == 0
      ensures count == 1 ==> (pfn == 0 <==> old(Free()) == {})
      ensures count >= 2 && pfn == 0 ==> forall s: nat :: !IsRun(old(Free()), s, count)
      ensures count >= 2 && pfn != 0 ==> forall s: nat :: s < pfn - base ==> !IsRun(old(Free()), s, count)
    {
      if count == 0 { return 0; }
      if count == 1 {
        pfn := AllocPage();
        return;
      }
      var start, found := FirstRun(count);
      if !found { return 0; }
      TakeRun(start, count);
      lastScan := start + count;
      return base + start;
    }

    method FirstRun(count: nat) returns (start: nat, found: bool)
      requires Valid() && count > 0
      ensures found ==> start + count <= MAX_PAGES && IsRun(Free(), start, count)
      ensures forall s: nat :: !found || s < start ==> !IsRun(Free(), s, count)
    {
      var run := 0;
      start := 0;
      var i := 0;
      while i < MAX_PAGES
        invariant 0 <= i <= MAX_PAGES && 0 <= run < count
        invariant run > 0 ==> start + run == i && IsRun(Free(), start, run)
        invariant run > 0 ==> start == 0 || start - 1 !in Free()
        invariant run == 0 ==> i == 0 || i - 1 !in Free()
        invariant forall s: nat :: s + count <= i ==> !IsRun(Free(), s, count)
      {
        var used := bitmap.Get(i);
        if !used {
          if run == 0 { start := i; }
          run := run + 1;
          if start > 0 { RunsAcrossBroken(Free(), start - 1, count); }
          if run >= count { return start, true; }
        } else {
          RunsAcrossBroken(Free(), i, count);
          run := 0;
        }
        i := i + 1;
      }
      found := false;
      forall s: nat ensures !IsRun(Free(), s, count) {
        if s + count > MAX_PAGES { assert s + count - 1 !in Free(); }
      }
    }

    /** No run reaches across a used index. */
    static lemma RunsAcrossBroken(free: set<nat>, used: nat, count: nat)
      requires used !in free && count > 0
      ensures forall s: nat :: s <= used < s + count ==> !IsRun(free, s, count)
    {
      forall s: nat | s <= used < s + count ensures !IsRun(free, s, count) {
        assert used !in free;
      }
    }

    method TakeRun(start: nat, count: nat)
      requires Valid() && IsRun(Free(), start, count) && start + count <= MAX_PAGES
      modifies this`pagesFree, this`counts, bitmap`clear, bitmap.bytes, refs
      ensures Valid()
      ensures RunTaken(old(Free()), Free(), start, count)
      ensures RunCounted(old(counts), counts, base + start, count)
    {
      var j := start;
      while j < start + count
        invariant start <= j <= start + count && Valid()
        invariant RunTaken(old(Free()), Free(), start, j - start)
        invariant RunCounted(old(counts), counts, base + start, j - start)
      {
        Take(j);
        j := j + 1;
      }
    }

    /** The index `(phys - pages_base) / PAGE_SIZE` is inside the bitmap; below `pages_base`
        the unsigned subtraction wraps to an index that is not. */
    predicate InRange(pfn: nat) {
      base <= pfn < base + MAX_PAGES
    }

    /** Drops one reference; with the last one (or for a reserved frame, which has none) the bit is
        cleared.  Out of range or already free, nothing changes. */
    method FreePage(pfn: nat)
      requires Valid()
      modifies this, bitmap, bitmap.bytes, refs
      ensures Valid()
      ensures pfn in old(counts) ==> managed == old(managed)
      ensures counts == Drop(old(counts), pfn)
      ensures Free() == if InRange(pfn) && !(pfn in old(counts) && old(counts)[pfn] > 1)
                        then old(Free()) + {pfn - base} else old(Free())
    {
      if !InRange(pfn) { return; }
      var i := pfn - base;
      assert pfn in counts <==> refs[i] > 0;
      var used := bitmap.Get(i);
      if !used {
        assert Free() + {i} == Free();
        return;
      }
      if refs[i] > 1 {
        SetRefs(i, refs[i] - 1);
      } else {
        assert refs[i] > 0 ==> i in managed && managed + {i} == managed;
        assert counts - {pfn} == Drop(counts, pfn);
        Release(i);
        if i < lastScan { lastScan := i; }
      }
    }

    method SetRefs(i: nat, n: nat)
      requires Valid() && i < MAX_PAGES && refs[i] > 0 && 0 < n <= 255
      modifies this`counts, refs
      ensures Valid() && counts == old(counts)[base + i := n]
    {
      refs[i] := n;
      counts := counts[base + i := n];
    }

    method Release(i: nat)
      requires Valid() && i < MAX_PAGES && i !in Free() && refs[i] <= 1
      modifies this`pagesFree, this`counts, this`managed, bitmap`clear, bitmap.bytes, refs
      ensures Valid()
      ensures counts == old(counts) - {base + i}
      ensures managed == old(managed) + {i}
      ensures Free() == old(Free()) + {i}
    {
      refs[i] := 0;
      bitmap.Set(i, false);
      pagesFree := pagesFree + 1;
      counts := counts - {base + i};
      managed := managed + {i};
    }

    /** pmm_free_pages over frames with a single reference each. */
    method FreePages(pfn: nat, count: nat)
      requires Valid() && forall p :: pfn <= p < pfn + count ==> p in counts && counts[p] == 1
      modifies this, bitmap, bitmap.bytes, refs
      ensures Valid() && managed == old(managed)
      ensures forall p :: p in counts <==> p in old(counts) && !(pfn <= p < pfn + count)
      ensures forall p :: p in counts ==> counts[p] == old(counts)[p]
    {
      for i := 0 to count
        invariant Valid() && managed == old(managed)
        invariant forall p :: p in counts <==> p in old(counts) && !(pfn <= p < pfn + i)
        invariant forall p :: p in counts ==> counts[p] == old(counts)[p]
      {
        FreePage(pfn + i);
      }
    }

    /** Of the managed frames, exactly those without a count are free. */
    lemma FreeIsUncounted()
      requires Valid()
      ensures forall i :: i in Free() <==> i in managed && base + i !in counts
    {
      forall i ensures i in Free() <==> i in managed && base + i !in counts { }
    }

    lemma CountedIsManaged()
      requires Valid()
      ensures forall p :: p in counts ==> p >= base && p - base in managed
    {
      forall p | p in counts ensures p >= base && p - base in managed { }
    }

    /** Saturates at 255. */
    method IncRef(pfn: nat)
      requires Valid() && (InRange(pfn) ==> pfn in counts)
      modifies this`counts, refs
      ensures Valid()
      ensures counts == if pfn !in old(counts) || old(counts)[pfn] == 255 then old(counts)
                        else old(counts)[pfn := old(counts)[pfn] + 1]
    {
      if !InRange(pfn) { return; }
      if refs[pfn - base] < 255 {
        SetRefs(pfn - base, refs[pfn - base] + 1);
      }
    }

    method GetRefcount(pfn: nat) returns (r: nat)
      requires Valid()
      ensures r == if pfn in counts then counts[pfn] else 0
    {
      if !InRange(pfn) { return 0; }
      r := refs[pfn - base];
    }
  }
}
