/** What the two xHCI rings of kernel/drivers/usb/xhci/ring.c have in common: slots of four words, written one word at a
    time, that a cycle bit marks as new (section 4.9.2 of the xHCI specification). */
module TrbRings {

  /** The four words of a TRB. */
  datatype Trb = Trb(w0: nat, w1: nat, w2: nat, w3: nat)

  /** `(w3 >> 10) & 0x3F`, the cycle bit shifted out first. */
  function TypeOf(w3: nat): nat {
    w3 / 2 / 512 % 64
  }

  /** `(w & ~1) | c` */
  function WithCycle(w: nat, c: nat): (r: nat)
    requires c <= 1
    ensures r % 2 == c && r / 2 == w / 2 && TypeOf(r) == TypeOf(w)
  {
    w - w % 2 + c
  }

  /** The TRB without its cycle bit. */
  function Plain(t: Trb): Trb {
    t.(w3 := WithCycle(t.w3, 0))
  }

  /** The writer is at slot `enq` of `n` and has written `items`; `c` is the cycle bit of its lap. */
  ghost predicate AtSlot(n: nat, items: seq<Trb>, c: nat, enq: nat) {
    c <= 1 && enq <= n <= 256 && (if enq == |items| then c == 1 else enq + n <= |items|)
  }

  /** Slot `s`: written in this lap, in the one before, or never.  While `pc` is not 0 the slot at `enq` is being written. */
  ghost predicate SlotOk(n: nat, ring: seq<nat>, items: seq<Trb>, c: nat, enq: nat, pc: nat, s: nat)
    requires |ring| == 1024 && s < n && AtSlot(n, items, c, enq)
  {
    if s >= enq && enq == |items| then ring[4 * s + 3] == 0 else
      var t := if s < enq then items[|items| - enq + s] else items[|items| - enq - n + s];
      && ring[4 * s + 3] == WithCycle(t.w3, if s < enq then c else 1 - c)
      && (!(pc > 0 && s == enq) ==> ring[4 * s] == t.w0 && ring[4 * s + 1] == t.w1 && ring[4 * s + 2] == t.w2)
  }

  ghost predicate SlotsOk(n: nat, ring: seq<nat>, items: seq<Trb>, c: nat, enq: nat, pc: nat) {
    && |ring| == 1024 && AtSlot(n, items, c, enq)
    && (forall s: nat {:trigger SlotOk(n, ring, items, c, enq, pc, s)} :: s < n ==> SlotOk(n, ring, items, c, enq, pc, s))
    && forall k :: 0 <= k < |items| ==> items[k].w3 % 2 == 0
  }

  /** The words of the TRB in progress that are already in memory. */
  ghost predicate PartOk(ring: seq<nat>, enq: nat, pc: nat, t: Trb)
    requires |ring| == 1024 && enq <= 255
  {
    && (pc >= 2 ==> ring[4 * enq] == t.w0) && (pc >= 3 ==> ring[4 * enq + 1] == t.w1)
    && (pc >= 4 ==> ring[4 * enq + 2] == t.w2)
  }

  lemma BeginWrite(n: nat, ring: seq<nat>, items: seq<Trb>, c: nat, enq: nat)
    requires SlotsOk(n, ring, items, c, enq, 0)
    ensures SlotsOk(n, ring, items, c, enq, 1)
  {
    forall s: nat | s < n ensures SlotOk(n, ring, items, c, enq, 1, s) { assert SlotOk(n, ring, items, c, enq, 0, s); }
  }

  /** Writing one of the first three words of the TRB in progress. */
  lemma FieldWritten(n: nat, ring: seq<nat>, items: seq<Trb>, c: nat, enq: nat, pc: nat, at: nat, w: nat)
    requires SlotsOk(n, ring, items, c, enq, pc) && enq < n && pc > 0 && 4 * enq <= at < 4 * enq + 3
    ensures SlotsOk(n, ring[at := w], items, c, enq, pc + 1)
  {
    var ring', pc' := ring[at := w], pc + 1;
    forall s: nat | s < n ensures SlotOk(n, ring', items, c, enq, pc', s) {
      assert SlotOk(n, ring, items, c, enq, pc, s);
      assert at != 4 * s + 3 && ring'[4 * s + 3] == ring[4 * s + 3];
      if s != enq { assert ring'[4 * s] == ring[4 * s] && ring'[4 * s + 1] == ring[4 * s + 1] && ring'[4 * s + 2] == ring[4 * s + 2]; }
    }
  }

  /** Writing the last word of a TRB whose other words are in place. */
  lemma LastWritten(n: nat, ring: seq<nat>, items: seq<Trb>, c: nat, enq: nat, t: Trb)
    requires SlotsOk(n, ring, items, c, enq, 4) && enq < n && PartOk(ring, enq, 4, t)
    ensures SlotsOk(n, ring[4 * enq + 3 := WithCycle(t.w3, c)], items + [Plain(t)], c, enq + 1, 0)
  {
    var w := WithCycle(t.w3, c);
    var ring', items', enq' := ring[4 * enq + 3 := w], items + [Plain(t)], enq + 1;
    assert w == WithCycle(Plain(t).w3, c);
    forall s: nat | s < n ensures SlotOk(n, ring', items', c, enq', 0, s) {
      assert SlotOk(n, ring, items, c, enq, 4, s);
      if s == enq { assert items'[|items'| - enq' + s] == Plain(t); }
    }
  }

  /** A full lap is the start of the next. */
  lemma LapDone(n: nat, ring: seq<nat>, items: seq<Trb>, c: nat)
    requires SlotsOk(n, ring, items, c, n, 0) && n > 0
    ensures SlotsOk(n, ring, items, 1 - c, 0, 0)
  {
    var c' := 1 - c;
    forall s: nat | s < n ensures SlotOk(n, ring, items, c', 0, 0, s) { assert SlotOk(n, ring, items, c, n, 0, s); }
  }

  /** The words outside the slots play no part. */
  lemma SlotsApart(n: nat, ring: seq<nat>, items: seq<Trb>, c: nat, enq: nat, pc: nat, at: nat, w: nat)
    requires SlotsOk(n, ring, items, c, enq, pc) && 4 * n <= at < 1024
    ensures SlotsOk(n, ring[at := w], items, c, enq, pc)
  {
    var ring' := ring[at := w];
    forall s: nat | s < n ensures SlotOk(n, ring', items, c, enq, pc, s) { assert SlotOk(n, ring, items, c, enq, pc, s); }
  }

  /** The reader, with cycle bit `b` and at slot `deq`, has taken the first `taken` items: it is in the writer's lap, not
      past the writer, or in the lap before, not behind it. */
  ghost predicate InStep(n: nat, items: seq<Trb>, taken: nat, c: nat, enq: nat, b: nat, deq: nat) {
    if b == c then deq <= enq && taken == |items| - enq + deq
    else b == 1 - c && enq <= deq <= n && enq + n <= |items| && taken == |items| - enq - n + deq
  }

  /** In its slot the reader sees exactly the next TRB it has not taken, and it sees it whole. */
  lemma SeesNext(n: nat, ring: seq<nat>, items: seq<Trb>, taken: nat, c: nat, enq: nat, pc: nat, b: nat, deq: nat)
    requires SlotsOk(n, ring, items, c, enq, pc) && InStep(n, items, taken, c, enq, b, deq) && deq < n
    requires taken <= |items| && (pc > 0 ==> |items| - taken < n)
    ensures ring[4 * deq + 3] % 2 == b <==> taken < |items|
    ensures taken < |items| ==> Trb(ring[4 * deq], ring[4 * deq + 1], ring[4 * deq + 2], WithCycle(ring[4 * deq + 3], 0)) == items[taken]
  {
    ghost var s := deq;
    assert SlotOk(n, ring, items, c, enq, pc, s);
  }
}
