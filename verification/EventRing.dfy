/** The xHCI event ring (kernel/drivers/usb/xhci/ring.c): 256 slots and no Link TRB, written by the controller one word
    at a time and read by the driver in between (section 4.9.4 of the xHCI specification). */
module EventRings {

  import opened TrbRings

  const EVENTS: nat := 256
  const COMPLETION: nat := 33

  /** What the controller does next: start an event, or write its next word. */
  datatype Act = Post(ev: Trb) | Put

  /** What the controller does while the driver polls once: before the driver reads word 3, and if there is an event, before
      it reads words 1, 0 and 2 and before it stores the dequeue pointer. */
  datatype Turn = Turn(word3: seq<Act>, word1: seq<Act>, word0: seq<Act>, word2: seq<Act>, pointer: seq<Act>)

  /** A completion event for the command TRB at `trb`. */
  predicate Completes(e: Trb, trb: nat) {
    TypeOf(e.w3) == COMPLETION && e.w1 * 0x1_0000_0000 + e.w0 == trb
  }

  /** Among the events `from .. to` none completes the command. */
  ghost predicate NoneDone(events: seq<Trb>, from: nat, to: int, trb: nat) {
    to <= |events| && forall k :: from <= k < to ==> !Completes(events[k], trb)
  }

  lemma NoneMore(was: seq<Trb>, events: seq<Trb>, from: nat, trb: nat)
    requires was <= events && |events| <= |was| + 1 && NoneDone(was, from, |was|, trb)
    ensures NoneDone(events, from, |was|, trb)
    ensures |events| > |was| && !Completes(events[|was|], trb) ==> NoneDone(events, from, |events|, trb)
  {
    forall k | from <= k < |was| ensures !Completes(events[k], trb) { assert events[k] == was[k]; }
  }

  // ----- the ring as a bounded queue -----

  /** The events posted and received, and the one being written. */
  datatype Queue = Queue(posted: seq<Trb>, received: seq<Trb>, pc: nat, ev: Trb) {
    /** The controller leaves one slot empty and never posts type 0; the fourth word posts the event. */
    function Step(a: Act): Queue {
      match a
      case Post(e) => if pc == 0 && TypeOf(e.w3) != 0 && |posted| - |received| < EVENTS - 1 then this.(pc := 1, ev := e) else this
      case Put =>
        if 1 <= pc <= 3 then this.(pc := pc + 1)
        else if pc == 4 then this.(pc := 0, posted := posted + [Plain(ev)]) else this
    }

    /** The driver receives the next event, if there is one. */
    function Receive(): Queue {
      if |received| < |posted| then this.(received := received + [posted[|received|]]) else this
    }
  }

  ghost function Steps(q: Queue, acts: seq<Act>): Queue {
    if acts == [] then q else Steps(q, acts[..|acts| - 1]).Step(acts[|acts| - 1])
  }

  /** One poll among steps of the controller: what counts is whether an event is there when the driver reads word 3. */
  ghost function Turned(q: Queue, t: Turn): Queue {
    var seen := Steps(q, t.word3);
    if |seen.received| < |seen.posted| then Later(seen, t).Receive() else seen
  }

  ghost function Later(q: Queue, t: Turn): Queue {
    Steps(Steps(Steps(Steps(q, t.word1), t.word0), t.word2), t.pointer)
  }

  ghost function Rounds(q: Queue, turns: seq<Turn>): Queue {
    if turns == [] then q else Turned(Rounds(q, turns[..|turns| - 1]), turns[|turns| - 1])
  }

  lemma LaterGrows(q: Queue, t: Turn)
    ensures q.posted <= Later(q, t).posted && Later(q, t).received == q.received
  {
    var a := Steps(q, t.word1);
    var b := Steps(a, t.word0);
    var c := Steps(b, t.word2);
    StepsGrow(q, t.word1);
    StepsGrow(a, t.word0);
    StepsGrow(b, t.word2);
    StepsGrow(c, t.pointer);
  }

  lemma TurnGrows(q: Queue, t: Turn)
    ensures q.posted <= Turned(q, t).posted && q.received <= Turned(q, t).received && |Turned(q, t).received| <= |q.received| + 1
    ensures Turned(q, t).received == q.received ==> |Turned(q, t).posted| <= |q.received|
  {
    StepsGrow(q, t.word3);
    LaterGrows(Steps(q, t.word3), t);
  }

  /** The completion code of an event. */
  function CodeOf(e: Trb): nat {
    e.w2 / 0x100_0000 % 256
  }

  /** How a wait ends: with the code of the last event received, if that completes the command, or else with 0xFF after all
      polls; no event before it completes the command. */
  ghost predicate Ended(received: seq<Trb>, from: nat, trb: nat, cc: nat, all: bool) {
    && NoneDone(received, from, |received| - 1, trb)
    && if |received| > from && Completes(received[|received| - 1], trb) then cc == CodeOf(received[|received| - 1]) else cc == 0xFF && all
  }

  lemma NotTheLast(received: seq<Trb>, from: nat, trb: nat)
    requires from <= |received| && NoneDone(received, from, |received|, trb)
    ensures Ended(received, from, trb, 0xFF, true)
  {
  }

  lemma RoundsNext(q: Queue, turns: seq<Turn>, i: nat)
    requires i < |turns|
    ensures Rounds(q, turns[..i + 1]) == Turned(Rounds(q, turns[..i]), turns[i])
  {
    assert turns[..i + 1][..i] == turns[..i];
  }

  lemma {:induction false} StepsGrow(q: Queue, acts: seq<Act>)
    ensures q.posted <= Steps(q, acts).posted && Steps(q, acts).received == q.received
  {
    if acts != [] { StepsGrow(q, acts[..|acts| - 1]); }
  }

  class EventRing {
    const ring: array<nat>

    // the controller
    var enq: nat
    var pcs: nat
    var pc: nat
    var ev: Trb

    // the driver
    var idx: nat
    var cycle: nat
    /** The dequeue index the driver last reported. */
    var erdp: nat

    ghost var posted: seq<Trb>
    ghost var received: seq<Trb>

    ghost predicate Valid()
      reads this, ring
    {
      && ring.Length == 1024 && enq < EVENTS && idx < EVENTS && erdp == idx && pc <= 4
      && SlotsOk(EVENTS, ring[..], posted, pcs, enq, pc) && InStep(EVENTS, posted, |received|, pcs, enq, cycle, idx)
      && |received| <= |posted| && |posted| - |received| <= (if pc > 0 then EVENTS - 2 else EVENTS - 1)
      && received == posted[..|received|]
      && (forall k :: 0 <= k < |posted| ==> TypeOf(posted[k].w3) != 0)
      && (pc > 0 ==> TypeOf(ev.w3) != 0 && PartOk(ring[..], enq, pc, ev))
    }

    /** The ring as a queue. */
    ghost function Q(): Queue
      reads this
    {
      Queue(posted, received, pc, ev)
    }

    constructor ()
      ensures Valid() && Q() == Queue([], [], 0, Trb(0, 0, 0, 0)) && fresh(ring)
    {
      ring := new nat[1024](_ => 0);
      enq, pcs, pc, ev, idx, cycle, erdp := 0, 1, 0, Trb(0, 0, 0, 0), 0, 1, 0;
      posted, received := [], [];
    }

    // ----- the controller -----

    /** The controller leaves one slot empty before the reported dequeue index, and never posts type 0. */
    method Act(a: Act)
      requires Valid()
      modifies this`enq, this`pcs, this`pc, this`ev, this`posted, ring
      ensures Valid() && Q() == old(Q()).Step(a)
    {
      match a
      case Post(e) =>
        if pc == 0 && TypeOf(e.w3) != 0 && (enq + 1) % EVENTS != erdp { Start(e); }
      case Put =>
        if 1 <= pc <= 3 { PutField(); } else if pc == 4 { PutCycle(); }
    }

    method Start(e: Trb)
      requires Valid() && pc == 0 && TypeOf(e.w3) != 0 && (enq + 1) % EVENTS != erdp
      modifies this`pc, this`ev
      ensures Valid() && pc == 1 && ev == e
    {
      BeginWrite(EVENTS, ring[..], posted, pcs, enq);
      pc, ev := 1, e;
    }

    method PutField()
      requires Valid() && 1 <= pc <= 3
      modifies this`pc, ring
      ensures Valid() && pc == old(pc) + 1
    {
      ghost var was := ring[..];
      var w := if pc == 1 then ev.w0 else if pc == 2 then ev.w1 else ev.w2;
      ring[4 * enq + pc - 1] := w;
      pc := pc + 1;
      assert ring[..] == was[4 * enq + pc - 2 := w];
      FieldWritten(EVENTS, was, posted, pcs, enq, old(pc), 4 * enq + pc - 2, w);
    }

    /** The last word posts the event; after the last slot comes the first, with the other cycle bit. */
    method PutCycle()
      requires Valid() && pc == 4
      modifies this`enq, this`pcs, this`pc, this`posted, ring
      ensures Valid() && pc == 0 && posted == old(posted) + [Plain(ev)]
    {
      ghost var was := ring[..];
      LastWritten(EVENTS, was, posted, pcs, enq, ev);
      ring[4 * enq + 3] := WithCycle(ev.w3, pcs);
      assert ring[..] == was[4 * enq + 3 := WithCycle(ev.w3, pcs)];
      posted := posted + [Plain(ev)];
      enq, pc := enq + 1, 0;
      if enq >= EVENTS {
        LapDone(EVENTS, ring[..], posted, pcs);
        enq, pcs := 0, 1 - pcs;
      }
    }

    // ----- the driver -----

    /** In its slot the driver sees exactly the next event it has not received, whole. */
    lemma SeesEvent()
      requires Valid()
      ensures ring[4 * idx + 3] % 2 == cycle <==> |received| < |posted|
      ensures |received| < |posted| ==>
                && TypeOf(ring[4 * idx + 3]) != 0
                && Trb(ring[4 * idx], ring[4 * idx + 1], ring[4 * idx + 2], WithCycle(ring[4 * idx + 3], 0)) == posted[|received|]
    {
      SeesNext(EVENTS, ring[..], posted, |received|, pcs, enq, pc, cycle, idx);
      assert |received| < |posted| ==> TypeOf(posted[|received|].w3) == TypeOf(ring[4 * idx + 3]);
    }

    /** The test every polling loop makes. */
    predicate Pending()
      requires Valid()
      reads this, ring
    {
      TypeOf(ring[4 * idx + 3]) != 0 && ring[4 * idx + 3] % 2 == cycle
    }

    /** xhci_advance_event, which leaves behind the words the driver has read. */
    method Advance(e: nat)
      requires Valid() && e == idx && Pending()
      modifies this`idx, this`cycle, this`erdp, this`received
      ensures Valid() && Q() == old(Q()).Receive() && received != old(received)
    {
      SeesEvent();
      received := received + [Trb(ring[4 * e], ring[4 * e + 1], ring[4 * e + 2], WithCycle(ring[4 * e + 3], 0))];
      assert received == posted[..|received|];
      idx := e + 1;
      if idx >= EVENTS {
        idx := 0;
        cycle := 1 - cycle;
      }
      erdp := idx;
    }

    /** xhci_drain_events, with a controller that goes on meanwhile.  Everything posted before it is received, and it ends
        with the ring empty unless 256 events came. */
    method Drain(turns: seq<Turn>) returns (ghost n: nat)
      requires Valid() && |turns| == EVENTS
      modifies this, ring
      ensures Valid() && n <= EVENTS && Q() == Rounds(old(Q()), turns[..n])
      ensures old(posted) <= received && (received == posted || |received| == |old(received)| + EVENTS)
    {
      ghost var q := Q();
      n := 0;
      for i := 0 to EVENTS
        invariant Valid() && n == i && Q() == Rounds(q, turns[..i]) && |received| == |q.received| + i && q.posted <= posted
      {
        var got := DrainOne(q, turns, i);
        n := n + 1;
        if !got { break; }
      }
      assert q.posted == posted[..|q.posted|] && received == posted[..|received|];
    }

    method DrainOne(ghost q: Queue, turns: seq<Turn>, i: nat) returns (got: bool)
      requires Valid() && i < |turns| && Q() == Rounds(q, turns[..i]) && q.posted <= posted
      modifies this, ring
      ensures Valid() && Q() == Rounds(q, turns[..i + 1]) && q.posted <= posted
      ensures if got then |received| == |old(received)| + 1 else received == posted
    {
      TurnGrows(Q(), turns[i]);
      RoundsNext(q, turns, i);
      var event;
      got, event := Look(turns[i]);
    }

    /** The wait of xhci_send_command, with a controller that goes on meanwhile.  The wait ends with the first completion of
        this TRB, after `n` polls, or after the last poll. */
    method Await(trb: nat, turns: seq<Turn>) returns (cc: nat, ghost n: nat)
      requires Valid()
      modifies this, ring
      ensures Valid() && n <= |turns| && Q() == Rounds(old(Q()), turns[..n])
      ensures old(received) <= received && old(posted) <= posted
      ensures Ended(received, |old(received)|, trb, cc, n == |turns|)
    {
      ghost var q := Q();
      n := 0;
      for i := 0 to |turns|
        invariant Valid() && n == i && Q() == Rounds(q, turns[..i]) && q.received <= received && q.posted <= posted
        invariant NoneDone(received, |q.received|, |received|, trb)
      {
        var hit, c := Poll(trb, q, turns, i);
        n := n + 1;
        if hit { return c, n; }
      }
      NotTheLast(received, |q.received|, trb);
      return 0xFF, n;
    }

    /** One poll of the wait. */
    method Poll(trb: nat, ghost q: Queue, turns: seq<Turn>, i: nat) returns (hit: bool, cc: nat)
      requires Valid() && i < |turns| && Q() == Rounds(q, turns[..i]) && q.received <= received && q.posted <= posted
      requires NoneDone(received, |q.received|, |received|, trb)
      modifies this, ring
      ensures Valid() && Q() == Rounds(q, turns[..i + 1]) && q.received <= received && q.posted <= posted
      ensures if hit then forall all :: Ended(received, |q.received|, trb, cc, all) else NoneDone(received, |q.received|, |received|, trb)
    {
      TurnGrows(Q(), turns[i]);
      RoundsNext(q, turns, i);
      var got, event := Look(turns[i]);
      NoneMore(old(received), received, |q.received|, trb);
      if !got { return false, 0xFF; }
      return Completes(event, trb), CodeOf(event);
    }

    /** One poll, word by word: an event that is there when word 3 is read is received whole, whatever the controller writes
        in between. */
    method Look(t: Turn) returns (got: bool, event: Trb)
      requires Valid()
      modifies this, ring
      ensures Valid() && Q() == Turned(old(Q()), t)
      ensures got <==> received != old(received)
      ensures got ==> received == old(received) + [event]
    {
      StepsGrow(Q(), t.word3);
      ActAll(t.word3);
      var e, w3 := idx, ring[4 * idx + 3];
      SeesEvent();
      if !Pending() { return false, Trb(0, 0, 0, 0); }
      ghost var q := Q();
      LaterGrows(q, t);
      ghost var next := posted[|received|];
      assert WithCycle(w3, 0) == next.w3;
      GoOn(t.word1);
      var w1 := ring[4 * e + 1];
      assert w1 == next.w1;
      GoOn(t.word0);
      var w0 := ring[4 * e];
      assert w0 == next.w0;
      GoOn(t.word2);
      var w2 := ring[4 * e + 2];
      assert w2 == next.w2;
      GoOn(t.pointer);
      assert Q() == Later(q, t);
      event := Trb(w0, w1, w2, WithCycle(w3, 0));
      assert event == next;
      Advance(e);
      got := true;
    }

    /** Steps of the controller while an event waits: the driver's slot goes on showing it. */
    method GoOn(acts: seq<Act>)
      requires Valid() && |received| < |posted|
      modifies this`enq, this`pcs, this`pc, this`ev, this`posted, ring
      ensures Valid() && Q() == Steps(old(Q()), acts)
      ensures |received| < |posted| && posted[|received|] == old(posted)[|received|] && Pending()
      ensures Trb(ring[4 * idx], ring[4 * idx + 1], ring[4 * idx + 2], WithCycle(ring[4 * idx + 3], 0)) == posted[|received|]
    {
      StepsGrow(Q(), acts);
      ActAll(acts);
      SeesEvent();
    }

    method ActAll(acts: seq<Act>)
      requires Valid()
      modifies this`enq, this`pcs, this`pc, this`ev, this`posted, ring
      ensures Valid() && Q() == Steps(old(Q()), acts)
    {
      ghost var q := Q();
      for i := 0 to |acts|
        invariant Valid() && Q() == Steps(q, acts[..i])
      {
        Act(acts[i]);
        assert acts[..i + 1][..i] == acts[..i];
      }
      assert acts[..|acts|] == acts;
    }
  }
}
