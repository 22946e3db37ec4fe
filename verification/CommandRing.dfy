/** The xHCI command ring (kernel/drivers/usb/xhci/ring.c): 255 command slots and a Link TRB, written by the driver one
    word at a time and read by the controller in between (sections 4.9.3 and 4.11.5.1 of the xHCI specification). */
module CommandRings {

  import opened TrbRings

  /** Slots before the Link TRB. */
  const SLOTS: nat := 255
  const LINK_TYPE: nat := 6

  /** `w ^ 1` */
  function Flip(w: nat): (r: nat)
    ensures r % 2 == 1 - w % 2 && r / 2 == w / 2
  {
    if w % 2 == 0 then w + 1 else w - 1
  }

  /** What happens next: the driver starts a call, writes its next word, or the controller reads. */
  datatype Move = Call(cmd: Trb) | Write | Read

  // ----- the ring as a bounded queue -----

  /** The commands issued and taken, and the call in progress: `pc` is 0 between calls, otherwise the next word to write
      plus one.  `atLink` says that the controller has still to follow the Link TRB. */
  datatype Queue = Queue(issued: seq<Trb>, consumed: seq<Trb>, pc: nat, cmd: Trb, atLink: bool) {
    /** A call is made between calls, with a command that is not a Link, while fewer than 255 are outstanding. */
    predicate Accepts(m: Move) {
      m.Call? && pc == 0 && TypeOf(m.cmd.w3) != LINK_TYPE && |issued| - |consumed| < SLOTS
    }

    /** The commands issued, with the one being written. */
    function InFlight(): seq<Trb> {
      if pc > 0 then issued + [Plain(cmd)] else issued
    }

    /** The fourth word issues the command.  The controller takes the next command or, at the end of a lap, follows the
        Link TRB once the next call has begun. */
    function Step(m: Move): Queue {
      match m
      case Call(c) => if Accepts(m) then this.(pc := 1, cmd := c) else this
      case Write =>
        if 1 <= pc <= 3 then this.(pc := pc + 1)
        else if pc == 4 then this.(pc := 0, issued := issued + [Plain(cmd)]) else this
      case Read =>
        if atLink then this.(atLink := |consumed| >= |issued| && pc == 0)
        else if |consumed| < |issued| then
          this.(consumed := consumed + [issued[|consumed|]], atLink := (|consumed| + 1) % SLOTS == 0)
        else this
    }
  }

  ghost function Play(q: Queue, moves: seq<Move>): Queue {
    if moves == [] then q else Play(q, moves[..|moves| - 1]).Step(moves[|moves| - 1])
  }

  /** The commands of the calls that are made, in order. */
  ghost function Accepted(q: Queue, moves: seq<Move>): seq<Trb> {
    if moves == [] then []
    else
      var before, m := Play(q, moves[..|moves| - 1]), moves[|moves| - 1];
      Accepted(q, moves[..|moves| - 1]) + if before.Accepts(m) then [Plain(m.cmd)] else []
  }

  /** Commands are issued in the order of the calls, each once and whole. */
  lemma {:induction false} IssuedInOrder(q: Queue, moves: seq<Move>)
    ensures Play(q, moves).InFlight() == q.InFlight() + Accepted(q, moves)
  {
    if moves != [] {
      var before, m := moves[..|moves| - 1], moves[|moves| - 1];
      IssuedInOrder(q, before);
      var p := Play(q, before);
      assert p.Step(m).InFlight() == p.InFlight() + if p.Accepts(m) then [Plain(m.cmd)] else [];
    }
  }

  /** Commands are taken in the order in which they were issued, each once. */
  lemma {:induction false} TakenInOrder(q: Queue, moves: seq<Move>)
    requires q.consumed <= q.issued
    ensures q.issued <= Play(q, moves).issued && q.consumed <= Play(q, moves).consumed <= Play(q, moves).issued
  {
    if moves != [] { TakenInOrder(q, moves[..|moves| - 1]); }
  }

  /** Of two reads in a row with a command outstanding at least one takes it: no command is stuck behind the Link TRB. */
  lemma ReadsProgress(q: Queue)
    requires |q.consumed| < |q.issued|
    ensures |q.Step(Read).Step(Read).consumed| > |q.consumed|
  {
  }

  class CommandRing {
    const ring: array<nat>
    const phys: nat

    // the driver
    var enq: nat
    var cycle: nat
    /** How far the call in progress has got: 0 between calls, otherwise the next word to write plus one. */
    var pc: nat
    var cmd: Trb

    // the controller
    var deq: nat
    var ccs: nat

    ghost var issued: seq<Trb>
    ghost var consumed: seq<Trb>

    ghost predicate LinkOk()
      reads this, ring
    {
      && ring.Length == 1024 && phys < 0x1_0000_0000_0000_0000 && cycle <= 1
      && ring[1020] == phys % 0x1_0000_0000 && ring[1021] == phys / 0x1_0000_0000
      && ring[1023] == 1024 * LINK_TYPE + 2 + (1 - cycle)
    }

    ghost predicate Valid()
      reads this, ring
    {
      && LinkOk() && enq <= SLOTS && deq <= SLOTS && pc <= 4
      && SlotsOk(SLOTS, ring[..], issued, cycle, enq, pc) && InStep(SLOTS, issued, |consumed|, cycle, enq, ccs, deq)
      && (pc > 0 ==> enq < SLOTS && TypeOf(cmd.w3) != LINK_TYPE && PartOk(ring[..], enq, pc, cmd))
      && (pc == 0 && enq == 0 ==> issued == []) && (|issued| - enq) % SLOTS == 0
      && (forall k :: 0 <= k < |issued| ==> TypeOf(issued[k].w3) != LINK_TYPE)
      && |consumed| <= |issued| && |issued| - |consumed| <= (if pc > 0 then SLOTS - 1 else SLOTS)
      && consumed == issued[..|consumed|]
    }

    /** The ring as a queue. */
    ghost function Q(): Queue
      reads this
    {
      Queue(issued, consumed, pc, cmd, deq == SLOTS)
    }

    constructor (phys: nat)
      requires phys < 0x1_0000_0000_0000_0000
      ensures Valid() && Q() == Queue([], [], 0, Trb(0, 0, 0, 0), false) && fresh(ring)
    {
      ring := new nat[1024](_ => 0);
      this.phys := phys;
      enq, cycle, pc, cmd, deq, ccs := 0, 1, 0, Trb(0, 0, 0, 0), 0, 1;
      issued, consumed := [], [];
      new;
      ring[1020] := phys % 0x1_0000_0000;
      ring[1021] := phys / 0x1_0000_0000;
      ring[1023] := 1024 * LINK_TYPE + 2;
    }

    // ----- the driver -----

    /** xhci_send_command up to the first word: go past the Link TRB if the enqueue index is on it. */
    method Begin(c: Trb)
      requires Valid() && pc == 0 && |issued| - |consumed| < SLOTS && TypeOf(c.w3) != LINK_TYPE
      modifies this`enq, this`cycle, this`pc, this`cmd, ring
      ensures Valid() && pc == 1 && cmd == c
    {
      if enq >= SLOTS {
        Wrap();
      }
      BeginWrite(SLOTS, ring[..], issued, cycle, enq);
      pc, cmd := 1, c;
    }

    method Wrap()
      requires Valid() && pc == 0 && enq == SLOTS && |issued| - |consumed| < SLOTS
      modifies this`enq, this`cycle, ring
      ensures LinkOk() && enq == 0 && SlotsOk(SLOTS, ring[..], issued, cycle, enq, 0)
      ensures InStep(SLOTS, issued, |consumed|, cycle, enq, ccs, deq)
    {
      ghost var was := ring[..];
      ring[1023] := Flip(ring[1023]);
      assert ring[..] == was[1023 := Flip(was[1023])];
      SlotsApart(SLOTS, was, issued, cycle, enq, 0, 1023, Flip(was[1023]));
      LapDone(SLOTS, ring[..], issued, cycle);
      cycle := 1 - cycle;
      enq := 0;
    }

    /** One of the first three words of the TRB. */
    method WriteField()
      requires Valid() && 1 <= pc <= 3
      modifies this`pc, ring
      ensures Valid() && pc == old(pc) + 1
    {
      ghost var was := ring[..];
      var w := if pc == 1 then cmd.w0 else if pc == 2 then cmd.w1 else cmd.w2;
      ring[4 * enq + pc - 1] := w;
      pc := pc + 1;
      assert ring[..] == was[4 * enq + pc - 2 := w];
      FieldWritten(SLOTS, was, issued, cycle, enq, old(pc), 4 * enq + pc - 2, w);
    }

    /** The last word carries the cycle bit and issues the command. */
    method WriteCycle()
      requires Valid() && pc == 4
      modifies this`enq, this`pc, this`issued, ring
      ensures Valid() && pc == 0 && issued == old(issued) + [Plain(cmd)]
    {
      ghost var was := ring[..];
      LastWritten(SLOTS, was, issued, cycle, enq, cmd);
      ring[4 * enq + 3] := WithCycle(cmd.w3, cycle);
      assert ring[..] == was[4 * enq + 3 := WithCycle(cmd.w3, cycle)];
      issued := issued + [Plain(cmd)];
      enq, pc := enq + 1, 0;
    }

    /** xhci_send_command's stores with no controller read in between. */
    method Send(c: Trb)
      requires Valid() && pc == 0 && |issued| - |consumed| < SLOTS && TypeOf(c.w3) != LINK_TYPE
      modifies this, ring
      ensures Valid() && Q() == old(Q()).(issued := old(issued) + [Plain(c)], cmd := c)
    {
      Begin(c);
      WriteField();
      WriteField();
      WriteField();
      WriteCycle();
    }

    // ----- the controller -----

    /** The controller sees a TRB it owns. */
    ghost predicate Sees()
      requires ring.Length == 1024 && deq <= SLOTS
      reads this, ring
    {
      ring[4 * deq + 3] % 2 == ccs
    }

    /** In a command slot the controller sees exactly the next command it has not taken, whole. */
    lemma SeesCommand()
      requires Valid() && deq < SLOTS
      ensures Sees() <==> |consumed| < |issued|
      ensures Sees() ==>
                && TypeOf(ring[4 * deq + 3]) != LINK_TYPE
                && Trb(ring[4 * deq], ring[4 * deq + 1], ring[4 * deq + 2], WithCycle(ring[4 * deq + 3], 0)) == issued[|consumed|]
    {
      SeesNext(SLOTS, ring[..], issued, |consumed|, cycle, enq, pc, ccs, deq);
      assert Sees() ==> TypeOf(issued[|consumed|].w3) == TypeOf(ring[4 * deq + 3]);
    }

    /** On the Link TRB it sees whether the driver has gone round. */
    lemma SeesLink()
      requires Valid() && deq == SLOTS
      ensures Sees() <==> |consumed| < |issued| || pc > 0
      ensures TypeOf(ring[1023]) == LINK_TYPE && ring[1023] / 2 % 2 == 1
    {
    }

    /** The controller reads the TRB at its dequeue index, and takes it or follows it if it owns it. */
    method Fetch()
      requires Valid()
      modifies this`deq, this`ccs, this`consumed
      ensures Valid() && Q() == old(Q()).Step(Read)
    {
      var w3 := ring[4 * deq + 3];
      if deq < SLOTS { SeesCommand(); } else { SeesLink(); }
      if w3 % 2 == ccs {
        if TypeOf(w3) == LINK_TYPE {
          Follow(w3);
        } else {
          Take(w3);
        }
      }
    }

    method Follow(w3: nat)
      requires Valid() && deq == SLOTS && w3 == ring[4 * deq + 3] && Sees()
      modifies this`deq, this`ccs
      ensures Valid() && deq == 0
    {
      SeesLink();
      var target := ring[4 * deq + 1] * 0x1_0000_0000 + ring[4 * deq];
      if w3 / 2 % 2 == 1 { ccs := 1 - ccs; }
      deq := (target - phys) / 16;
    }

    static lemma LapEnd(start: nat, deq: nat)
      requires start % SLOTS == 0 && deq < SLOTS
      ensures (start + deq + 1) % SLOTS == 0 <==> deq + 1 == SLOTS
    {
    }

    method Take(w3: nat)
      requires Valid() && deq < SLOTS && w3 == ring[4 * deq + 3] && Sees()
      modifies this`deq, this`consumed
      ensures Valid() && old(|consumed|) < |issued| && consumed == old(consumed) + [issued[old(|consumed|)]]
      ensures deq == old(deq) + 1 && (|consumed| % SLOTS == 0 <==> deq == SLOTS)
    {
      SeesCommand();
      LapEnd(if ccs == cycle then |issued| - enq else |issued| - enq - SLOTS, deq);
      consumed := consumed + [Trb(ring[4 * deq], ring[4 * deq + 1], ring[4 * deq + 2], WithCycle(w3, 0))];
      deq := deq + 1;
      assert consumed == issued[..|consumed|];
    }

    // ----- runs -----

    /** Commands issued and not yet taken, from the two ends of the ring. */
    function Outstanding(): (n: int)
      requires Valid()
      reads this, ring
      ensures n == |issued| - |consumed|
    {
      (if cycle == ccs then 0 else SLOTS) + enq - deq
    }

    /** Left alone, the controller takes everything issued. */
    method CatchUp()
      requires Valid()
      modifies this`deq, this`ccs, this`consumed
      ensures Valid() && consumed == issued
    {
      while Outstanding() > 0
        invariant Valid()
        decreases |issued| - |consumed|, deq
      {
        Fetch();
      }
    }

    lemma Full()
      requires Valid() && pc == 0 && Outstanding() == SLOTS
      ensures if deq == enq then cycle == 1 - ccs else cycle == ccs && enq == SLOTS && deq == 0
      ensures deq == SLOTS ==> ring[1023] % 2 == ccs
      ensures ring.Length == 1024 && enq <= SLOTS && deq <= SLOTS && cycle <= 1 && ccs <= 1
    {
    }

    /** The guard is exact: with 255 commands outstanding the next call overwrites the oldest with the wrong cycle bit,
        or turns the Link TRB back, and the controller sees nothing to do. */
    method Overrun(c: Trb)
      requires Valid() && pc == 0 && Outstanding() == SLOTS
      modifies this, ring
      ensures ring.Length == 1024 && deq == old(deq) <= SLOTS && ccs == old(ccs) && consumed == old(consumed) && !Sees()
    {
      Full();
      if enq >= SLOTS {
        ring[1023] := Flip(ring[1023]);
        cycle := 1 - cycle;
        enq := 0;
      }
      ring[4 * enq] := c.w0;
      ring[4 * enq + 1] := c.w1;
      ring[4 * enq + 2] := c.w2;
      ring[4 * enq + 3] := WithCycle(c.w3, cycle);
      enq := enq + 1;
    }

    /** Any interleaving of driver words and controller reads is the same interleaving over the queue, so the commands
        issued are exactly those of the calls made, and they are taken in that order. */
    method Run(moves: seq<Move>)
      requires Valid()
      modifies this, ring
      ensures Valid() && Q() == Play(old(Q()), moves)
      ensures Q().InFlight() == old(Q()).InFlight() + Accepted(old(Q()), moves)
      ensures old(consumed) <= consumed <= issued && old(issued) <= issued
    {
      for i := 0 to |moves|
        invariant Valid() && Q() == Play(old(Q()), moves[..i])
      {
        Do(moves[i]);
        assert moves[..i + 1][..i] == moves[..i];
      }
      assert moves[..|moves|] == moves;
      IssuedInOrder(old(Q()), moves);
      TakenInOrder(old(Q()), moves);
    }

    method Do(m: Move)
      requires Valid()
      modifies this, ring
      ensures Valid() && Q() == old(Q()).Step(m)
    {
      match m
      case Call(c) =>
        if pc == 0 && TypeOf(c.w3) != LINK_TYPE && Outstanding() < SLOTS { Begin(c); }
      case Write =>
        if 1 <= pc <= 3 { WriteField(); } else if pc == 4 { WriteCycle(); }
      case Read =>
        Fetch();
    }
  }
}
