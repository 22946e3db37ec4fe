/** Process lifecycle and scheduling over `tasks[64]` (kernel/process/process.c, fork.c, exec.c,
    kernel/scheduler/scheduler.c).  System calls run with interrupts off, so each is one step;
    a context switch saves the stack pointer, runs the scheduler and reloads the stack pointer. */
module Processes {

  import opened ProcessTree

  const TASK_STACK_SIZE: nat := 32768
  /** 15 registers, vector and error code, and the five words iretq pops. */
  const FRAME_SIZE: nat := 176

  const SIGKILL: int := 9
  const EPERM: int := 1
  const ESRCH: int := 3
  const EINVAL: int := 22

  // ----- scheduling -----

  /** At most one task runs, and it is the current one. */
  ghost predicate RunOk(ts: seq<Task>, current: int) {
    && |ts| == MAX_TASKS && IsPid(current) && ts[current].state != Unused
    && forall i :: 0 <= i < MAX_TASKS && ts[i].state == Running ==> i == current
  }

  /** How many slots the scheduler looks at after `prev` before it comes to `i`. */
  ghost function Distance(prev: int, i: int): nat {
    (i - prev - 1) % MAX_TASKS
  }

  /** `n` is the first ready slot, going round from the one after `prev`. */
  ghost predicate IsNext(ts: seq<Task>, prev: int, n: int)
    requires |ts| == MAX_TASKS
  {
    && IsPid(n) && ts[n].state == Ready
    && forall j :: 0 <= j < MAX_TASKS && ts[j].state == Ready ==> Distance(prev, n) <= Distance(prev, j)
  }

  // ----- waiting -----

  /** Child `c` is one that a wait by `b` for `pid` is about. */
  ghost predicate Matches(ts: seq<Task>, b: int, pid: int, c: int)
    requires |ts| == MAX_TASKS
  {
    IsPid(c) && ts[c].state != Unused && ts[c].parent == b && (pid == -1 || pid == c)
  }

  ghost predicate HasZombie(ts: seq<Task>, b: int, pid: int)
    requires |ts| == MAX_TASKS
  {
    exists c :: Matches(ts, b, pid, c) && ts[c].state == Zombie
  }

  /** A blocked task still has a child to wait for. */
  ghost predicate WaitOk(ts: seq<Task>, b: nat)
    requires |ts| == MAX_TASKS && b < MAX_TASKS
  {
    ts[b].state == Blocked ==> exists c :: Matches(ts, b, ts[b].waitFor, c)
  }

  ghost predicate WaitsOk(ts: seq<Task>) {
    |ts| == MAX_TASKS && forall b: nat {:trigger WaitOk(ts, b)} :: b < MAX_TASKS ==> WaitOk(ts, b)
  }

  // ----- kernel stacks -----

  predicate InStack(rsp: nat, base: nat) {
    base <= rsp < base + TASK_STACK_SIZE
  }

  ghost predicate Apart(owner: map<nat, nat>) {
    forall a, b {:trigger a in owner, b in owner} ::
      a in owner && b in owner && a != b ==> a + TASK_STACK_SIZE <= b || b + TASK_STACK_SIZE <= a
  }

  /** The stacks one task holds; the saved frame of a switched-out task is in its own stack. */
  ghost predicate HoldsOk(ts: seq<Task>, current: int, owner: map<nat, nat>, i: nat)
    requires |ts| == MAX_TASKS && i < MAX_TASKS
  {
    if ts[i].state == Unused then ts[i].stack == 0 && ts[i].pending == 0 else
      && ts[i].stack != 0 && ts[i].stack in owner && owner[ts[i].stack] == i
      && (ts[i].pending != 0 ==>
            i == current && ts[i].pending in owner && owner[ts[i].pending] == i && ts[i].pending != ts[i].stack)
      && (i != 0 && (i != current || ts[i].pending != 0) ==> InStack(ts[i].rsp, ts[i].stack))
  }

  /** Nothing is allocated that no task holds. */
  ghost predicate OwnedOk(ts: seq<Task>, owner: map<nat, nat>, b: nat)
    requires |ts| == MAX_TASKS
  {
    b in owner ==> b != 0 && IsPid(owner[b]) && ts[owner[b]].state != Unused
                   && (ts[owner[b]].stack == b || ts[owner[b]].pending == b)
  }

  ghost predicate StacksOk(ts: seq<Task>, current: int, owner: map<nat, nat>) {
    && |ts| == MAX_TASKS && Apart(owner)
    && (forall i: nat {:trigger HoldsOk(ts, current, owner, i)} :: i < MAX_TASKS ==> HoldsOk(ts, current, owner, i))
    && (forall b: nat {:trigger OwnedOk(ts, owner, b)} :: OwnedOk(ts, owner, b))
  }

  /** What kmalloc may return for a new stack: null, or a block overlapping no live stack. */
  ghost predicate Fresh(owner: map<nat, nat>, stack: nat) {
    stack != 0 ==> forall b :: b in owner ==> b + TASK_STACK_SIZE <= stack || stack + TASK_STACK_SIZE <= b
  }

  // ----- exit status -----

  datatype Fate = Exited(code: int) | Signaled(signal: int) | Stopped

  /** What task_wait reports for an exit code. */
  function Status(code: int): int {
    if code < 0 then -code else code % 256 * 256
  }

  /** WIFEXITED, WEXITSTATUS, WIFSIGNALED and WTERMSIG. */
  function Decode(status: int): Fate {
    var sig := status % 128;
    if sig == 0 then Exited(status / 256 % 256) else if sig != 127 then Signaled(sig) else Stopped
  }

  lemma ExitDecodes(code: int)
    ensures Decode(Status(code)) == Exited(code) <==> 0 <= code < 256
  {
    if code >= 0 {
      var b := code % 256;
      assert (b * 256) % 128 == 0 && b * 256 / 256 % 256 == b;
    }
  }

  lemma SignalDecodes(sig: int)
    requires sig > 0
    ensures Decode(Status(-sig)) == Signaled(sig) <==> sig <= 126
  {
  }

  // ----- one task's changes -----

  /** do_schedule puts the outgoing task away. */
  function PutAway(t: Task, saved: nat): Task {
    var t' := if t.state == Running then t.(state := Ready) else t;
    if t.pending != 0 && InStack(saved, t.pending) then t' else t'.(rsp := saved)
  }

  ghost function Woken(ts: seq<Task>, ticks: nat, i: int): Task
    requires |ts| == MAX_TASKS && IsPid(i)
  {
    if ts[i].state == Sleeping && ticks >= ts[i].sleepUntil then ts[i].(state := Ready, sleepUntil := 0)
    else if ts[i].state == Blocked && HasZombie(ts, i, ts[i].waitFor) then ts[i].(state := Ready, waitFor := -1)
    else ts[i]
  }

  /** Who inherits the children of `d`. */
  function Heir(ts: seq<Task>, d: int): (np: int)
    requires |ts| == MAX_TASKS
    ensures np == 0 || np == 1
  {
    if ts[1].state == Unused || ts[1].state == Zombie || d == 1 then 0 else 1
  }

  /** Reparenting changes links only. */
  ghost predicate Relinked(t: Task, t': Task, d: int, np: int) {
    && t' == t.(parent := t'.parent, first := t'.first, next := t'.next)
    && (t'.parent == t.parent || (t.parent == d && t'.parent == np))
  }

  /** Task `d` is dead, and its children belong to `np`. */
  ghost predicate Died(ts: seq<Task>, ts': seq<Task>, d: int, np: int, code: int)
    requires |ts| == |ts'| == MAX_TASKS && IsPid(d)
  {
    && ts'[d] == ts[d].(state := Zombie, exitCode := code, pending := 0, first := -1, next := ts'[d].next)
    && forall i :: 0 <= i < MAX_TASKS && i != d ==>
         Relinked(ts[i], ts'[i], d, np) && (ts[i].state != Unused ==> ts'[i].parent != d)
  }

  // ----- invariants across steps -----

  lemma DiedWaits(ts: seq<Task>, ts': seq<Task>, d: int, np: int, code: int)
    requires WaitsOk(ts) && |ts'| == MAX_TASKS && IsPid(d) && Died(ts, ts', d, np, code)
    ensures WaitsOk(ts')
  {
    forall b: nat | b < MAX_TASKS ensures WaitOk(ts', b) {
      assert WaitOk(ts, b);
      if ts'[b].state == Blocked {
        var c :| Matches(ts, b, ts[b].waitFor, c);
        assert Matches(ts', b, ts'[b].waitFor, c);
      }
    }
  }

  /** Dying gives up the stack an exec left behind, if any, and no other. */
  lemma DiedStacks(ts: seq<Task>, ts': seq<Task>, current: int, owner: map<nat, nat>, d: int, np: int, code: int)
    requires StacksOk(ts, current, owner) && |ts'| == MAX_TASKS && IsPid(d) && ts[d].state != Unused
    requires Died(ts, ts', d, np, code)
    ensures StacksOk(ts', current, owner - {ts[d].pending})
  {
    var owner' := owner - {ts[d].pending};
    forall i: nat | i < MAX_TASKS ensures HoldsOk(ts', current, owner', i) {
      assert HoldsOk(ts, current, owner, i) && HoldsOk(ts, current, owner, d);
    }
    forall b: nat ensures OwnedOk(ts', owner', b) { assert OwnedOk(ts, owner, b) && HoldsOk(ts, current, owner, d); }
  }

  /** Changes that no stack depends on. */
  ghost predicate SameStacks(t: Task, t': Task) {
    t'.stack == t.stack && t'.pending == t.pending && t'.rsp == t.rsp && (t'.state == Unused <==> t.state == Unused)
  }

  lemma StacksKept(ts: seq<Task>, ts': seq<Task>, current: int, owner: map<nat, nat>)
    requires StacksOk(ts, current, owner) && |ts'| == MAX_TASKS
    requires forall i :: 0 <= i < MAX_TASKS ==> SameStacks(ts[i], ts'[i])
    ensures StacksOk(ts', current, owner)
  {
    forall i: nat | i < MAX_TASKS ensures HoldsOk(ts', current, owner, i) {
      assert HoldsOk(ts, current, owner, i) && SameStacks(ts[i], ts'[i]);
    }
    forall b: nat ensures OwnedOk(ts', owner, b) {
      assert OwnedOk(ts, owner, b);
      if b in owner { assert SameStacks(ts[owner[b]], ts'[owner[b]]); }
    }
  }

  /** A new task with a new stack. */
  lemma ForkStacks(ts: seq<Task>, ts': seq<Task>, current: int, owner: map<nat, nat>, slot: nat)
    requires StacksOk(ts, current, owner) && |ts'| == MAX_TASKS && slot < MAX_TASKS && ts[slot].state == Unused
    requires forall i :: 0 <= i < MAX_TASKS && i != slot ==> SameStacks(ts[i], ts'[i])
    requires ts'[slot].state != Unused && ts'[slot].stack != 0 && Fresh(owner, ts'[slot].stack)
    requires ts'[slot].pending == 0 && InStack(ts'[slot].rsp, ts'[slot].stack)
    ensures StacksOk(ts', current, owner[ts'[slot].stack := slot])
  {
    var stack := ts'[slot].stack;
    var owner' := owner[stack := slot];
    forall i: nat | i < MAX_TASKS ensures HoldsOk(ts', current, owner', i) {
      assert HoldsOk(ts, current, owner, i);
      if i != slot { assert SameStacks(ts[i], ts'[i]); }
    }
    forall b: nat ensures OwnedOk(ts', owner', b) {
      assert OwnedOk(ts, owner, b);
      if b in owner && b != stack { assert SameStacks(ts[owner[b]], ts'[owner[b]]); }
    }
  }

  /** exec moves the current task to a new stack, keeps the old one and frees the one before it. */
  lemma ExecStacks(ts: seq<Task>, ts': seq<Task>, current: nat, owner: map<nat, nat>, stack: nat, rsp: nat)
    requires StacksOk(ts, current, owner) && current < MAX_TASKS && ts[current].state != Unused
    requires stack != 0 && Fresh(owner, stack) && InStack(rsp, stack)
    requires ts' == ts[current := ts[current].(stack := stack, rsp := rsp, pending := ts[current].stack)]
    ensures StacksOk(ts', current, (owner - {ts[current].pending})[stack := current])
  {
    var owner' := (owner - {ts[current].pending})[stack := current];
    assert HoldsOk(ts, current, owner, current);
    forall i: nat | i < MAX_TASKS ensures HoldsOk(ts', current, owner', i) { assert HoldsOk(ts, current, owner, i); }
    forall b: nat ensures OwnedOk(ts', owner', b) { assert OwnedOk(ts, owner, b); }
  }

  /** Reaping frees exactly the reaped task's stack. */
  lemma ReapStacks(ts: seq<Task>, ts': seq<Task>, current: int, owner: map<nat, nat>, c: nat)
    requires StacksOk(ts, current, owner) && |ts'| == MAX_TASKS && c < MAX_TASKS && c != current && ts[c].state != Unused
    requires forall i :: 0 <= i < MAX_TASKS && i != c ==> SameStacks(ts[i], ts'[i])
    requires ts'[c].state == Unused && ts'[c].stack == 0 && ts'[c].pending == 0
    ensures StacksOk(ts', current, owner - {ts[c].stack})
  {
    var owner' := owner - {ts[c].stack};
    assert HoldsOk(ts, current, owner, c);
    forall i: nat | i < MAX_TASKS ensures HoldsOk(ts', current, owner', i) {
      assert HoldsOk(ts, current, owner, i);
      if i != c { assert SameStacks(ts[i], ts'[i]); }
    }
    forall b: nat ensures OwnedOk(ts', owner', b) {
      assert OwnedOk(ts, owner, b);
      if b in owner' { assert owner[b] != c; assert SameStacks(ts[owner[b]], ts'[owner[b]]); }
    }
  }

  lemma ReapWaits(ts: seq<Task>, ts': seq<Task>, current: int, c: int)
    requires WaitsOk(ts) && |ts'| == MAX_TASKS && IsPid(c) && ts[c].parent == current && IsPid(current)
    requires ts[current].state == Running && ts'[c].state == Unused
    requires forall i :: 0 <= i < MAX_TASKS && i != c ==>
               ts'[i].state == ts[i].state && ts'[i].parent == ts[i].parent && ts'[i].waitFor == ts[i].waitFor
    ensures WaitsOk(ts')
  {
    forall b: nat | b < MAX_TASKS ensures WaitOk(ts', b) {
      assert WaitOk(ts, b);
      if ts'[b].state == Blocked {
        var k :| Matches(ts, b, ts[b].waitFor, k);
        assert Matches(ts', b, ts'[b].waitFor, k);
      }
    }
  }

  /** Changes of state that neither end a wait nor start one. */
  lemma WaitsKept(ts: seq<Task>, ts': seq<Task>)
    requires WaitsOk(ts) && |ts'| == MAX_TASKS
    requires forall i :: 0 <= i < MAX_TASKS ==> StillWaits(ts[i], ts'[i])
    ensures WaitsOk(ts')
  {
    forall b: nat | b < MAX_TASKS ensures WaitOk(ts', b) {
      assert WaitOk(ts, b) && StillWaits(ts[b], ts'[b]);
      if ts'[b].state == Blocked {
        var c :| Matches(ts, b, ts[b].waitFor, c);
        assert StillWaits(ts[c], ts'[c]);
        assert Matches(ts', b, ts'[b].waitFor, c);
      }
    }
  }

  ghost predicate StillWaits(t: Task, t': Task) {
    && t'.parent == t.parent && (t'.state == Unused ==> t.state == Unused)
    && (t'.state == Blocked ==> t.state == Blocked && t'.waitFor == t.waitFor)
  }

  // ----- a context switch -----

  /** The table after do_schedule switches from `prev` to `next`. */
  ghost predicate Switched(ts: seq<Task>, ticks: nat, prev: int, saved: nat, next: int, ts': seq<Task>)
    requires |ts| == |ts'| == MAX_TASKS && IsPid(prev)
  {
    && IsNext(Awake(ts, ticks, prev, saved), prev, next)
    && forall i {:trigger ts'[i]} :: 0 <= i < MAX_TASKS ==>
         var t := Awake(ts, ticks, prev, saved)[i].(pending := if i == prev then 0 else ts[i].pending);
         ts'[i] == if i == next then t.(state := Running) else t
  }

  /** The table after the outgoing task is put away and everyone due is woken. */
  ghost function Awake(ts: seq<Task>, ticks: nat, prev: int, saved: nat): (r: seq<Task>)
    requires |ts| == MAX_TASKS && IsPid(prev)
    ensures |r| == MAX_TASKS
  {
    var put := ts[prev := PutAway(ts[prev], saved)];
    seq(MAX_TASKS, i requires 0 <= i < MAX_TASKS => Woken(put, ticks, i))
  }

  /** A switch only moves tasks between ready, running and waiting. */
  lemma SwitchLinks(ts: seq<Task>, ticks: nat, prev: int, saved: nat, next: int, ts': seq<Task>, i: int)
    requires |ts| == |ts'| == MAX_TASKS && IsPid(prev) && Switched(ts, ticks, prev, saved, next, ts') && IsPid(i)
    ensures SameLinks(ts[i], ts'[i]) && StillWaits(ts[i], ts'[i]) && ts'[i].stack == ts[i].stack && ts'[i].exitCode == ts[i].exitCode
    ensures ts'[i].pending == if i == prev then 0 else ts[i].pending
    ensures ts'[i].rsp == if i == prev then PutAway(ts[i], saved).rsp else ts[i].rsp
    ensures ts'[i].state == Running ==> i == next || (ts[i].state == Running && i != prev)
  {
    assert Awake(ts, ticks, prev, saved)[i] == Woken(ts[prev := PutAway(ts[prev], saved)], ticks, i);
  }

  lemma SwitchTree(ts: seq<Task>, ticks: nat, prev: int, saved: nat, next: int, ts': seq<Task>, kids: seq<seq<int>>, rank: seq<nat>)
    requires TreeOk(ts, kids, rank) && RunOk(ts, prev) && WaitsOk(ts)
    requires |ts'| == MAX_TASKS && Switched(ts, ticks, prev, saved, next, ts')
    ensures TreeOk(ts', kids, rank) && RunOk(ts', next) && WaitsOk(ts')
  {
    forall i | 0 <= i < MAX_TASKS
      ensures SameLinks(ts[i], ts'[i]) && StillWaits(ts[i], ts'[i]) && (ts'[i].state == Running ==> i == next)
    {
      SwitchLinks(ts, ticks, prev, saved, next, ts', i);
    }
    assert ts'[0].state == Ready || ts'[0].state == Running by {
      assert PlaceOk(ts, kids, rank, 0);
      var put := ts[prev := PutAway(ts[prev], saved)];
      assert Awake(ts, ticks, prev, saved)[0] == Woken(put, ticks, 0);
    }
    SameTree(ts, kids, rank, ts');
    WaitsKept(ts, ts');
  }

  /** The outgoing task's frame is in a stack that stays; only the stack exec left behind is released. */
  lemma SwitchStacks(ts: seq<Task>, ticks: nat, prev: int, saved: nat, next: int, ts': seq<Task>, owner: map<nat, nat>, onStack: nat)
    requires StacksOk(ts, prev, owner) && RunOk(ts, prev) && |ts'| == MAX_TASKS && Switched(ts, ticks, prev, saved, next, ts')
    requires prev != 0 ==> OnOwnStack(ts[prev], onStack) && InStack(saved, onStack)
    ensures StacksOk(ts', next, owner - {ts[prev].pending})
    ensures next != 0 ==> InStack(ts'[next].rsp, ts'[next].stack)
  {
    var owner' := owner - {ts[prev].pending};
    assert HoldsOk(ts, prev, owner, prev);
    assert prev != 0 ==> InStack(PutAway(ts[prev], saved).rsp, ts[prev].stack);
    forall i: nat | i < MAX_TASKS
      ensures HoldsOk(ts', next, owner', i) && (i != 0 && ts[i].state != Unused ==> InStack(ts'[i].rsp, ts'[i].stack))
    {
      assert HoldsOk(ts, prev, owner, i);
      SwitchLinks(ts, ticks, prev, saved, next, ts', i);
    }
    forall b: nat ensures OwnedOk(ts', owner', b) {
      assert OwnedOk(ts, owner, b);
      if b in owner' { SwitchLinks(ts, ticks, prev, saved, next, ts', owner[b]); }
    }
    SwitchLinks(ts, ticks, prev, saved, next, ts', next);
  }

  /** A task runs in the kernel on its stack, or on the one it had before its exec. */
  ghost predicate OnOwnStack(t: Task, onStack: nat) {
    onStack == t.stack || (t.pending != 0 && onStack == t.pending)
  }

  /** A ready task that is passed over is nearer to its turn. */
  lemma SwitchFair(ts: seq<Task>, ticks: nat, prev: int, saved: nat, next: int, ts': seq<Task>, i: int)
    requires |ts| == |ts'| == MAX_TASKS && IsPid(prev) && Switched(ts, ticks, prev, saved, next, ts')
    requires IsPid(i) && ts[i].state == Ready
    ensures next == i || (ts'[i].state == Ready && Distance(next, i) < Distance(prev, i))
  {
    assert Awake(ts, ticks, prev, saved)[i] == Woken(ts[prev := PutAway(ts[prev], saved)], ticks, i);
    if next != i { Nearer(prev, next, i); }
  }

  lemma Nearer(prev: int, next: int, i: int)
    requires IsPid(prev) && IsPid(next) && IsPid(i) && next != i && Distance(prev, next) <= Distance(prev, i)
    ensures Distance(next, i) < Distance(prev, i)
  {
    assert Distance(prev, next) == if next > prev then next - prev - 1 else next - prev + 63;
    assert Distance(prev, i) == if i > prev then i - prev - 1 else i - prev + 63;
    assert Distance(next, i) == if i > next then i - next - 1 else i - next + 63;
  }

  /** No wake-up is lost: after a switch no blocked task has a dead child it waits for. */
  lemma SwitchWakes(ts: seq<Task>, ticks: nat, prev: int, saved: nat, next: int, ts': seq<Task>, b: int)
    requires |ts| == |ts'| == MAX_TASKS && IsPid(prev) && Switched(ts, ticks, prev, saved, next, ts') && IsPid(b)
    ensures ts[b].state == Blocked && HasZombie(ts, b, ts[b].waitFor) ==> ts'[b].state == Ready || ts'[b].state == Running
    ensures ts'[b].state == Blocked ==> !HasZombie(ts', b, ts'[b].waitFor)
    ensures ts'[b].state == Sleeping ==> ticks < ts'[b].sleepUntil
  {
    var put := ts[prev := PutAway(ts[prev], saved)];
    assert Awake(ts, ticks, prev, saved)[b] == Woken(put, ticks, b);
    forall c | IsPid(c) ensures SameLinks(ts[c], ts'[c]) { SwitchLinks(ts, ticks, prev, saved, next, ts', c); }
    if ts[b].state == Blocked && HasZombie(ts, b, ts[b].waitFor) {
      var c :| Matches(ts, b, ts[b].waitFor, c) && ts[c].state == Zombie;
      assert Matches(put, b, put[b].waitFor, c) && put[c].state == Zombie;
    }
    forall c | ts'[b].state == Blocked && Matches(ts', b, ts'[b].waitFor, c) ensures ts'[c].state != Zombie {
      assert SameLinks(ts[c], ts'[c]);
      assert Matches(put, b, put[b].waitFor, c);
    }
  }
}
