/** The steps of the process table as a relation between states, and what follows for whole runs. */
module ProcessSteps {

  import opened ProcessTree
  import opened Processes

  datatype WaitResult = Reaps(pid: int, status: int) | NoChild | NotYet | Blocks

  /** `SwitchOp`: the scheduler is entered with stack pointer `saved`, by an interrupt from user mode or from inside the kernel. */
  datatype Op = ForkOp(stack: nat, copied: bool) | ExitOp(code: int) | KillOp(id: int) | WaitOp(pid: int, nohang: bool)
              | SleepOp(ms: nat) | ExecOp(stack: nat) | TickOp | SwitchOp(saved: nat, user: bool)

  datatype Result = Skipped | Nothing | Slot(slot: int) | Error(err: int) | Waited(wait: WaitResult) | Replaced(ok: bool)

  /** The whole state at one moment. */
  datatype View = View(ts: seq<Task>, current: int, ticks: nat, owner: map<nat, nat>, onStack: nat, kids: seq<seq<int>>, rank: seq<nat>)

  ghost predicate ViewOk(v: View) {
    && TreeOk(v.ts, v.kids, v.rank) && |v.ts| == |v.kids| == MAX_TASKS && RunOk(v.ts, v.current) && WaitsOk(v.ts)
    && StacksOk(v.ts, v.current, v.owner) && (v.current != 0 ==> OnOwnStack(v.ts[v.current], v.onStack))
  }

  /** Whether the machine can take this step.  System calls and interrupts from user mode need a running task; frames are
      pushed on the stack the kernel is on, which is the task's own after an entry from user mode. */
  ghost predicate CanDo(v: View, op: Op)
    requires ViewOk(v)
  {
    var calls := v.current != 0 && v.ts[v.current].state == Running;
    match op
    case TickOp => true
    case SwitchOp(saved, user) =>
      v.current == 0 || (if user then calls && InStack(saved, v.ts[v.current].stack) else InStack(saved, v.onStack))
    case ForkOp(stack, _) => calls && Fresh(v.owner, stack)
    case ExecOp(stack) => calls && Fresh(v.owner, stack)
    case _ => calls
  }

  // ----- one step -----

  ghost predicate Ticked(v: View, w: View)
    requires ViewOk(v) && ViewOk(w)
  {
    && w == v.(ts := w.ts, ticks := v.ticks + 1)
    && forall i {:trigger w.ts[i]} :: 0 <= i < MAX_TASKS ==>
         w.ts[i] == if v.ts[i].state == Sleeping && w.ticks >= v.ts[i].sleepUntil then v.ts[i].(state := Ready, sleepUntil := 0) else v.ts[i]
  }

  ghost predicate Forked(v: View, stack: nat, copied: bool, slot: int, w: View)
    requires ViewOk(v) && ViewOk(w)
  {
    var p := v.current;
    && (slot == -1 <==> stack == 0 || !copied || forall i :: 0 <= i < MAX_TASKS ==> v.ts[i].state != Unused)
    && (slot == -1 ==> w == v.(onStack := w.onStack))
    && (slot != -1 ==>
          && IsPid(slot) && v.ts[slot].state == Unused && (forall i :: 0 <= i < slot ==> v.ts[i].state != Unused)
          && w == v.(ts := w.ts, kids := v.kids[p := [slot] + v.kids[p]], owner := v.owner[stack := slot], onStack := w.onStack, rank := w.rank)
          && w.ts[slot] == Task(Ready, p, -1, v.ts[p].first, 0, -1, 0, stack, stack + TASK_STACK_SIZE - FRAME_SIZE, 0)
          && w.ts[p] == v.ts[p].(first := slot)
          && forall i :: 0 <= i < MAX_TASKS && i != slot && i != p ==> w.ts[i] == v.ts[i])
  }

  /** Task `d` dies with `code`: its children go to its heir, its pending stack is released. */
  ghost predicate Dies(v: View, d: int, code: int, w: View)
    requires ViewOk(v) && ViewOk(w) && IsPid(d)
  {
    var np := Heir(v.ts, d);
    && w == v.(ts := w.ts, kids := v.kids[d := []][np := Rev(v.kids[d]) + v.kids[np]], owner := v.owner - {v.ts[d].pending}, onStack := w.onStack)
    && Died(v.ts, w.ts, d, np, code)
  }

  ghost predicate Killed(v: View, id: int, err: int, w: View)
    requires ViewOk(v) && ViewOk(w)
  {
    && (err == 0 <==> 0 < id < MAX_TASKS && id != v.current && Alive(v.ts[id]))
    && (err != 0 ==>
          && err == (if IsPid(id) && id == v.current then -EINVAL else if id == 0 then -EPERM else -ESRCH)
          && w == v.(onStack := w.onStack))
    && (err == 0 ==> Dies(v, id, -SIGKILL, w))
  }

  ghost predicate Waits(v: View, pid: int, nohang: bool, r: WaitResult, w: View)
    requires ViewOk(v) && ViewOk(w)
  {
    var p := v.current;
    && (r.Reaps? <==> HasZombie(v.ts, p, pid))
    && (r.NoChild? <==> forall c :: !Matches(v.ts, p, pid, c))
    && match r
       case Reaps(c, status) =>
         && Matches(v.ts, p, pid, c) && v.ts[c].state == Zombie && status == Status(v.ts[c].exitCode)
         && (forall i :: 0 <= i < c && Matches(v.ts, p, pid, i) ==> v.ts[i].state != Zombie)
         && w == v.(ts := w.ts, kids := v.kids[p := Without(v.kids[p], c)], owner := v.owner - {v.ts[c].stack}, onStack := w.onStack)
         && w.ts[c] == Cleared(v.ts[c])
         && forall d :: 0 <= d < MAX_TASKS && d != c ==> w.ts[d] == v.ts[d].(first := w.ts[d].first, next := w.ts[d].next)
       case NoChild => w == v.(onStack := w.onStack)
       case NotYet => nohang && w == v.(onStack := w.onStack)
       case Blocks => !nohang && w == v.(ts := v.ts[p := v.ts[p].(state := Blocked, waitFor := pid)], onStack := w.onStack)
  }

  ghost predicate Replaces(v: View, stack: nat, ok: bool, w: View)
    requires ViewOk(v) && ViewOk(w)
  {
    var p := v.current;
    && ok == (stack != 0)
    && (!ok ==> w == v.(onStack := w.onStack))
    && (ok ==>
          w == v.(ts := v.ts[p := v.ts[p].(stack := stack, rsp := stack + TASK_STACK_SIZE - FRAME_SIZE, pending := v.ts[p].stack)],
                  owner := (v.owner - {v.ts[p].pending})[stack := p], onStack := w.onStack))
  }

  ghost predicate SwitchesTo(v: View, saved: nat, w: View)
    requires ViewOk(v) && ViewOk(w)
  {
    && w == v.(ts := w.ts, current := w.current, owner := v.owner - {v.ts[v.current].pending}, onStack := w.onStack)
    && Switched(v.ts, v.ticks, v.current, saved, w.current, w.ts) && w.onStack == w.ts[w.current].stack
  }

  /** What a step that is taken does, exactly. */
  ghost predicate Follows(v: View, op: Op, r: Result, w: View) {
    && ViewOk(v) && ViewOk(w)
    && match op
       case TickOp => r == Nothing && Ticked(v, w)
       case SwitchOp(saved, _) => r == Nothing && SwitchesTo(v, saved, w)
       case ForkOp(stack, copied) => r.Slot? && Forked(v, stack, copied, r.slot, w)
       case ExitOp(code) => r == Nothing && Dies(v, v.current, code, w)
       case KillOp(id) => r.Error? && Killed(v, id, r.err, w)
       case WaitOp(pid, nohang) => r.Waited? && Waits(v, pid, nohang, r.wait, w)
       case SleepOp(ms) =>
         r == Nothing
         && w == v.(ts := v.ts[v.current := v.ts[v.current].(state := Sleeping, sleepUntil := v.ticks + ms)], onStack := w.onStack)
       case ExecOp(stack) => r.Replaced? && Replaces(v, stack, r.ok, w)
  }

  /** Which stack the kernel was on before it was entered from user mode plays no part in a system call. */
  lemma Entered(v: View, u: View, op: Op, r: Result, w: View)
    requires ViewOk(v) && u == v.(onStack := u.onStack) && Follows(u, op, r, w) && !op.SwitchOp? && !op.TickOp?
    ensures Follows(v, op, r, w)
  {
  }

  /** One step of a run: taken if and only if the machine can take it. */
  ghost predicate Moves(v: View, op: Op, r: Result, w: View) {
    ViewOk(v) && if CanDo(v, op) then !r.Skipped? && Follows(v, op, r, w) else r.Skipped? && w == v
  }

  ghost predicate IsRun(ops: seq<Op>, rs: seq<Result>, trace: seq<View>) {
    && |rs| == |ops| && |trace| == |ops| + 1
    && forall k :: 0 <= k < |ops| ==> Moves(trace[k], ops[k], rs[k], trace[k + 1])
  }

  lemma RunLonger(ops: seq<Op>, rs: seq<Result>, trace: seq<View>, i: nat, r: Result, w: View)
    requires i < |ops| && IsRun(ops[..i], rs, trace) && Moves(trace[i], ops[i], r, w)
    ensures IsRun(ops[..i + 1], rs + [r], trace + [w])
  {
    var ops', rs', trace' := ops[..i + 1], rs + [r], trace + [w];
    forall k | 0 <= k < |ops'| ensures Moves(trace'[k], ops'[k], rs'[k], trace'[k + 1]) {
      assert k < i ==> ops'[k] == ops[..i][k] && Moves(trace[k], ops[..i][k], rs[k], trace[k + 1]);
    }
  }

  // ----- bystanders -----

  /** A ready task stays ready until it is chosen or killed. */
  lemma ReadyStays(v: View, op: Op, r: Result, w: View, i: int)
    requires Moves(v, op, r, w) && IsPid(i) && v.ts[i].state == Ready && op != KillOp(i)
    ensures |w.ts| == MAX_TASKS && (w.ts[i].state == Ready || (op.SwitchOp? && !r.Skipped? && w.current == i))
  {
    if !r.Skipped? {
      match op {
        case SwitchOp(saved, _) => SwitchFair(v.ts, v.ticks, v.current, saved, w.current, w.ts, i);
        case _ =>
      }
    }
  }

  /** Only a switch changes the current task. */
  lemma CurrentStays(v: View, op: Op, r: Result, w: View)
    requires Moves(v, op, r, w) && (!op.SwitchOp? || r.Skipped?)
    ensures w.current == v.current
  {
  }

  /** A dead task stays dead, with its code, until its parent collects it. */
  lemma DeadStays(v: View, op: Op, r: Result, w: View, i: int)
    requires Moves(v, op, r, w) && IsPid(i) && v.ts[i].state == Zombie
    ensures |w.ts| == MAX_TASKS
    ensures (w.ts[i].state == Zombie && w.ts[i].exitCode == v.ts[i].exitCode) || Collects(v, op, r, w, i)
  {
    if !r.Skipped? {
      match op {
        case SwitchOp(saved, _) => SwitchDead(v, saved, w, i);
        case _ =>
      }
    }
  }

  lemma SwitchDead(v: View, saved: nat, w: View, i: int)
    requires ViewOk(v) && ViewOk(w) && SwitchesTo(v, saved, w) && IsPid(i) && v.ts[i].state == Zombie
    ensures w.ts[i].state == Zombie && w.ts[i].exitCode == v.ts[i].exitCode
  {
    assert Awake(v.ts, v.ticks, v.current, saved)[i] == Woken(v.ts[v.current := PutAway(v.ts[v.current], saved)], v.ticks, i);
  }

  /** The current task, the parent of the dead task `i`, collects it and gets its status. */
  ghost predicate Collects(v: View, op: Op, r: Result, w: View, i: int) {
    && |v.ts| == |w.ts| == MAX_TASKS && IsPid(i)
    && v.ts[i].state == Zombie && v.ts[i].parent == v.current && op.WaitOp? && op.pid in {-1, i}
    && r == Waited(Reaps(i, Status(v.ts[i].exitCode))) && w.ts[i].state == Unused
  }

  // ----- runs -----

  /** The switches taken from step `from` on. */
  ghost function Switches(ops: seq<Op>, rs: seq<Result>, from: nat): nat
    requires from <= |ops| == |rs|
    decreases |ops| - from
  {
    if from == |ops| then 0
    else (if ops[from].SwitchOp? && !rs[from].Skipped? then 1 else 0) + Switches(ops, rs, from + 1)
  }

  /** A ready task that nobody kills runs before the scheduler has passed its slot once. */
  lemma {:induction false} Fair(ops: seq<Op>, rs: seq<Result>, trace: seq<View>, from: nat, i: int)
    requires IsRun(ops, rs, trace) && from < |ops| && IsPid(i) && ViewOk(trace[from]) && trace[from].ts[i].state == Ready
    requires KillOp(i) !in ops && Switches(ops, rs, from) > Distance(trace[from].current, i)
    ensures exists k :: from < k < |trace| && ops[k - 1].SwitchOp? && !rs[k - 1].Skipped? && trace[k].current == i
    decreases |ops| - from
  {
    var v, op, r, w := trace[from], ops[from], rs[from], trace[from + 1];
    assert Moves(v, op, r, w);
    ReadyStays(v, op, r, w, i);
    if op.SwitchOp? && !r.Skipped? {
      SwitchFair(v.ts, v.ticks, v.current, op.saved, w.current, w.ts, i);
    } else {
      CurrentStays(v, op, r, w);
    }
    if op.SwitchOp? && !r.Skipped? && w.current == i {
      assert ops[from + 1 - 1].SwitchOp? && trace[from + 1].current == i;
    } else {
      Fair(ops, rs, trace, from + 1, i);
    }
  }

  /** Sixty-three switches are enough for any task but the current one. */
  lemma FairBound(ops: seq<Op>, rs: seq<Result>, trace: seq<View>, i: int)
    requires IsRun(ops, rs, trace) && ops != [] && IsPid(i) && ViewOk(trace[0])
    requires trace[0].ts[i].state == Ready && i != trace[0].current && KillOp(i) !in ops && Switches(ops, rs, 0) >= 63
    ensures exists k :: 0 < k < |trace| && ops[k - 1].SwitchOp? && !rs[k - 1].Skipped? && trace[k].current == i
  {
    var prev := trace[0].current;
    assert Distance(prev, i) == if i > prev then i - prev - 1 else i - prev + 63;
    Fair(ops, rs, trace, 0, i);
  }

  /** Task `b` waits for a child, and one that it waits for is dead. */
  ghost predicate Due(v: View, b: int) {
    && |v.ts| == MAX_TASKS && IsPid(b) && v.ts[b].state == Blocked
    && HasZombie(v.ts, b, v.ts[b].waitFor)
  }

  /** It stays so until a switch, which wakes it; the scheduler runs it at once or comes nearer to its slot. */
  lemma DueStays(v: View, op: Op, r: Result, w: View, b: int)
    requires Moves(v, op, r, w) && Due(v, b) && op != KillOp(b)
    ensures if op.SwitchOp? && !r.Skipped?
            then w.current == b || (|w.ts| == MAX_TASKS && w.ts[b].state == Ready && Distance(w.current, b) < Distance(v.current, b))
            else Due(w, b) && w.current == v.current
  {
    var c :| Matches(v.ts, b, v.ts[b].waitFor, c) && v.ts[c].state == Zombie;
    if op.SwitchOp? && !r.Skipped? {
      SwitchWakes(v.ts, v.ticks, v.current, op.saved, w.current, w.ts, b);
      WokenIsNext(v.ts, v.ticks, v.current, op.saved, w.current, w.ts, b);
    } else if !r.Skipped? {
      assert Matches(w.ts, b, w.ts[b].waitFor, c) && w.ts[c].state == Zombie && w.ts[b].state == Blocked;
    }
  }

  lemma WokenIsNext(ts: seq<Task>, ticks: nat, prev: int, saved: nat, next: int, ts': seq<Task>, b: int)
    requires |ts| == |ts'| == MAX_TASKS && IsPid(prev) && Switched(ts, ticks, prev, saved, next, ts') && IsPid(b)
    requires ts[b].state == Blocked && (ts'[b].state == Ready || ts'[b].state == Running)
    ensures next == b || (ts'[b].state == Ready && Distance(next, b) < Distance(prev, b))
  {
    var awake := Awake(ts, ticks, prev, saved);
    assert awake[b] == Woken(ts[prev := PutAway(ts[prev], saved)], ticks, b);
    if next != b {
      assert awake[b].state == Ready;
      Nearer(prev, next, b);
    }
  }

  /** A waiter with a dead child runs before the scheduler has passed its slot once, unless it is killed. */
  lemma {:induction false} DueRuns(ops: seq<Op>, rs: seq<Result>, trace: seq<View>, from: nat, b: int)
    requires IsRun(ops, rs, trace) && from < |ops| && Due(trace[from], b)
    requires KillOp(b) !in ops && Switches(ops, rs, from) > Distance(trace[from].current, b)
    ensures exists k :: from < k < |trace| && ops[k - 1].SwitchOp? && !rs[k - 1].Skipped? && trace[k].current == b
    decreases |ops| - from
  {
    var v, op, r, w := trace[from], ops[from], rs[from], trace[from + 1];
    assert Moves(v, op, r, w);
    DueStays(v, op, r, w, b);
    if op.SwitchOp? && !r.Skipped? {
      if w.current == b {
        assert ops[from + 1 - 1].SwitchOp? && trace[from + 1].current == b;
      } else {
        Fair(ops, rs, trace, from + 1, b);
      }
    } else {
      DueRuns(ops, rs, trace, from + 1, b);
    }
  }

  /** In every run, when a child dies that a task waits for, by its own exit or by a kill, that task runs within 64 switches
      unless it is killed. */
  lemma WaiterRuns(ops: seq<Op>, rs: seq<Result>, trace: seq<View>, at: nat, b: int, c: int)
    requires IsRun(ops, rs, trace) && at < |ops| && !rs[at].Skipped? && ViewOk(trace[at]) && IsPid(b) && trace[at].ts[b].state == Blocked
    requires Matches(trace[at].ts, b, trace[at].ts[b].waitFor, c)
    requires (ops[at].ExitOp? && trace[at].current == c) || (ops[at] == KillOp(c) && rs[at] == Error(0))
    requires KillOp(b) !in ops && Switches(ops, rs, at + 1) >= 64
    ensures exists k :: at + 1 < k < |trace| && ops[k - 1].SwitchOp? && !rs[k - 1].Skipped? && trace[k].current == b
  {
    var v, w := trace[at], trace[at + 1];
    assert Moves(v, ops[at], rs[at], w);
    assert ops[at] in ops;
    assert Matches(w.ts, b, w.ts[b].waitFor, c) && w.ts[c].state == Zombie && w.ts[b].state == Blocked;
    DueRuns(ops, rs, trace, at + 1, b);
  }

  /** A dead task keeps its code until a wait of the parent it has then collects it, which reports that code. */
  lemma {:induction false} DeadUntilReaped(ops: seq<Op>, rs: seq<Result>, trace: seq<View>, from: nat, i: int)
    requires IsRun(ops, rs, trace) && from <= |ops| && IsPid(i) && |trace[from].ts| == MAX_TASKS && trace[from].ts[i].state == Zombie
    ensures || (var w := trace[|ops|]; |w.ts| == MAX_TASKS && w.ts[i].state == Zombie && w.ts[i].exitCode == trace[from].ts[i].exitCode)
            || exists k :: from <= k < |ops| && Collects(trace[k], ops[k], rs[k], trace[k + 1], i)
                           && rs[k].wait.status == Status(trace[from].ts[i].exitCode)
    decreases |ops| - from
  {
    if from < |ops| {
      assert Moves(trace[from], ops[from], rs[from], trace[from + 1]);
      DeadStays(trace[from], ops[from], rs[from], trace[from + 1], i);
      if !Collects(trace[from], ops[from], rs[from], trace[from + 1], i) {
        DeadUntilReaped(ops, rs, trace, from + 1, i);
      }
    }
  }

  /** The status of a task that exits is reported to whoever collects it, and decodes to its exit code if and only if
      that is 0 to 255; if nobody has collected it, it is still dead with that code. */
  lemma ExitReported(ops: seq<Op>, rs: seq<Result>, trace: seq<View>, at: nat, code: int)
    requires IsRun(ops, rs, trace) && at < |ops| && ops[at] == ExitOp(code) && !rs[at].Skipped?
    ensures var i := trace[at].current;
            || (var w := trace[|ops|]; |w.ts| == MAX_TASKS && IsPid(i) && w.ts[i].state == Zombie && w.ts[i].exitCode == code)
            || exists k :: at < k < |ops| && Collects(trace[k], ops[k], rs[k], trace[k + 1], i)
                           && (Decode(rs[k].wait.status) == Exited(code) <==> 0 <= code < 256)
  {
    assert Moves(trace[at], ops[at], rs[at], trace[at + 1]);
    DeadUntilReaped(ops, rs, trace, at + 1, trace[at].current);
    ExitDecodes(code);
  }

  /** The same for a task that is killed. */
  lemma KillReported(ops: seq<Op>, rs: seq<Result>, trace: seq<View>, at: nat, i: int)
    requires IsRun(ops, rs, trace) && at < |ops| && ops[at] == KillOp(i) && rs[at] == Error(0)
    ensures || (var w := trace[|ops|]; |w.ts| == MAX_TASKS && IsPid(i) && w.ts[i].state == Zombie && w.ts[i].exitCode == -SIGKILL)
            || exists k :: at < k < |ops| && Collects(trace[k], ops[k], rs[k], trace[k + 1], i)
                           && Decode(rs[k].wait.status) == Signaled(SIGKILL)
  {
    assert Moves(trace[at], ops[at], rs[at], trace[at + 1]);
    DeadUntilReaped(ops, rs, trace, at + 1, i);
    SignalDecodes(SIGKILL);
  }
}
