/** `tasks[64]`, `current_task` and the operations that change them in place. */
module ProcessTables {

  import opened ProcessTree
  import opened Processes
  import opened ProcessSteps

  class ProcessTable {
    const tasks: array<Task>
    var current: int
    var ticks: nat
    /** The stack pointer handed to and taken from the scheduler. */
    var savedRsp: nat
    /** Where the processor puts frames when it enters the kernel from user mode. */
    var rsp0: nat

    /** The kernel stacks kmalloc has handed out, and to whom. */
    var owner: map<nat, nat>
    /** The stack the current task's kernel frames are on. */
    var onStack: nat

    /** Child lists, and a height that grows along parent links. */
    ghost var kids: seq<seq<int>>
    ghost var rank: seq<nat>

    ghost predicate Valid()
      reads this, tasks
    {
      && tasks.Length == MAX_TASKS && TreeOk(tasks[..], kids, rank) && RunOk(tasks[..], current)
      && WaitsOk(tasks[..]) && StacksOk(tasks[..], current, owner)
      && (current != 0 ==> rsp0 == tasks[current].stack + TASK_STACK_SIZE && OnOwnStack(tasks[current], onStack))
    }

    /** After boot: idle is running and task 1 is ready. */
    constructor (idleStack: nat, initStack: nat)
      requires idleStack != 0 && initStack != 0
      requires idleStack + TASK_STACK_SIZE <= initStack || initStack + TASK_STACK_SIZE <= idleStack
      ensures Valid() && current == 0 && ticks == 0 && fresh(tasks)
      ensures tasks[0].state == Running && tasks[1].state == Ready && tasks[1].parent == 0
      ensures forall i :: 2 <= i < MAX_TASKS ==> tasks[i].state == Unused
    {
      tasks := new Task[MAX_TASKS](_ => Task(Unused, -1, -1, -1, 0, -1, 0, 0, 0, 0));
      current, ticks, savedRsp, rsp0, onStack := 0, 0, 0, 0, 0;
      owner := map[idleStack := 0, initStack := 1];
      kids, rank := seq(MAX_TASKS, _ => []), seq(MAX_TASKS, i => if i <= 1 then i else 2);
      new;
      tasks[0] := Task(Running, -1, -1, -1, 0, -1, 0, idleStack, 0, 0);
      tasks[1] := Task(Ready, 0, -1, -1, 0, -1, 0, initStack, initStack + TASK_STACK_SIZE - FRAME_SIZE, 0);
      BootTree(tasks[..], kids, rank);
      BootStacks(tasks[..], owner, idleStack, initStack);
    }

    static lemma BootTree(ts: seq<Task>, kids: seq<seq<int>>, rank: seq<nat>)
      requires |ts| == |kids| == |rank| == MAX_TASKS
      requires forall i :: 0 <= i < MAX_TASKS ==> kids[i] == [] && rank[i] == (if i <= 1 then i else 2) && ts[i].first == -1 && ts[i].next == -1
      requires ts[0].state == Running && ts[0].parent == -1 && ts[1].state == Ready && ts[1].parent == 0
      requires forall i :: 2 <= i < MAX_TASKS ==> ts[i].state == Unused && ts[i].parent == -1
      ensures TreeOk(ts, kids, rank) && WaitsOk(ts) && RunOk(ts, 0)
    {
      forall p: nat | p < MAX_TASKS ensures KidsOk(ts, kids, p) { assert kids[p] == []; }
      forall c: nat | c < MAX_TASKS ensures PlaceOk(ts, kids, rank, c) && WaitOk(ts, c) { assert c >= 2 ==> ts[c].state == Unused; }
    }

    static lemma BootStacks(ts: seq<Task>, owner: map<nat, nat>, idle: nat, init: nat)
      requires |ts| == MAX_TASKS && owner == map[idle := 0, init := 1] && idle != 0 && init != 0
      requires idle + TASK_STACK_SIZE <= init || init + TASK_STACK_SIZE <= idle
      requires ts[0].state == Running && ts[0].stack == idle && ts[0].pending == 0
      requires ts[1].state == Ready && ts[1].stack == init && ts[1].pending == 0 && InStack(ts[1].rsp, init)
      requires forall i :: 2 <= i < MAX_TASKS ==> ts[i].state == Unused && ts[i].stack == 0 && ts[i].pending == 0
      ensures StacksOk(ts, 0, owner)
    {
      assert idle in owner && init in owner && owner[idle] == 0 && owner[init] == 1;
      forall i: nat | i < MAX_TASKS ensures HoldsOk(ts, 0, owner, i) { }
      forall b: nat ensures OwnedOk(ts, owner, b) { }
    }

    /** The current task is inside a system call.  Idle makes none. */
    ghost predicate InSyscall()
      reads this, tasks
    {
      Valid() && current != 0 && tasks[current].state == Running
    }

    ghost function Now(): View
      reads this, tasks
    {
      View(tasks[..], current, ticks, owner, onStack, kids, rank)
    }

    /** The processor enters the kernel from user mode: onto the current task's own stack. */
    method Enter()
      requires Valid()
      modifies this`onStack
      ensures Valid() && (current != 0 ==> onStack == tasks[current].stack)
    {
      if current != 0 { onStack := rsp0 - TASK_STACK_SIZE; }
    }

    // ----- searching the table -----

    method AllocTask() returns (slot: int)
      requires tasks.Length == MAX_TASKS
      ensures slot == -1 || (IsPid(slot) && tasks[slot].state == Unused)
      ensures forall i :: 0 <= i < (if slot == -1 then MAX_TASKS else slot) ==> tasks[i].state != Unused
    {
      for i := 0 to MAX_TASKS
        invariant forall j :: 0 <= j < i ==> tasks[j].state != Unused
      {
        if tasks[i].state == Unused { return i; }
      }
      return -1;
    }

    method FindChild(parent: int, pid: int, zombie: bool) returns (found: int)
      requires tasks.Length == MAX_TASKS
      ensures found == -1 || (Matches(tasks[..], parent, pid, found) && (tasks[found].state == Zombie) == zombie)
      ensures forall i :: 0 <= i < (if found == -1 then MAX_TASKS else found) && Matches(tasks[..], parent, pid, i) ==>
                (tasks[i].state == Zombie) != zombie
    {
      for i := 0 to MAX_TASKS
        invariant forall j :: 0 <= j < i && Matches(tasks[..], parent, pid, j) ==> (tasks[j].state == Zombie) != zombie
      {
        if tasks[i].state != Unused && (tasks[i].state == Zombie) == zombie {
          if tasks[i].parent == parent && (pid == -1 || i == pid) { return i; }
        }
      }
      return -1;
    }

    // ----- fork -----

    /** task_fork, given what kmalloc returned for the stack and whether the address space could be copied. */
    method Fork(stack: nat, copied: bool) returns (slot: int)
      requires InSyscall() && Fresh(owner, stack)
      modifies this, tasks
      ensures Valid() && current == old(current) && ticks == old(ticks) && onStack == old(onStack)
      ensures slot == -1 ==> tasks[..] == old(tasks[..]) && kids == old(kids) && rank == old(rank) && owner == old(owner)
      ensures slot == -1 <==> stack == 0 || !copied || forall i :: 0 <= i < MAX_TASKS ==> old(tasks[i]).state != Unused
      ensures slot != -1 ==>
                && IsPid(slot) && old(tasks[slot]).state == Unused && (forall i :: 0 <= i < slot ==> old(tasks[i]).state != Unused)
                && tasks[slot] == Task(Ready, current, -1, old(tasks[current]).first, 0, -1, 0, stack, stack + TASK_STACK_SIZE - FRAME_SIZE, 0)
                && kids == old(kids)[current := [slot] + old(kids)[current]] && owner == old(owner)[stack := slot]
                && tasks[current] == old(tasks[current]).(first := slot)
                && forall i :: 0 <= i < MAX_TASKS && i != slot && i != current ==> tasks[i] == old(tasks[i])
    {
      slot := AllocTask();
      if slot < 0 || stack == 0 || !copied { return -1; }
      ghost var ts, k, r := tasks[..], kids, rank;
      assert PlaceOk(ts, k, r, 0) && PlaceOk(ts, k, r, 1);
      var child := Task(Ready, current, -1, tasks[current].first, 0, -1, 0, stack, stack + TASK_STACK_SIZE - FRAME_SIZE, 0);
      AddChild(ts, k, r, current, slot, child);
      tasks[slot] := child;
      tasks[current] := tasks[current].(first := slot);
      kids, rank, owner := k[current := [slot] + k[current]], r[slot := r[current] + 2], owner[stack := slot];
      assert tasks[..] == ts[slot := child][current := ts[current].(first := slot)];
      ForkStacks(ts, tasks[..], current, old(owner), slot);
      ForkWaits(ts, tasks[..], slot);
    }

    // ----- death -----

    /** task_reparent_children: the list of `d` is reversed onto the front of its heir's. */
    method ReparentChildren(d: int)
      requires tasks.Length == MAX_TASKS && TreeOk(tasks[..], kids, rank) && 0 < d < MAX_TASKS && Alive(tasks[d])
      modifies this`kids, tasks
      ensures TreeOk(tasks[..], kids, rank) && |old(kids)| == MAX_TASKS
      ensures var np := Heir(old(tasks[..]), d);
              && kids == old(kids)[d := []][np := Rev(old(kids)[d]) + old(kids)[np]]
              && forall i :: 0 <= i < MAX_TASKS ==> Relinked(old(tasks[i]), tasks[i], d, np)
      ensures tasks[d].first == -1 && tasks[d].parent == old(tasks[d].parent)
      ensures forall i :: 0 <= i < MAX_TASKS && tasks[i].state != Unused ==> tasks[i].parent != d
    {
      ghost var k, n := kids, 0;
      var np := Heir(tasks[..], d);
      var child := tasks[d].first;
      Before(tasks[..], k, rank, d);
      while child >= 0
        invariant 0 <= n <= |k[d]| && Alive(tasks[np])
        invariant kids == k[d := k[d][n..]][np := Rev(k[d][..n]) + k[np]]
        invariant TreeOk(tasks[..][d := tasks[d].(first := child)], kids, rank)
        invariant forall i :: 0 <= i < MAX_TASKS ==> Relinked(old(tasks[i]), tasks[i], d, np)
        invariant tasks[d].parent == old(tasks[d].parent)
        decreases |k[d]| - n
      {
        ghost var ts := tasks[..][d := tasks[d].(first := child)];
        assert KidsOk(ts, kids, d);
        MoveChild(ts, kids, rank, d, np);
        var next := tasks[child].next;
        tasks[child] := tasks[child].(parent := np);
        tasks[child] := tasks[child].(next := tasks[np].first);
        tasks[np] := tasks[np].(first := child);
        assert tasks[..][d := tasks[d].(first := next)] == Moved(ts, d, np);
        OneMoved(k, d, np, n);
        kids := kids[d := kids[d][1..]][np := [kids[d][0]] + kids[np]];
        n := n + 1;
        child := next;
      }
      ghost var ts := tasks[..][d := tasks[d].(first := child)];
      assert KidsOk(ts, kids, d);
      assert n == |k[d]| && k[d][n..] == [] && k[d][..n] == k[d];
      tasks[d] := tasks[d].(first := -1);
      assert tasks[..] == ts;
      forall i | 0 <= i < MAX_TASKS && tasks[i].state != Unused ensures tasks[i].parent != d {
        ListIsChildren(tasks[..], kids, rank, d, i);
        assert PlaceOk(tasks[..], kids, rank, i);
      }
    }

    /** The part exit and kill share: hand over the children, drop the stack exec left, become a zombie. */
    method Die(d: int, code: int)
      requires Valid() && 0 < d < MAX_TASKS && Alive(tasks[d])
      modifies this`kids, this`owner, tasks
      ensures tasks.Length == MAX_TASKS && TreeOk(tasks[..], kids, rank) && |old(kids)| == MAX_TASKS
      ensures WaitsOk(tasks[..]) && StacksOk(tasks[..], current, owner)
      ensures var np := Heir(old(tasks[..]), d);
              && kids == old(kids)[d := []][np := Rev(old(kids)[d]) + old(kids)[np]]
              && Died(old(tasks[..]), tasks[..], d, np, code)
      ensures owner == old(owner) - {old(tasks[d]).pending}
    {
      ghost var was := tasks[..];
      ReparentChildren(d);
      ghost var ts := tasks[..];
      assert KidsOk(ts, kids, d);
      if tasks[d].pending != 0 {
        owner := owner - {tasks[d].pending};
        tasks[d] := tasks[d].(pending := 0);
      }
      tasks[d] := tasks[d].(state := Zombie, exitCode := code);
      assert tasks[..] == ts[d := ts[d].(pending := 0, state := Zombie, exitCode := code)];
      Zombify(ts, kids, rank, d, tasks[d]);
      assert Died(was, tasks[..], d, Heir(was, d), code);
      DiedWaits(was, tasks[..], d, Heir(was, d), code);
      DiedStacks(was, tasks[..], current, old(owner), d, Heir(was, d), code);
      NullOwned(was, current, old(owner));
    }

    /** task_exit_code; the zombie stays current until the next switch. */
    method Exit(code: int)
      requires InSyscall() && onStack == tasks[current].stack
      modifies this`kids, this`owner, tasks
      ensures Valid() && |old(kids)| == MAX_TASKS
      ensures var np := Heir(old(tasks[..]), current);
              && kids == old(kids)[current := []][np := Rev(old(kids)[current]) + old(kids)[np]]
              && Died(old(tasks[..]), tasks[..], current, np, code)
      ensures owner == old(owner) - {old(tasks[current]).pending}
    {
      Die(current, code);
    }

    method Kill(id: int) returns (err: int)
      requires InSyscall()
      modifies this`kids, this`owner, tasks
      ensures Valid() && owner == old(owner) && |old(kids)| == MAX_TASKS
      ensures err == 0 <==> 0 < id < MAX_TASKS && id != current && Alive(old(tasks[..])[id])
      ensures err != 0 ==>
                && err == (if IsPid(id) && id == current then -EINVAL else if id == 0 then -EPERM else -ESRCH)
                && tasks[..] == old(tasks[..]) && kids == old(kids)
      ensures err == 0 ==>
                var np := Heir(old(tasks[..]), id);
                && kids == old(kids)[id := []][np := Rev(old(kids)[id]) + old(kids)[np]]
                && Died(old(tasks[..]), tasks[..], id, np, -SIGKILL)
    {
      if id < 0 || id >= MAX_TASKS { return -ESRCH; }
      if id == current { return -EINVAL; }
      if id == 0 { return -EPERM; }
      if tasks[id].state == Unused || tasks[id].state == Zombie { return -ESRCH; }
      assert HoldsOk(tasks[..], current, owner, id);
      NullOwned(tasks[..], current, owner);
      Die(id, -SIGKILL);
      return 0;
    }

    // ----- wait -----

    /** task_remove_child: unlink `c` from the list of `p`. */
    method RemoveFromList(p: int, c: int) returns (ghost i: nat)
      requires tasks.Length == MAX_TASKS && TreeOk(tasks[..], kids, rank) && IsPid(p) && IsPid(c) && c in kids[p] && p != c
      modifies tasks
      ensures i < |kids[p]| && kids[p][i] == c && (i > 0 ==> IsPid(kids[p][i - 1]) && kids[p][i - 1] != c)
      ensures tasks[c] == old(tasks[c]).(next := -1)
      ensures tasks[p] == old(tasks[p]).(first := if i == 0 then old(tasks[c]).next else old(tasks[p]).first, next := tasks[p].next)
      ensures i > 0 ==> tasks[kids[p][i - 1]].next == old(tasks[c]).next
      ensures forall d :: 0 <= d < MAX_TASKS && d != c ==>
                && tasks[d] == old(tasks[d]).(first := tasks[d].first, next := tasks[d].next)
                && (d != p ==> tasks[d].first == old(tasks[d]).first)
                && (i == 0 || d != kids[p][i - 1] ==> tasks[d].next == old(tasks[d]).next)
    {
      assert KidsOk(tasks[..], kids, p);
      ghost var list := kids[p];
      i :| 0 <= i < |list| && list[i] == c;
      if tasks[p].first == c {
        tasks[p] := tasks[p].(first := tasks[c].next);
      } else {
        var prev := tasks[p].first;
        ghost var j := 0;
        assert list[0] == prev;
        while prev >= 0 && tasks[prev].next != c
          invariant 0 <= j < i && prev == list[j]
          invariant IsPid(prev)
          decreases i - j
        {
          assert tasks[list[j]].next == list[j + 1];
          prev := tasks[prev].next;
          j := j + 1;
        }
        assert list[j + 1] == c;
        assert j + 1 == i;
        if prev >= 0 { tasks[prev] := tasks[prev].(next := tasks[c].next); }
      }
      tasks[c] := tasks[c].(next := -1);
    }

    /** One round of task_wait's loop. */
    method Wait(pid: int, nohang: bool) returns (r: WaitResult)
      requires InSyscall()
      modifies this`kids, this`owner, tasks
      ensures Valid() && |old(kids)| == MAX_TASKS
      ensures r.Reaps? <==> HasZombie(old(tasks[..]), current, pid)
      ensures r.Reaps? ==>
                && Matches(old(tasks[..]), current, pid, r.pid) && old(tasks[r.pid]).state == Zombie
                && (forall i :: 0 <= i < r.pid && Matches(old(tasks[..]), current, pid, i) ==> old(tasks[i]).state != Zombie)
                && r.status == Status(old(tasks[r.pid]).exitCode)
                && tasks[r.pid] == Cleared(old(tasks[r.pid]))
                && kids == old(kids)[current := Without(old(kids)[current], r.pid)]
                && owner == old(owner) - {old(tasks[r.pid]).stack}
                && forall d :: 0 <= d < MAX_TASKS && d != r.pid ==>
                     tasks[d] == old(tasks[d]).(first := tasks[d].first, next := tasks[d].next)
      ensures r.NoChild? <==> forall c :: !Matches(old(tasks[..]), current, pid, c)
      ensures !r.Reaps? ==> kids == old(kids) && owner == old(owner)
      ensures r.NoChild? || r.NotYet? ==> tasks[..] == old(tasks[..])
      ensures r.NotYet? ==> nohang
      ensures r.Blocks? ==> !nohang && tasks[..] == old(tasks[..])[current := old(tasks[current]).(state := Blocked, waitFor := pid)]
    {
      var found := FindChild(current, pid, true);
      ghost var ts := tasks[..];
      if found >= 0 {
        var code := tasks[found].exitCode;
        Reap(found);
        return Reaps(found, Status(code));
      }
      var child := FindChild(current, pid, false);
      if child < 0 { return NoChild; }
      if nohang { return NotYet; }
      tasks[current] := tasks[current].(state := Blocked, waitFor := pid);
      assert tasks[..] == ts[current := ts[current].(state := Blocked, waitFor := pid)];
      BlockKeeps(ts, kids, rank, current, pid, child);
      StacksKept(ts, tasks[..], current, owner);
      return Blocks;
    }

    /** The reaping half of task_wait. */
    method Reap(found: int)
      requires InSyscall() && IsPid(found) && tasks[found].state == Zombie && tasks[found].parent == current
      modifies this`kids, this`owner, tasks
      ensures Valid() && |old(kids)| == MAX_TASKS
      ensures tasks[found] == Cleared(old(tasks[found]))
      ensures kids == old(kids)[current := Without(old(kids)[current], found)]
      ensures owner == old(owner) - {old(tasks[found]).stack}
      ensures forall d :: 0 <= d < MAX_TASKS && d != found ==>
                tasks[d] == old(tasks[d]).(first := tasks[d].first, next := tasks[d].next)
    {
      ghost var ts := tasks[..];
      assert PlaceOk(ts, kids, rank, found) && HoldsOk(ts, current, owner, found);
      ListIsChildren(ts, kids, rank, current, found);
      ghost var i := RemoveFromList(current, found);
      // task_cleanup frees kernel_stack and then the equal stack
      owner := owner - {tasks[found].stack};
      tasks[found] := Cleared(tasks[found]);
      assert Reaped(ts, kids, current, i, found, tasks[..]);
      RemoveChild(ts, kids, rank, current, i, found, tasks[..]);
      kids := kids[current := Without(kids[current], found)];
      ReapStacks(ts, tasks[..], current, old(owner), found);
      ReapWaits(ts, tasks[..], current, found);
    }

    // ----- sleep, exec -----

    /** task_sleep up to the halt. */
    method Sleep(ms: nat)
      requires InSyscall()
      modifies tasks
      ensures Valid()
      ensures tasks[..] == old(tasks[..])[current := old(tasks[current]).(state := Sleeping, sleepUntil := ticks + ms)]
    {
      ghost var ts := tasks[..];
      tasks[current] := tasks[current].(sleepUntil := ticks + ms);
      tasks[current] := tasks[current].(state := Sleeping);
      assert tasks[..] == ts[current := ts[current].(state := Sleeping, sleepUntil := ticks + ms)];
      assert PlaceOk(ts, kids, rank, 0);
      SameTree(ts, kids, rank, tasks[..]);
      WaitsKept(ts, tasks[..]);
      StacksKept(ts, tasks[..], current, owner);
    }

    /** The kernel-stack hand-over of do_exec, once the new address space is built. */
    method Exec(stack: nat) returns (ok: bool)
      requires InSyscall() && Fresh(owner, stack) && onStack == tasks[current].stack
      modifies this`owner, this`rsp0, tasks
      ensures Valid() && ok == (stack != 0)
      ensures !ok ==> tasks[..] == old(tasks[..]) && owner == old(owner)
      ensures ok ==>
                && tasks[..] == old(tasks[..])[current := old(tasks[current]).(
                     stack := stack, rsp := stack + TASK_STACK_SIZE - FRAME_SIZE, pending := onStack)]
                && owner == (old(owner) - {old(tasks[current]).pending})[stack := current]
    {
      if stack == 0 { return false; }
      ghost var ts := tasks[..];
      ExecStacks(ts, ts[current := ts[current].(stack := stack, rsp := stack + TASK_STACK_SIZE - FRAME_SIZE, pending := ts[current].stack)],
                 current, owner, stack, stack + TASK_STACK_SIZE - FRAME_SIZE);
      NullOwned(ts, current, owner);
      assert HoldsOk(ts, current, owner, current);
      var oldStack := tasks[current].stack;
      tasks[current] := tasks[current].(stack := stack, rsp := stack + TASK_STACK_SIZE - FRAME_SIZE);
      owner := owner[stack := current];
      rsp0 := stack + TASK_STACK_SIZE;
      if tasks[current].pending != 0 {
        owner := owner - {tasks[current].pending};
      }
      tasks[current] := tasks[current].(pending := oldStack);
      assert tasks[..] == ts[current := ts[current].(stack := stack, rsp := stack + TASK_STACK_SIZE - FRAME_SIZE, pending := ts[current].stack)];
      assert owner == (old(owner) - {ts[current].pending})[stack := current];
      assert PlaceOk(ts, kids, rank, 0);
      SameTree(ts, kids, rank, tasks[..]);
      WaitsKept(ts, tasks[..]);
      return true;
    }

    // ----- scheduler -----

    /** scheduler_tick's effect on the table. */
    method Tick()
      requires Valid()
      modifies this`ticks, tasks
      ensures Valid() && ticks == old(ticks) + 1
      ensures forall i :: 0 <= i < MAX_TASKS ==>
                var t := old(tasks[i]);
                tasks[i] == if t.state == Sleeping && ticks >= t.sleepUntil then t.(state := Ready, sleepUntil := 0) else t
    {
      ghost var ts := tasks[..];
      ticks := ticks + 1;
      for i := 0 to MAX_TASKS
        invariant ticks == old(ticks) + 1
        invariant forall j :: 0 <= j < MAX_TASKS ==>
                    tasks[j] == if j < i && ts[j].state == Sleeping && ticks >= ts[j].sleepUntil
                                then ts[j].(state := Ready, sleepUntil := 0) else ts[j]
      {
        if tasks[i].state == Sleeping && ticks >= tasks[i].sleepUntil {
          tasks[i] := tasks[i].(state := Ready, sleepUntil := 0);
        }
      }
      assert PlaceOk(ts, kids, rank, 0);
      SameTree(ts, kids, rank, tasks[..]);
      WaitsKept(ts, tasks[..]);
      StacksKept(ts, tasks[..], current, owner);
    }

    /** The waking loop of do_schedule. */
    method Wake()
      requires tasks.Length == MAX_TASKS
      modifies tasks
      ensures forall i :: 0 <= i < MAX_TASKS ==> tasks[i] == Woken(old(tasks[..]), ticks, i)
    {
      ghost var ts := tasks[..];
      for i := 0 to MAX_TASKS
        invariant forall j :: 0 <= j < MAX_TASKS ==> tasks[j] == if j < i then Woken(ts, ticks, j) else ts[j]
      {
        if tasks[i].state == Sleeping && ticks >= tasks[i].sleepUntil {
          tasks[i] := tasks[i].(state := Ready, sleepUntil := 0);
        }
        if tasks[i].state == Blocked {
          ZombiesStay(ts, tasks[..], ticks, i, tasks[i].waitFor);
          var c := FindChild(i, tasks[i].waitFor, true);
          if c >= 0 { tasks[i] := tasks[i].(state := Ready, waitFor := -1); }
        }
      }
    }

    /** The choice of do_schedule: the first ready slot going round from `prev`, with its two fall-backs. */
    method Pick(prev: int) returns (next: int)
      requires tasks.Length == MAX_TASKS && IsPid(prev)
      ensures if exists j :: 0 <= j < MAX_TASKS && tasks[j].state == Ready then IsNext(tasks[..], prev, next)
              else next == if tasks[prev].state == Running then prev else -1
    {
      for i := 1 to MAX_TASKS + 1
        invariant forall j :: 0 <= j < MAX_TASKS && tasks[j].state == Ready ==> Distance(prev, j) >= i - 1
      {
        var idx := (prev + i) % MAX_TASKS;
        assert Distance(prev, idx) == i - 1;
        if tasks[idx].state == Ready { return idx; }
        forall j | 0 <= j < MAX_TASKS && tasks[j].state == Ready ensures Distance(prev, j) >= i { SlotAt(prev, j, i); }
      }
      if tasks[prev].state == Ready || tasks[prev].state == Running { return prev; }
      for i := 0 to MAX_TASKS {
        if tasks[i].state == Ready { return i; }
      }
      return -1;
    }

    /** do_schedule puts the current task away; a frame on the stack that exec left is not kept. */
    method Leave(saved: nat)
      requires tasks.Length == MAX_TASKS && IsPid(current)
      modifies tasks
      ensures tasks[..] == old(tasks[..])[current := PutAway(old(tasks[current]), saved)]
    {
      ghost var ts := tasks[..];
      if tasks[current].state == Running { tasks[current] := tasks[current].(state := Ready); }
      if tasks[current].pending != 0 {
        var oldBase := tasks[current].pending;
        if saved < oldBase || saved >= oldBase + TASK_STACK_SIZE { tasks[current] := tasks[current].(rsp := saved); }
      } else {
        tasks[current] := tasks[current].(rsp := saved);
      }
      assert tasks[..] == ts[current := PutAway(ts[current], saved)];
    }

    /** The last part of do_schedule: release the stack exec left behind and load the next task. */
    method SwitchTo(next: int)
      requires tasks.Length == MAX_TASKS && IsPid(current) && IsPid(next)
      modifies this, tasks
      ensures kids == old(kids) && rank == old(rank) && ticks == old(ticks) && onStack == old(onStack)
      ensures forall i :: 0 <= i < MAX_TASKS ==>
                var t := old(tasks[i]).(pending := if i == old(current) then 0 else old(tasks[i]).pending);
                tasks[i] == if i == next then t.(state := Running) else t
      ensures owner == if old(tasks[current]).pending == 0 then old(owner) else old(owner) - {old(tasks[current]).pending}
      ensures current == next && savedRsp == tasks[next].rsp && rsp0 == tasks[next].stack + TASK_STACK_SIZE
    {
      if tasks[current].pending != 0 {
        owner := owner - {tasks[current].pending};
        tasks[current] := tasks[current].(pending := 0);
      }
      current := next;
      tasks[next] := tasks[next].(state := Running);
      savedRsp := tasks[next].rsp;
      rsp0 := tasks[next].stack + TASK_STACK_SIZE;
    }

    /** do_schedule, entered with the outgoing stack pointer `saved`.  Idle is always ready, so a successor is always found. */
    method DoSchedule(saved: nat)
      requires Valid() && (current != 0 ==> InStack(saved, onStack))
      modifies this, tasks
      ensures Valid() && ticks == old(ticks) && kids == old(kids) && rank == old(rank) && onStack == tasks[current].stack
      ensures Switched(old(tasks[..]), ticks, old(current), saved, current, tasks[..])
      ensures owner == old(owner) - {old(tasks[current]).pending}
      ensures savedRsp == tasks[current].rsp && tasks[current].state == Running
      ensures current != 0 ==>
                && onStack in owner && InStack(savedRsp, onStack)
                && rsp0 == onStack + TASK_STACK_SIZE
    {
      ghost var ts, prev := tasks[..], current;
      Leave(saved);
      ghost var put := tasks[..];
      Wake();
      assert tasks[..] == Awake(ts, ticks, prev, saved);
      IdleReady(ts, kids, rank, ticks, prev, saved);
      var next := Pick(current);
      assert tasks[..][prev].pending == ts[prev].pending;
      SwitchTo(next);
      PendingKept(ts, ticks, prev, saved);
      assert Switched(ts, ticks, prev, saved, next, tasks[..]);
      SwitchTree(ts, ticks, prev, saved, next, tasks[..], kids, rank);
      SwitchStacks(ts, ticks, prev, saved, next, tasks[..], old(owner), onStack);
      NullOwned(ts, prev, old(owner));
      onStack := tasks[next].stack;
      assert HoldsOk(tasks[..], next, owner, next);
    }

    // ----- runs -----

    /** Whether the machine can take this step now. */
    predicate Able(op: Op)
      requires Valid()
      reads this, tasks
      ensures Able(op) <==> CanDo(Now(), op)
    {
      var calls := current != 0 && tasks[current].state == Running;
      match op
      case TickOp => true
      case SwitchOp(saved, user) =>
        current == 0 || (if user then calls && InStack(saved, tasks[current].stack) else InStack(saved, onStack))
      case ForkOp(stack, _) => calls && IsFresh(stack)
      case ExecOp(stack) => calls && IsFresh(stack)
      case _ => calls
    }

    predicate IsFresh(stack: nat)
      reads this
      ensures IsFresh(stack) <==> Fresh(owner, stack)
    {
      stack == 0 || forall b <- owner :: b + TASK_STACK_SIZE <= stack || stack + TASK_STACK_SIZE <= b
    }

    lemma NowOk()
      requires Valid()
      ensures ViewOk(Now())
    {
      assert PlaceOk(tasks[..], kids, rank, 0);
    }

    /** One step of the machine.  System calls and interrupts from user mode enter on the current task's stack. */
    method Step(op: Op) returns (r: Result)
      requires Valid() && Able(op)
      modifies this, tasks
      ensures Valid() && !r.Skipped? && Follows(old(Now()), op, r, Now())
    {
      NowOk();
      ghost var v := Now();
      match op
      case SwitchOp(saved, user) =>
        if user { Enter(); }
        DoSwitch(v, saved);
        r := Nothing;
      case TickOp =>
        DoTick();
        r := Nothing;
      case _ =>
        Enter();
        NowOk();
        ghost var u := Now();
        r := Syscall(op);
        Entered(v, u, op, r, Now());
    }

    method Syscall(op: Op) returns (r: Result)
      requires InSyscall() && onStack == tasks[current].stack && !op.SwitchOp? && !op.TickOp?
      requires op.ForkOp? || op.ExecOp? ==> Fresh(owner, op.stack)
      modifies this, tasks
      ensures Valid() && !r.Skipped? && Follows(old(Now()), op, r, Now())
    {
      match op
      case ForkOp(stack, copied) =>
        var slot := DoFork(stack, copied);
        r := Slot(slot);
      case ExitOp(code) =>
        DoExit(code);
        r := Nothing;
      case KillOp(id) =>
        var err := DoKill(id);
        r := Error(err);
      case WaitOp(pid, nohang) =>
        var got := DoWait(pid, nohang);
        r := Waited(got);
      case SleepOp(ms) =>
        NowOk();
        Sleep(ms);
        NowOk();
        r := Nothing;
      case ExecOp(stack) =>
        var ok := DoExec(stack);
        r := Replaced(ok);
    }

    // ----- the same operations as steps -----

    method DoSwitch(ghost v: View, saved: nat)
      requires Valid() && (current != 0 ==> InStack(saved, onStack)) && ViewOk(v) && Now() == v.(onStack := onStack)
      modifies this, tasks
      ensures Valid() && ViewOk(Now()) && SwitchesTo(v, saved, Now())
    {
      DoSchedule(saved);
      NowOk();
    }

    method DoTick()
      requires Valid() && ViewOk(Now())
      modifies this`ticks, tasks
      ensures Valid() && ViewOk(Now()) && Ticked(old(Now()), Now())
    {
      Tick();
      NowOk();
    }

    method DoFork(stack: nat, copied: bool) returns (slot: int)
      requires InSyscall() && Fresh(owner, stack)
      modifies this, tasks
      ensures Valid() && old(ViewOk(Now())) && ViewOk(Now()) && Forked(old(Now()), stack, copied, slot, Now())
    {
      NowOk();
      slot := Fork(stack, copied);
      NowOk();
    }

    method DoExit(code: int)
      requires InSyscall() && onStack == tasks[current].stack
      modifies this`kids, this`owner, tasks
      ensures Valid() && old(ViewOk(Now())) && ViewOk(Now()) && Dies(old(Now()), current, code, Now())
    {
      NowOk();
      Exit(code);
      NowOk();
    }

    method DoKill(id: int) returns (err: int)
      requires InSyscall()
      modifies this`kids, this`owner, tasks
      ensures Valid() && old(ViewOk(Now())) && ViewOk(Now()) && Killed(old(Now()), id, err, Now())
    {
      NowOk();
      if IsPid(id) { assert HoldsOk(tasks[..], current, owner, id); }
      NullOwned(tasks[..], current, owner);
      err := Kill(id);
      NowOk();
    }

    method DoWait(pid: int, nohang: bool) returns (r: WaitResult)
      requires InSyscall()
      modifies this`kids, this`owner, tasks
      ensures Valid() && old(ViewOk(Now())) && ViewOk(Now()) && Waits(old(Now()), pid, nohang, r, Now())
    {
      NowOk();
      r := Wait(pid, nohang);
      NowOk();
    }

    method DoExec(stack: nat) returns (ok: bool)
      requires InSyscall() && Fresh(owner, stack) && onStack == tasks[current].stack
      modifies this`owner, this`rsp0, tasks
      ensures Valid() && old(ViewOk(Now())) && ViewOk(Now()) && Replaces(old(Now()), stack, ok, Now())
    {
      NowOk();
      ok := Exec(stack);
      NowOk();
    }

    /** Any run of the machine: the steps it can take are taken, each with its exact effect, and the others are skipped. */
    method Run(ops: seq<Op>) returns (rs: seq<Result>, ghost trace: seq<View>)
      requires Valid()
      modifies this, tasks
      ensures Valid() && IsRun(ops, rs, trace) && trace[0] == old(Now()) && trace[|ops|] == Now()
    {
      rs, trace := [], [Now()];
      for k := 0 to |ops|
        invariant Valid() && IsRun(ops[..k], rs, trace) && trace[0] == old(Now()) && trace[k] == Now()
      {
        ghost var v := Now();
        NowOk();
        var r := Skipped;
        if Able(ops[k]) { r := Step(ops[k]); }
        RunLonger(ops, rs, trace, k, r, Now());
        rs, trace := rs + [r], trace + [Now()];
      }
      assert ops[..|ops|] == ops;
    }
  }

  lemma ForkWaits(ts: seq<Task>, ts': seq<Task>, slot: int)
    requires WaitsOk(ts) && |ts'| == MAX_TASKS && IsPid(slot) && ts[slot].state == Unused && ts'[slot].state == Ready
    requires forall i :: 0 <= i < MAX_TASKS && i != slot ==> StillWaits(ts[i], ts'[i])
    ensures WaitsOk(ts')
  {
    forall b: nat | b < MAX_TASKS ensures WaitOk(ts', b) {
      assert WaitOk(ts, b);
      if ts'[b].state == Blocked {
        assert StillWaits(ts[b], ts'[b]);
        var c :| Matches(ts, b, ts[b].waitFor, c);
        assert StillWaits(ts[c], ts'[c]);
        assert Matches(ts', b, ts'[b].waitFor, c);
      }
    }
  }

  /** The reparenting loop starts with nothing moved. */
  lemma Before(ts: seq<Task>, kids: seq<seq<int>>, rank: seq<nat>, d: int)
    requires TreeOk(ts, kids, rank) && 0 < d < MAX_TASKS && Alive(ts[d])
    ensures ts[d := ts[d].(first := ts[d].first)] == ts
    ensures var np := Heir(ts, d);
            Alive(ts[np]) && np != d && kids == kids[d := kids[d][0..]][np := Rev(kids[d][..0]) + kids[np]]
  {
    assert PlaceOk(ts, kids, rank, 0);
    var np := Heir(ts, d);
    assert kids[d][..0] == [] && kids[d][0..] == kids[d];
    assert [] + kids[np] == kids[np];
    assert kids == kids[d := kids[d]][np := kids[np]];
  }

  lemma OneMoved(k: seq<seq<int>>, d: nat, np: nat, n: nat)
    requires d < |k| && np < |k| && d != np && n < |k[d]|
    ensures var kids := k[d := k[d][n..]][np := Rev(k[d][..n]) + k[np]];
            kids[d := kids[d][1..]][np := [kids[d][0]] + kids[np]] == k[d := k[d][n + 1..]][np := Rev(k[d][..n + 1]) + k[np]]
  {
    assert k[d][n..][1..] == k[d][n + 1..];
    assert k[d][..n + 1][..n] == k[d][..n];
    assert [k[d][n]] + (Rev(k[d][..n]) + k[np]) == Rev(k[d][..n + 1]) + k[np];
  }

  lemma NullOwned(ts: seq<Task>, current: int, owner: map<nat, nat>)
    requires StacksOk(ts, current, owner)
    ensures owner - {0} == owner
  {
    assert OwnedOk(ts, owner, 0);
  }

  /** A task may block when it has a child to wait for. */
  lemma BlockKeeps(ts: seq<Task>, kids: seq<seq<int>>, rank: seq<nat>, current: int, pid: int, child: int)
    requires TreeOk(ts, kids, rank) && WaitsOk(ts) && RunOk(ts, current) && current != 0 && Alive(ts[current])
    requires Matches(ts, current, pid, child)
    ensures var ts' := ts[current := ts[current].(state := Blocked, waitFor := pid)];
            TreeOk(ts', kids, rank) && WaitsOk(ts') && RunOk(ts', current)
  {
    var ts' := ts[current := ts[current].(state := Blocked, waitFor := pid)];
    assert PlaceOk(ts, kids, rank, 0);
    SameTree(ts, kids, rank, ts');
    forall b: nat | b < MAX_TASKS ensures WaitOk(ts', b) {
      assert WaitOk(ts, b);
      if b == current {
        assert Matches(ts', b, pid, child);
      } else if ts'[b].state == Blocked {
        var c :| Matches(ts, b, ts[b].waitFor, c);
        assert Matches(ts', b, ts'[b].waitFor, c);
      }
    }
  }

  /** Waking some tasks changes nobody's zombies. */
  lemma ZombiesStay(ts: seq<Task>, ts': seq<Task>, ticks: nat, b: int, pid: int)
    requires |ts| == |ts'| == MAX_TASKS
    requires forall j :: 0 <= j < MAX_TASKS ==> ts'[j] == ts[j] || ts'[j] == Woken(ts, ticks, j)
    ensures HasZombie(ts, b, pid) <==> HasZombie(ts', b, pid)
  {
    forall c | IsPid(c)
      ensures Matches(ts, b, pid, c) == Matches(ts', b, pid, c) && (ts[c].state == Zombie) == (ts'[c].state == Zombie) { }
  }

  lemma SlotAt(prev: int, j: int, i: int)
    requires IsPid(prev) && IsPid(j) && 1 <= i <= MAX_TASKS && Distance(prev, j) >= i - 1 && j != (prev + i) % MAX_TASKS
    ensures Distance(prev, j) >= i
  {
    assert Distance(prev, j) == if j > prev then j - prev - 1 else j - prev + 63;
  }

  /** The idle task can always be chosen. */
  lemma IdleReady(ts: seq<Task>, kids: seq<seq<int>>, rank: seq<nat>, ticks: nat, prev: int, saved: nat)
    requires TreeOk(ts, kids, rank) && RunOk(ts, prev)
    ensures Awake(ts, ticks, prev, saved)[0].state == Ready
  {
    assert PlaceOk(ts, kids, rank, 0);
    assert Awake(ts, ticks, prev, saved)[0] == Woken(ts[prev := PutAway(ts[prev], saved)], ticks, 0);
  }

  lemma PendingKept(ts: seq<Task>, ticks: nat, prev: int, saved: nat)
    requires |ts| == MAX_TASKS && IsPid(prev)
    ensures forall i :: 0 <= i < MAX_TASKS ==> Awake(ts, ticks, prev, saved)[i].pending == ts[i].pending
  {
    forall i | 0 <= i < MAX_TASKS ensures Awake(ts, ticks, prev, saved)[i].pending == ts[i].pending {
      assert Awake(ts, ticks, prev, saved)[i] == Woken(ts[prev := PutAway(ts[prev], saved)], ticks, i);
    }
  }
}
