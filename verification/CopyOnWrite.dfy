/** Whole runs of the lazily copying system against one that copies eagerly.

    Tasks create, map, fork, store into, replace and drop address spaces in any order,
    while other parts of the kernel take and give back frames.  After every run each
    task sees exactly what it would see if fork copied every page at once
    (kernel/process/fork.c, kernel/process/exec.c, kernel/arch/page_fault.c,
    kernel/mm/vmm.c). */
module CopyOnWrite {
  import opened Pmm
  import opened PageTables
  import opened FrameBudget
  import opened CopyOrder
  import opened EntryMarks
  import opened Vmm
  import opened ExecSpace

  const MAX_TASKS: nat := 64

  type Pages = map<Path, seq<bv8>>

  datatype Op =
    | Spawn
    | Map(pid: nat, virt: nat, bytes: seq<bv8>, flags: Flags)
    | Fork(pid: nat)
    | Store(pid: nat, virt: nat, value: bv8)
    | Exec(pid: nat, program: Program, kstack: bool)
    | Exit(pid: nat)
    | Take                // a frame for another part of the kernel
    | Give(frame: nat)

  /** `id`: the task, or the frame that `Take` got. */
  datatype Outcome = Failed | Done(id: nat)

  /** The operation with its outcome, in a system where every task owns its pages. */
  ghost function EagerStep(e: map<nat, Pages>, op: Op, r: Outcome): map<nat, Pages> {
    match (op, r)
    case (_, Failed) => e
    case (Spawn, Done(c)) => e[c := map[]]
    case (Map(pid, virt, bytes, _), Done(_)) => if pid in e then e[pid := e[pid][PagePath(virt) := bytes]] else e
    case (Fork(pid), Done(c)) => if pid in e then e[c := e[pid]] else e
    case (Store(pid, virt, v), Done(_)) => if pid in e then e[pid := Stored(e[pid], PagePath(virt), virt % 4096, v)] else e
    case (Exec(pid, program, _), Done(_)) => if pid in e && program.Ok() then e[pid := program.Pages()] else e
    case (Exit(pid), Done(_)) => e - {pid}
    case (Take, Done(_)) => e
    case (Give(_), Done(_)) => e
  }

  /** The frames of other parts of the kernel, with their counts. */
  ghost function OthersStep(o: map<nat, nat>, op: Op, r: Outcome): map<nat, nat> {
    match (op, r)
    case (Take, Done(f)) => o[f := 1]
    case (Give(f), Done(_)) => Drop(o, f)
    case _ => o
  }

  lemma EagerCases(e: map<nat, Pages>, pid: nat, virt: nat, bytes: seq<bv8>, flags: Flags, value: bv8, c: nat)
    requires pid in e
    ensures EagerStep(e, Op.Map(pid, virt, bytes, flags), Done(c)) == e[pid := e[pid][PagePath(virt) := bytes]]
    ensures EagerStep(e, Op.Fork(pid), Done(c)) == e[c := e[pid]]
    ensures EagerStep(e, Op.Store(pid, virt, value), Done(c)) == e[pid := Stored(e[pid], PagePath(virt), virt % 4096, value)]
    ensures EagerStep(e, Op.Exit(pid), Done(c)) == e - {pid}
  {
  }

  lemma PutBack(e: map<nat, Pages>, pid: nat)
    requires pid in e
    ensures e[pid := e[pid]] == e
  {
  }

  ghost function EagerRun(e: map<nat, Pages>, ops: seq<Op>, rs: seq<Outcome>): map<nat, Pages>
    requires |ops| == |rs|
  {
    if ops == [] then e
    else EagerStep(EagerRun(e, ops[..|ops| - 1], rs[..|rs| - 1]), ops[|ops| - 1], rs[|rs| - 1])
  }

  ghost function OthersRun(o: map<nat, nat>, ops: seq<Op>, rs: seq<Outcome>): map<nat, nat>
    requires |ops| == |rs|
  {
    if ops == [] then o
    else OthersStep(OthersRun(o, ops[..|ops| - 1], rs[..|rs| - 1]), ops[|ops| - 1], rs[|rs| - 1])
  }

  ghost function Elements(s: seq<nat>): (r: set<nat>)
    ensures |r| <= |s|
    ensures forall x :: x in r <==> x in s
  {
    if s == [] then {} else Elements(s[..|s| - 1]) + {s[|s| - 1]}
  }

  lemma SlotMembers(cr3: seq<nat>, slot: nat, root: nat)
    requires slot < |cr3| && (forall i :: 0 <= i < |cr3| && i != slot && cr3[slot] != 0 ==> cr3[i] != cr3[slot])
    ensures forall r :: r != 0 ==> (r in cr3[slot := root] <==> r == root || (r in cr3 && r != cr3[slot]))
  {
    var c := cr3[slot := root];
    forall r | r != 0 ensures r in c <==> r == root || (r in cr3 && r != cr3[slot]) {
      assert c[slot] == root;
      if r in cr3 && r != cr3[slot] {
        var i :| 0 <= i < |cr3| && cr3[i] == r;
        assert c[i] == r;
      }
    }
  }

  ghost predicate PageIs(pages: Pages, s: Shape, mem: Memory, root: nat, p: Path) {
    && (p in pages <==> Node(root, p) in s.nodes && Depth(p) == 4)
    && (p in pages ==> s.nodes[Node(root, p)] in mem && mem[s.nodes[Node(root, p)]] == Data(pages[p]))
  }

  /** The space at `root` shows exactly `pages`. */
  ghost predicate Owns(pages: Pages, s: Shape, mem: Memory, root: nat) {
    forall p {:trigger PageIs(pages, s, mem, root, p)} :: PageIs(pages, s, mem, root, p)
  }

  lemma OwnsSpace(pages: Pages, s: Shape, mem: Memory, c: map<nat, nat>, root: nat)
    requires Consistent(s, mem, c)
    ensures Owns(pages, s, mem, root) <==> pages == Space(s, mem, root)
  {
    if Owns(pages, s, mem, root) {
      forall p ensures (p in Space(s, mem, root) <==> p in pages) && (p in pages && p in Space(s, mem, root) ==> Space(s, mem, root)[p] == pages[p]) {
        assert PageIs(pages, s, mem, root, p);
        SpaceAt(s, mem, c, root, p);
      }
      PagesEqual(pages, Space(s, mem, root));
    } else {
      var p :| !PageIs(pages, s, mem, root, p);
      SpaceAt(s, mem, c, root, p);
    }
  }

  /** Equal spaces show the same pages. */
  lemma OwnsToo(pages: Pages, s: Shape, mem: Memory, c: map<nat, nat>, root: nat, s': Shape, mem': Memory, c': map<nat, nat>, root': nat)
    requires Consistent(s, mem, c) && Consistent(s', mem', c') && Owns(pages, s, mem, root)
    requires Space(s', mem', root') == Space(s, mem, root)
    ensures Owns(pages, s', mem', root')
  {
    OwnsSpace(pages, s, mem, c, root);
    OwnsSpace(pages, s', mem', c', root');
  }

  ghost predicate TaskOk(e: map<nat, Pages>, cr3: seq<nat>, s: Shape, mem: Memory, pid: nat) {
    && (pid in e <==> pid < |cr3| && cr3[pid] != 0)
    && (pid in e ==> Owns(e[pid], s, mem, cr3[pid]))
  }

  /** Forward simulation: each live task shows what the eager system says it owns. */
  ghost predicate Simulates(e: map<nat, Pages>, cr3: seq<nat>, s: Shape, mem: Memory) {
    forall pid {:trigger TaskOk(e, cr3, s, mem, pid)} :: TaskOk(e, cr3, s, mem, pid)
  }

  /** One slot changes, and its space shows `pages`; every other space shows what it showed. */
  lemma SimulatesStep(e: map<nat, Pages>, cr3: seq<nat>, s: Shape, mem: Memory, c: map<nat, nat>,
                      slot: nat, root: nat, pages: Pages, s': Shape, mem': Memory, c': map<nat, nat>)
    requires Simulates(e, cr3, s, mem) && slot < |cr3| && Consistent(s, mem, c) && Consistent(s', mem', c')
    requires forall i :: 0 <= i < |cr3| && i != slot && cr3[i] != 0 ==> Space(s', mem', cr3[i]) == Space(s, mem, cr3[i])
    requires root != 0 ==> Owns(pages, s', mem', root)
    ensures Simulates(if root == 0 then e - {slot} else e[slot := pages], cr3[slot := root], s', mem')
  {
    var e', cr3' := if root == 0 then e - {slot} else e[slot := pages], cr3[slot := root];
    forall pid: nat ensures TaskOk(e', cr3', s', mem', pid) {
      assert TaskOk(e, cr3, s, mem, pid);
      if pid in e && pid != slot { OwnsToo(e[pid], s, mem, c, cr3[pid], s', mem', c', cr3[pid]); }
    }
  }

  /** Every slot before `slot` is taken. */
  ghost predicate FirstFree(e: map<nat, Pages>, slot: nat) {
    forall i: nat :: i < slot ==> i in e
  }

  /** The state of the system at one moment. */
  datatype View = View(eager: map<nat, Pages>, cr3: seq<nat>, shape: Shape, mem: Memory, counts: map<nat, nat>, free: set<nat>,
                       lent: set<nat>)

  /** Whether an operation succeeds, told beforehand: there is a slot, the page is or is not there,
      and there are as many free frames as the operation needs. */
  ghost predicate CanDo(v: View, op: Op) {
    match op
    case Spawn => FreeSlot(v.eager) && v.free != {}
    case Map(pid, virt, _, _) =>
      pid in v.eager && pid < |v.cr3| && PagePath(virt) !in v.eager[pid] && |v.free| > Missing(v.shape, v.cr3[pid], virt)
    case Fork(pid) => pid in v.eager && pid < |v.cr3| && FreeSlot(v.eager) && |v.free| >= |TablesOf(v.shape, v.cr3[pid])|
    case Store(pid, virt, _) => pid in v.eager && pid < |v.cr3| && PagePath(virt) in v.eager[pid] && Storable(v, Leaf(v.cr3[pid], virt))
    case Exec(pid, program, kstack) => pid in v.eager && kstack && program.Runnable() && |v.free| >= Need(program.phdrs)
    case Exit(pid) => pid in v.eager
    case Take => v.free != {}
    case Give(f) => f in v.lent
  }

  ghost predicate FreeSlot(e: map<nat, Pages>) {
    exists i: nat :: i < MAX_TASKS && i !in e
  }

  /** A writable page, or a copy-on-write page that its task has alone or that there is a frame to copy to. */
  ghost predicate Storable(v: View, n: Node) {
    var pte := LeafPte(v.shape, v.mem, n);
    n in v.shape.nodes && (pte.writable || (pte.cow && (Single(v.counts, v.shape.nodes[n]) || v.free != {})))
  }

  /** What a reachable state satisfies. */
  ghost predicate ViewOk(v: View) {
    && Consistent(v.shape, v.mem, v.counts) && v.shape.building == {} && v.shape.dying == {} && v.shape.held == {}
    && |v.cr3| == MAX_TASKS
    && (forall i, j :: 0 <= i < j < |v.cr3| && v.cr3[i] != 0 ==> v.cr3[i] != v.cr3[j])
    && (forall r :: r in Roots(v.shape) <==> r != 0 && r in v.cr3)
    && Simulates(v.eager, v.cr3, v.shape, v.mem) && Lent(v.lent, v.shape)
  }

  /** The frames that `Take` got are counted once, as frames of other parts of the kernel. */
  ghost predicate Lent(lent: set<nat>, s: Shape) {
    forall f :: f in lent ==> f in s.others && s.others[f] == 1
  }

  lemma LentKept(lent: set<nat>, s: Shape, s': Shape)
    requires Lent(lent, s) && s'.others == s.others
    ensures Lent(lent, s')
  {
  }

  ghost function LentStep(lent: set<nat>, op: Op, r: Outcome): set<nat> {
    match (op, r)
    case (Take, Done(f)) => lent + {f}
    case (Give(f), Done(_)) => lent - {f}
    case _ => lent
  }

  /** How the number of free frames changes; only a failed map may keep some tables. */
  ghost predicate Spends(v: View, op: Op, r: Outcome, w: View) {
    match op
    case Spawn => |w.free| == |v.free| - if r.Done? then 1 else 0
    case Map(pid, virt, _, _) => r.Done? ==> pid < |v.cr3| && |w.free| == |v.free| - 1 - Missing(v.shape, v.cr3[pid], virt)
    case Fork(pid) =>
      if r.Done? then pid < |v.cr3| && |w.free| == |v.free| - |TablesOf(v.shape, v.cr3[pid])| else w.free == v.free
    case Store(pid, virt, _) =>
      if r.Done? then pid < |v.cr3| && |w.free| == |v.free| - if Unshares(v, Leaf(v.cr3[pid], virt)) then 1 else 0 else w.free == v.free
    case Exec(pid, program, _) =>
      if r.Done? then pid < |v.cr3| && |w.free| == |v.free| - Need(program.phdrs) + |OnlyOf(v.shape, v.cr3[pid])| else w.free == v.free
    case Exit(pid) =>
      if r.Done? then pid < |v.cr3| && |w.free| == |v.free| + |OnlyOf(v.shape, v.cr3[pid])| else w.free == v.free
    case Take => |w.free| == |v.free| - if r.Done? then 1 else 0
    case Give(f) => |w.free| == |v.free| + if r.Done? then 1 else 0
  }

  /** A store to this page has to copy it first. */
  ghost predicate Unshares(v: View, n: Node) {
    n in v.shape.nodes && !LeafPte(v.shape, v.mem, n).writable && !Single(v.counts, v.shape.nodes[n])
  }

  /** The entry of a task's page. */
  ghost function Entry(v: View, pid: nat, p: Path): Pte {
    if pid < |v.cr3| then LeafPte(v.shape, v.mem, Node(v.cr3[pid], p)) else ABSENT
  }

  /** A fork comes to this page, whether or not it succeeds in the end: there is a slot, and the free frames last for the
      root table and all tables up to the one above the page, in the order of copying. */
  ghost predicate ForkReaches(v: View, pid: nat, p: Path) {
    FreeSlot(v.eager) && pid < |v.cr3| && p.Down? && CopyRank(v.shape, v.cr3[pid], p.up) <= |v.free|
  }

  /** What becomes of the entry of a page whose task is still there. */
  ghost predicate EntryStep(v: View, op: Op, r: Outcome, w: View, pid: nat, p: Path) {
    pid in v.eager && p in v.eager[pid] && pid in w.eager ==>
      var was, now := Entry(v, pid, p), Entry(w, pid, p);
      match op
      case Fork(who) => now == if who == pid && ForkReaches(v, pid, p) then Marked(was) else was
      case Store(who, virt, _) => now == if r.Done? && who == pid && p == PagePath(virt) then AfterStore(was, now.frame) else was
      case Exec(who, _, _) => (who == pid && r.Done?) || now == was
      case _ => now == was
  }

  ghost predicate EntriesStep(v: View, op: Op, r: Outcome, w: View) {
    forall pid: nat, p {:trigger EntryStep(v, op, r, w, pid, p)} :: EntryStep(v, op, r, w, pid, p)
  }

  /** Every page of `child` has the marked entry that `pid` had for it. */
  ghost predicate ChildMarked(v: View, pid: nat, child: nat, w: View) {
    forall p {:trigger Entry(w, child, p)} :: pid in v.eager && p in v.eager[pid] ==> Entry(w, child, p) == Marked(Entry(v, pid, p))
  }

  /** What an operation does to entries: a new page has the flags asked for, a fork marks what it comes to and shares every
      page of both tasks if it succeeds, a store opens its page, and every other entry is as it was. */
  ghost predicate Marks(v: View, op: Op, r: Outcome, w: View) {
    && EntriesStep(v, op, r, w)
    && match op
       case Map(pid, virt, _, flags) =>
         r.Done? ==> pid < |w.cr3| && var n := Leaf(w.cr3[pid], virt);
           n in w.shape.nodes && LeafPte(w.shape, w.mem, n) == Pte(true, w.shape.nodes[n], flags.writable, flags.user, flags.cow, flags.nx)
       case Fork(pid) =>
         if r.Done? then
           && pid < |w.cr3| && r.id < |w.cr3| && ChildMarked(v, pid, r.id, w)
           && SharedReadOnly(w.shape, w.mem, w.counts, w.cr3[pid]) && SharedReadOnly(w.shape, w.mem, w.counts, w.cr3[r.id])
         else w.shape == v.shape && w.counts == v.counts && w.cr3 == v.cr3
       case _ => true
  }

  /** Every task there was has its root table still. */
  ghost predicate SameSlots(cr3: seq<nat>, cr3': seq<nat>) {
    |cr3'| == |cr3| && forall i :: 0 <= i < |cr3| && cr3[i] != 0 ==> cr3'[i] == cr3[i]
  }

  /** Where the page tables say that entries are as they were, so are the tasks' entries. */
  lemma KeptEntries(v: View, op: Op, r: Outcome, w: View)
    requires Simulates(v.eager, v.cr3, v.shape, v.mem) && EntriesKept(v.shape, v.mem, w.shape, w.mem)
    requires SameSlots(v.cr3, w.cr3)
    requires !op.Fork? && (op.Store? ==> r.Failed?)
    ensures EntriesStep(v, op, r, w)
  {
    forall pid: nat, p ensures EntryStep(v, op, r, w, pid, p) {
      assert TaskOk(v.eager, v.cr3, v.shape, v.mem, pid);
      if pid in v.eager && p in v.eager[pid] && pid in w.eager {
        assert PageIs(v.eager[pid], v.shape, v.mem, v.cr3[pid], p);
        assert EntryKept(v.shape, v.mem, w.shape, w.mem, Node(v.cr3[pid], p));
      }
    }
  }

  /** The same for all tasks but one, which leaves its space. */
  lemma OthersEntries(v: View, op: Op, r: Outcome, w: View, gone: nat)
    requires Simulates(v.eager, v.cr3, v.shape, v.mem) && gone < |v.cr3| && v.cr3[gone] != 0
    requires EntriesElsewhere(v.shape, v.mem, w.shape, w.mem, v.cr3[gone])
    requires forall i, j :: 0 <= i < j < |v.cr3| && v.cr3[i] != 0 ==> v.cr3[i] != v.cr3[j]
    requires SameSlots(v.cr3[gone := 0], w.cr3)
    requires (op == Op.Exit(gone) && gone !in w.eager) || (op.Exec? && op.pid == gone && r.Done?)
    ensures EntriesStep(v, op, r, w)
  {
    forall pid: nat, p ensures EntryStep(v, op, r, w, pid, p) {
      assert TaskOk(v.eager, v.cr3, v.shape, v.mem, pid);
      if pid in v.eager && p in v.eager[pid] && pid in w.eager && pid != gone {
        assert PageIs(v.eager[pid], v.shape, v.mem, v.cr3[pid], p);
        assert EntryKept(v.shape, v.mem, w.shape, w.mem, Node(v.cr3[pid], p));
      }
    }
  }

  lemma StoreEntries(v: View, pid: nat, virt: nat, value: bv8, r: Outcome, w: View, f: nat)
    requires Simulates(v.eager, v.cr3, v.shape, v.mem) && pid < |v.cr3| && v.cr3[pid] != 0
    requires forall i, j :: 0 <= i < j < |v.cr3| && v.cr3[i] != 0 ==> v.cr3[i] != v.cr3[j]
    requires w.cr3 == v.cr3 && EntriesBut(v.shape, v.mem, w.shape, w.mem, Leaf(v.cr3[pid], virt))
    requires var was, now := Entry(v, pid, PagePath(virt)), Entry(w, pid, PagePath(virt));
             now == if r.Done? then AfterStore(was, f) else was
    ensures EntriesStep(v, Op.Store(pid, virt, value), r, w)
  {
    forall i: nat, p ensures EntryStep(v, Op.Store(pid, virt, value), r, w, i, p) {
      assert TaskOk(v.eager, v.cr3, v.shape, v.mem, i);
      if i in v.eager && p in v.eager[i] && i in w.eager {
        assert PageIs(v.eager[i], v.shape, v.mem, v.cr3[i], p);
        assert Node(v.cr3[i], p) != Leaf(v.cr3[pid], virt) ==> EntryKept(v.shape, v.mem, w.shape, w.mem, Node(v.cr3[i], p));
      }
    }
  }

  lemma ForkEntries(v: View, pid: nat, r: Outcome, w: View)
    requires Simulates(v.eager, v.cr3, v.shape, v.mem) && pid < |v.cr3| && v.cr3[pid] != 0 && FreeSlot(v.eager)
    requires forall i, j :: 0 <= i < j < |v.cr3| && v.cr3[i] != 0 ==> v.cr3[i] != v.cr3[j]
    requires SameSlots(v.cr3, w.cr3)
    requires ForkMarks(v.shape, v.mem, w.shape, w.mem, v.cr3[pid], |v.free|)
    ensures EntriesStep(v, Op.Fork(pid), r, w)
  {
    forall i: nat, p ensures EntryStep(v, Op.Fork(pid), r, w, i, p) {
      assert TaskOk(v.eager, v.cr3, v.shape, v.mem, i);
      if i in v.eager && p in v.eager[i] && i in w.eager {
        assert PageIs(v.eager[i], v.shape, v.mem, v.cr3[i], p);
        assert ForkMarkOk(v.shape, v.mem, w.shape, w.mem, v.cr3[pid], |v.free|, Node(v.cr3[i], p));
      }
    }
  }

  lemma ChildEntries(v: View, pid: nat, child: nat, w: View)
    requires Simulates(v.eager, v.cr3, v.shape, v.mem) && NodesOk(v.shape, v.mem) && Simulates(w.eager, w.cr3, w.shape, w.mem)
    requires pid in v.eager && pid < |v.cr3| && child in w.eager && child < |w.cr3| && w.eager[child] == v.eager[pid]
    requires w.cr3[child] !in Roots(v.shape) && CopyMarks(v.shape, v.mem, w.shape, w.mem, v.cr3[pid], w.cr3[child])
    ensures ChildMarked(v, pid, child, w)
  {
    forall p | p in v.eager[pid] ensures Entry(w, child, p) == Marked(Entry(v, pid, p)) {
      assert TaskOk(v.eager, v.cr3, v.shape, v.mem, pid) && TaskOk(w.eager, w.cr3, w.shape, w.mem, child);
      assert PageIs(v.eager[pid], v.shape, v.mem, v.cr3[pid], p) && PageIs(w.eager[child], w.shape, w.mem, w.cr3[child], p);
      if Node(w.cr3[child], p) in v.shape.nodes { RootPresent(v.shape, v.mem, Node(w.cr3[child], p)); }
      assert MarkOk(v.shape, v.mem, w.shape, w.mem, v.cr3[pid], w.cr3[child], Node(v.cr3[pid], p));
    }
  }

  /** One operation of a run: it succeeds if and only if it can, does what the eager system does, and costs what it must. */
  ghost predicate Took(v: View, op: Op, r: Outcome, w: View) {
    && (r.Done? <==> CanDo(v, op))
    && w.eager == EagerStep(v.eager, op, r)
    && (r.Done? && (op.Spawn? || op.Fork?) ==> r.id !in v.eager && FirstFree(v.eager, r.id))
    && (r.Done? && op.Take? ==> r.id !in v.counts)
    && w.shape.others == OthersStep(v.shape.others, op, r) && w.lent == LentStep(v.lent, op, r) && Spends(v, op, r, w) && Marks(v, op, r, w)
  }

  /** A run: reachable states with one operation between each and the next. */
  ghost predicate Unfolds(ops: seq<Op>, rs: seq<Outcome>, trace: seq<View>) {
    && |rs| == |ops| && |trace| == |ops| + 1
    && (forall i :: 0 <= i < |trace| ==> ViewOk(trace[i]))
    && forall i :: 0 <= i < |ops| ==> Took(trace[i], ops[i], rs[i], trace[i + 1])
  }

  lemma RunLonger(ops: seq<Op>, rs: seq<Outcome>, trace: seq<View>, i: nat, r: Outcome, w: View)
    requires i < |ops| && Unfolds(ops[..i], rs, trace) && ViewOk(w) && Took(trace[i], ops[i], r, w)
    ensures Unfolds(ops[..i + 1], rs + [r], trace + [w])
  {
    var ops', rs', trace' := ops[..i + 1], rs + [r], trace + [w];
    forall k | 0 <= k < |ops'| ensures Took(trace'[k], ops'[k], rs'[k], trace'[k + 1]) {
      assert k < i ==> ops'[k] == ops[..i][k] && Took(trace[k], ops[..i][k], rs[k], trace[k + 1]);
    }
  }

  /** The last state of a run is what the eager system makes of the first. */
  lemma {:induction false} RunIsEager(ops: seq<Op>, rs: seq<Outcome>, trace: seq<View>, n: nat)
    requires Unfolds(ops, rs, trace) && n <= |ops|
    ensures trace[n].eager == EagerRun(trace[0].eager, ops[..n], rs[..n])
    ensures trace[n].shape.others == OthersRun(trace[0].shape.others, ops[..n], rs[..n])
  {
    if n > 0 {
      RunIsEager(ops, rs, trace, n - 1);
      assert ops[..n][..n - 1] == ops[..n - 1] && rs[..n][..n - 1] == rs[..n - 1];
      assert Took(trace[n - 1], ops[n - 1], rs[n - 1], trace[n - 1 + 1]);
    }
  }

  // ----- stores after a fork -----

  /** After a fork a store to any page of parent or child succeeds exactly when a frame is left to copy to. */
  lemma StoreAfterFork(v: View, pid: nat, r: Outcome, w: View, who: nat, virt: nat, value: bv8)
    requires ViewOk(v) && ViewOk(w) && Took(v, Op.Fork(pid), r, w) && r.Done? && (who == pid || who == r.id)
    requires pid in v.eager && PagePath(virt) in v.eager[pid]
    ensures CanDo(w, Op.Store(who, virt, value)) <==> |v.free| > |TablesOf(v.shape, v.cr3[pid])|
  {
    PathDepth(virt);
    assert w.eager[who] == v.eager[pid];
    assert TaskOk(w.eager, w.cr3, w.shape, w.mem, who);
    assert PageIs(w.eager[who], w.shape, w.mem, w.cr3[who], PagePath(virt));
    assert PageShared(w.shape, w.mem, w.counts, Leaf(w.cr3[who], virt));
  }

  /** The task has the page, and it is neither writable nor copy-on-write. */
  ghost predicate Sealed(v: View, pid: nat, virt: nat) {
    && pid in v.eager && PagePath(virt) in v.eager[pid]
    && !Entry(v, pid, PagePath(virt)).writable && !Entry(v, pid, PagePath(virt)).cow
  }

  /** After a fork that failed, the parent can store where it could before, and also to the sealed pages that the fork
      came to: the rollback leaves them copy-on-write. */
  lemma StoreAfterFailedFork(v: View, pid: nat, w: View, virt: nat, value: bv8)
    requires ViewOk(v) && ViewOk(w) && Took(v, Op.Fork(pid), Failed, w) && pid in v.eager
    ensures CanDo(w, Op.Store(pid, virt, value)) <==>
            CanDo(v, Op.Store(pid, virt, value)) || (Sealed(v, pid, virt) && ForkReaches(v, pid, PagePath(virt)))
  {
    assert TaskOk(v.eager, v.cr3, v.shape, v.mem, pid);
    if PagePath(virt) in v.eager[pid] {
      PathDepth(virt);
      assert PageIs(v.eager[pid], v.shape, v.mem, v.cr3[pid], PagePath(virt));
      assert EntryStep(v, Op.Fork(pid), Failed, w, pid, PagePath(virt));
      var pte := Entry(v, pid, PagePath(virt));
      if pte.writable || !pte.cow { UnsharedSingle(v, Leaf(v.cr3[pid], virt)); }
    }
  }

  /** A page that is writable, or not copy-on-write, is the only one on its frame. */
  lemma UnsharedSingle(v: View, n: Node)
    requires ViewOk(v) && n in v.shape.nodes && Depth(n.path) == 4
    requires LeafPte(v.shape, v.mem, n).writable || !LeafPte(v.shape, v.mem, n).cow
    ensures Single(v.counts, v.shape.nodes[n])
  {
    var f := v.shape.nodes[n];
    forall k | k in Users(v.shape.nodes, f) ensures k == n { assert PairOk(v.shape, v.mem, n, k); }
    assert Users(v.shape.nodes, f) == {n};
    assert FrameOk(v.shape, v.counts, f);
  }

  /** Exactly which of its stores a task could not do before a fork and can do after it, whether or not the fork succeeded:
      those to a sealed page that the fork came to, unless it took the last frame. */
  lemma ForkGrantsStore(v: View, pid: nat, r: Outcome, w: View, virt: nat, value: bv8)
    requires ViewOk(v) && ViewOk(w) && Took(v, Op.Fork(pid), r, w) && pid in v.eager
    ensures pid < |v.cr3|
    ensures !CanDo(v, Op.Store(pid, virt, value)) && CanDo(w, Op.Store(pid, virt, value)) <==>
            && Sealed(v, pid, virt) && ForkReaches(v, pid, PagePath(virt))
            && |v.free| != |TablesOf(v.shape, v.cr3[pid])|
  {
    assert TaskOk(v.eager, v.cr3, v.shape, v.mem, pid);
    if r.Done? && PagePath(virt) in v.eager[pid] {
      PathDepth(virt);
      assert PageIs(v.eager[pid], v.shape, v.mem, v.cr3[pid], PagePath(virt));
      assert NodeOk(v.shape, v.mem, Leaf(v.cr3[pid], virt));
      RankBounds(v.shape, v.cr3[pid], TablePath(virt));
      StoreAfterFork(v, pid, r, w, pid, virt, value);
    } else if r.Failed? {
      StoreAfterFailedFork(v, pid, w, virt, value);
    }
  }

  /** A page mapped read-only: the store fails, and after a fork that comes to the page and does not take the last frame
      the same store succeeds. */
  lemma ReadOnlyUntilFork(u: View, v: View, w: View, pid: nat, virt: nat, bytes: seq<bv8>, flags: Flags, r: Outcome, value: bv8)
    requires ViewOk(u) && ViewOk(v) && ViewOk(w) && pid in u.eager && !flags.writable && !flags.cow
    requires CanDo(u, Op.Map(pid, virt, bytes, flags)) && Took(u, Op.Map(pid, virt, bytes, flags), Done(pid), v)
    requires Took(v, Op.Fork(pid), r, w) && ForkReaches(v, pid, PagePath(virt)) && |v.free| != |TablesOf(v.shape, v.cr3[pid])|
    ensures !CanDo(v, Op.Store(pid, virt, value)) && CanDo(w, Op.Store(pid, virt, value))
  {
    ForkGrantsStore(v, pid, r, w, virt, value);
  }

  class Tasks {
    const vm: AddressSpaces
    const kernel: seq<Pte>
    var cr3: seq<nat>                  // 0: no address space
    var lent: set<nat>                 // frames that other parts of the kernel took
    ghost var eager: map<nat, Pages>   // what each task owns in the eager system

    ghost predicate Valid()
      reads this, vm, vm.pmm, vm.pmm.bitmap, vm.pmm.bitmap.bytes, vm.pmm.refs
    {
      && vm.Valid() && vm.Quiet() && |kernel| == 512 && |cr3| == MAX_TASKS
      && (forall i, j :: 0 <= i < j < |cr3| && cr3[i] != 0 ==> cr3[i] != cr3[j])
      && (forall r :: r in Roots(vm.shape) <==> r != 0 && r in cr3)
      && Simulates(eager, cr3, vm.shape, vm.mem) && vm.shape.held == {} && Lent(lent, vm.shape)
    }

    /** Frames that belong to other parts of the kernel stay theirs. */
    twostate predicate RestKept()
      reads this, vm, vm.pmm
    {
      vm.shape.others == old(vm.shape.others) && vm.pmm.managed == old(vm.pmm.managed) && lent == old(lent)
    }

    /** Without tasks, the only frames in use are those of other parts of the kernel. */
    lemma AllGone()
      requires Valid() && eager == map[]
      ensures vm.shape.nodes == map[] && vm.pmm.counts == vm.shape.others
    {
      forall i | 0 <= i < |cr3| ensures cr3[i] == 0 { assert TaskOk(eager, cr3, vm.shape, vm.mem, i); }
      forall n | n in vm.shape.nodes ensures n.root in Roots(vm.shape) { RootPresent(vm.shape, vm.mem, n); }
      assert vm.shape.nodes.Keys == {};
      forall f ensures (f in vm.pmm.counts <==> f in vm.shape.others) && (f in vm.shape.others ==> vm.pmm.counts[f] == vm.shape.others[f]) {
        assert FrameOk(vm.shape, vm.pmm.counts, f) && Users(vm.shape.nodes, f) == {};
      }
    }

    lemma FreeIs()
      requires Valid()
      ensures Uncounted(vm.pmm.Free(), vm.pmm.managed, vm.pmm.base, vm.pmm.counts)
    {
      vm.pmm.FreeIsUncounted();
    }

    constructor (pmm: FrameAllocator, kernel: seq<Pte>)
      requires pmm.Valid() && |kernel| == 512
      ensures Valid() && eager == map[] && fresh(vm) && vm.pmm == pmm
    {
      vm := new AddressSpaces(pmm);
      this.kernel := kernel;
      cr3, lent := seq(MAX_TASKS, _ => 0), {};
      eager := map[];
    }

    lemma FewRoots()
      requires Valid()
      ensures |Roots(vm.shape)| <= 64
    {
      assert Roots(vm.shape) <= Elements(cr3);
      SmallerSize(Roots(vm.shape), Elements(cr3));
    }

    lemma RootOf(pid: nat)
      requires Valid() && pid < |cr3| && cr3[pid] != 0
      ensures Node(cr3[pid], Top) in vm.shape.nodes
    {
      assert cr3[pid] in Roots(vm.shape);
    }

    /** A snapshot of the whole system. */
    ghost function Now(): View
      reads this, vm, vm.pmm, vm.pmm.bitmap
    {
      View(eager, cr3, vm.shape, vm.mem, vm.pmm.counts, vm.pmm.Free(), lent)
    }

    /** The first free slot. */
    method AllocTask() returns (slot: int)
      requires Valid()
      ensures slot != -1 <==> FreeSlot(eager)
      ensures slot != -1 ==> 0 <= slot < |cr3| && cr3[slot] == 0 && FirstFree(eager, slot)
    {
      for i := 0 to |cr3|
        invariant FirstFree(eager, i)
      {
        assert TaskOk(eager, cr3, vm.shape, vm.mem, i);
        if cr3[i] == 0 { return i; }
      }
      return -1;
    }

    method DoSpawn() returns (r: Outcome)
      requires Valid()
      modifies this, vm, vm.pmm, vm.pmm.bitmap, vm.pmm.bitmap.bytes, vm.pmm.refs
      ensures Valid() && RestKept() && (r.Failed? ==> eager == old(eager))
      ensures r.Done? <==> CanDo(old(Now()), Op.Spawn)
      ensures r.Done? ==> r.id !in old(eager) && FirstFree(old(eager), r.id) && eager == old(eager)[r.id := map[]]
      ensures Spends(old(Now()), Op.Spawn, r, Now()) && Marks(old(Now()), Op.Spawn, r, Now())
    {
      var slot := AllocTask();
      if slot == -1 { return Failed; }
      ghost var v := Now();
      var ok := SpawnTo(slot);
      r := if ok then Done(slot) else Failed;
      KeptEntries(v, Op.Spawn, r, Now());
    }

    method SpawnTo(slot: nat) returns (ok: bool)
      requires Valid() && slot < |cr3| && cr3[slot] == 0
      modifies this, vm, vm.pmm, vm.pmm.bitmap, vm.pmm.bitmap.bytes, vm.pmm.refs
      ensures Valid() && RestKept() && slot !in old(eager)
      ensures ok <==> old(vm.pmm.Free()) != {}
      ensures eager == if ok then old(eager)[slot := map[]] else old(eager)
      ensures |vm.pmm.Free()| == |old(vm.pmm.Free())| - if ok then 1 else 0
      ensures EntriesKept(old(vm.shape), old(vm.mem), vm.shape, vm.mem) && SameSlots(old(cr3), cr3)
    {
      ghost var s, m, c := vm.shape, vm.mem, vm.pmm.counts;
      assert TaskOk(eager, cr3, s, m, slot);
      var root := vm.CreateSpace(kernel);
      if root == 0 { return false; }
      vm.NewSpaceEmpty(s, m, c, root);
      OwnsSpace(map[], vm.shape, vm.mem, vm.pmm.counts, root);
      FreshSame(s, m, c, vm.mem, root);
      SameEntries(s, m, vm.shape, vm.mem);
      Install(s, m, c, slot, root, map[]);
      return true;
    }

    /** Fill a free slot with a new space. */
    method Install(ghost s: Shape, ghost m: Memory, ghost c: map<nat, nat>, slot: nat, root: nat, ghost pages: Pages)
      requires vm.Valid() && vm.Quiet() && vm.shape.held == {} && Lent(lent, vm.shape) && |kernel| == 512 && |cr3| == MAX_TASKS && slot < MAX_TASKS && cr3[slot] == 0 && root != 0
      requires forall i, j :: 0 <= i < j < |cr3| && cr3[i] != 0 ==> cr3[i] != cr3[j]
      requires forall r :: r in Roots(s) <==> r != 0 && r in cr3
      requires root !in Roots(s) && Roots(vm.shape) == Roots(s) + {root}
      requires Simulates(eager, cr3, s, m) && Consistent(s, m, c)
      requires forall r :: r in Roots(s) ==> Space(vm.shape, vm.mem, r) == Space(s, m, r)
      requires Owns(pages, vm.shape, vm.mem, root)
      modifies this
      ensures Valid() && slot !in old(eager) && eager == old(eager)[slot := pages] && cr3 == old(cr3)[slot := root] && lent == old(lent)
    {
      assert TaskOk(eager, cr3, s, m, slot);
      SimulatesStep(eager, cr3, s, m, c, slot, root, pages, vm.shape, vm.mem, vm.pmm.counts);
      SlotMembers(cr3, slot, root);
      cr3 := cr3[slot := root];
      eager := eager[slot := pages];
    }

    method DoFork(pid: nat) returns (r: Outcome)
      requires Valid()
      modifies this, vm, vm.pmm, vm.pmm.bitmap, vm.pmm.bitmap.bytes, vm.pmm.refs
      ensures Valid() && RestKept() && (r.Failed? ==> eager == old(eager))
      ensures r.Done? <==> CanDo(old(Now()), Op.Fork(pid))
      ensures r.Done? ==> pid in old(eager) && r.id !in old(eager) && FirstFree(old(eager), r.id)
      ensures r.Done? ==> eager == old(eager)[r.id := old(eager)[pid]]
      ensures r.Failed? ==> vm.pmm.counts == old(vm.pmm.counts) && vm.pmm.Free() == old(vm.pmm.Free())
      ensures Spends(old(Now()), Op.Fork(pid), r, Now())
      ensures Marks(old(Now()), Op.Fork(pid), r, Now())
    {
      assert TaskOk(eager, cr3, vm.shape, vm.mem, pid);
      if pid >= |cr3| || cr3[pid] == 0 { return Failed; }
      var slot := AllocTask();
      if slot == -1 { return Failed; }
      ghost var v := Now();
      r := ForkTo(pid, slot);
      ForkEntries(v, pid, r, Now());
      if r.Done? { ChildEntries(v, pid, slot, Now()); }
    }

    method ForkTo(pid: nat, slot: nat) returns (r: Outcome)
      requires Valid() && pid < |cr3| && cr3[pid] != 0 && slot < |cr3| && cr3[slot] == 0 && pid in eager
      modifies this, vm, vm.pmm, vm.pmm.bitmap, vm.pmm.bitmap.bytes, vm.pmm.refs
      ensures Valid() && RestKept() && (r.Failed? ==> eager == old(eager))
      ensures r.Done? <==> |old(vm.pmm.Free())| >= |TablesOf(old(vm.shape), old(cr3)[pid])|
      ensures r.Done? ==> r.id == slot && slot !in old(eager) && eager == old(eager)[slot := old(eager)[pid]]
      ensures r.Failed? ==> vm.pmm.counts == old(vm.pmm.counts) && vm.pmm.Free() == old(vm.pmm.Free())
      ensures r.Failed? ==> vm.shape == old(vm.shape) && cr3 == old(cr3)
      ensures r.Done? ==>
                && |vm.pmm.Free()| == |old(vm.pmm.Free())| - |TablesOf(old(vm.shape), old(cr3)[pid])|
                && SharedReadOnly(vm.shape, vm.mem, vm.pmm.counts, cr3[pid]) && SharedReadOnly(vm.shape, vm.mem, vm.pmm.counts, cr3[slot])
                && cr3[slot] !in old(Roots(vm.shape)) && CopyMarks(old(vm.shape), old(vm.mem), vm.shape, vm.mem, cr3[pid], cr3[slot])
      ensures ForkMarks(old(vm.shape), old(vm.mem), vm.shape, vm.mem, cr3[pid], |old(vm.pmm.Free())|) && SameSlots(old(cr3), cr3)
    {
      FewRoots();
      RootOf(pid);
      ghost var s, m, c := vm.shape, vm.mem, vm.pmm.counts;
      assert TaskOk(eager, cr3, s, m, pid);
      var root := vm.ForkSpace(cr3[pid], kernel);
      if root == 0 {
        OwnsToo(eager[pid], s, m, c, cr3[pid], vm.shape, vm.mem, vm.pmm.counts, cr3[pid]);
        PutBack(eager, pid);
        Update(s, m, c, pid, eager[pid]);
        return Failed;
      }
      OwnsToo(eager[pid], s, m, c, cr3[pid], vm.shape, vm.mem, vm.pmm.counts, root);
      Install(s, m, c, slot, root, eager[pid]);
      return Done(slot);
    }

    /** Slot `pid` keeps its space, which now shows `pages`. */
    ghost method Update(s: Shape, m: Memory, c: map<nat, nat>, pid: nat, pages: Pages)
      requires vm.Valid() && vm.Quiet() && vm.shape.held == {} && Lent(lent, vm.shape) && |kernel| == 512 && |cr3| == MAX_TASKS && pid < MAX_TASKS && cr3[pid] != 0
      requires forall i, j :: 0 <= i < j < |cr3| && cr3[i] != 0 ==> cr3[i] != cr3[j]
      requires forall r :: r in Roots(s) <==> r != 0 && r in cr3
      requires Roots(vm.shape) == Roots(s) && Simulates(eager, cr3, s, m) && Consistent(s, m, c)
      requires forall r :: r in Roots(s) && r != cr3[pid] ==> Space(vm.shape, vm.mem, r) == Space(s, m, r)
      requires Owns(pages, vm.shape, vm.mem, cr3[pid])
      modifies this`eager
      ensures Valid() && pid in old(eager) && eager == old(eager)[pid := pages]
    {
      assert TaskOk(eager, cr3, s, m, pid);
      SimulatesStep(eager, cr3, s, m, c, pid, cr3[pid], pages, vm.shape, vm.mem, vm.pmm.counts);
      assert cr3[pid := cr3[pid]] == cr3;
      eager := eager[pid := pages];
    }

    method DoMap(pid: nat, virt: nat, bytes: seq<bv8>, flags: Flags) returns (r: Outcome)
      requires Valid() && IsUser(virt) && |bytes| == 4096 && flags.present
      modifies this, vm, vm.pmm, vm.pmm.bitmap, vm.pmm.bitmap.bytes, vm.pmm.refs
      ensures Valid() && RestKept() && (r.Failed? ==> eager == old(eager))
      ensures r.Done? <==> CanDo(old(Now()), Op.Map(pid, virt, bytes, flags))
      ensures r.Done? ==> pid in old(eager)
      ensures r.Done? ==> eager == old(eager)[pid := old(eager)[pid][PagePath(virt) := bytes]]
      ensures Spends(old(Now()), Op.Map(pid, virt, bytes, flags), r, Now())
      ensures Marks(old(Now()), Op.Map(pid, virt, bytes, flags), r, Now())
    {
      assert TaskOk(eager, cr3, vm.shape, vm.mem, pid);
      if pid >= |cr3| || cr3[pid] == 0 { return Failed; }
      RootOf(pid);
      ghost var s, m, c, v := vm.shape, vm.mem, vm.pmm.counts, Now();
      OwnsSpace(eager[pid], s, m, c, cr3[pid]);
      var ok := vm.MapFresh(cr3[pid], virt, bytes, flags);
      ghost var pages := if ok then eager[pid][PagePath(virt) := bytes] else eager[pid];
      OwnsSpace(pages, vm.shape, vm.mem, vm.pmm.counts, cr3[pid]);
      PutBack(eager, pid);
      Update(s, m, c, pid, pages);
      r := if ok then Done(pid) else Failed;
      KeptEntries(v, Op.Map(pid, virt, bytes, flags), r, Now());
    }

    method DoStore(pid: nat, virt: nat, value: bv8) returns (r: Outcome)
      requires Valid() && IsUser(virt)
      modifies this, vm, vm.pmm, vm.pmm.bitmap, vm.pmm.bitmap.bytes, vm.pmm.refs
      ensures Valid() && RestKept() && (r.Failed? ==> eager == old(eager))
      ensures r.Done? <==> CanDo(old(Now()), Op.Store(pid, virt, value))
      ensures r.Done? ==> pid in old(eager)
      ensures r.Done? ==> eager == old(eager)[pid := Stored(old(eager)[pid], PagePath(virt), virt % 4096, value)]
      ensures Spends(old(Now()), Op.Store(pid, virt, value), r, Now()) && Marks(old(Now()), Op.Store(pid, virt, value), r, Now())
    {
      assert TaskOk(eager, cr3, vm.shape, vm.mem, pid);
      if pid >= |cr3| || cr3[pid] == 0 { return Failed; }
      ghost var v := Now();
      var ok := StoreTo(pid, virt, value);
      r := if ok then Done(pid) else Failed;
      StoreEntries(v, pid, virt, value, r, Now(), if ok then vm.shape.nodes[Leaf(cr3[pid], virt)] else 0);
    }

    method StoreTo(pid: nat, virt: nat, value: bv8) returns (ok: bool)
      requires Valid() && IsUser(virt) && pid < |cr3| && cr3[pid] != 0 && pid in eager
      modifies this, vm, vm.pmm, vm.pmm.bitmap, vm.pmm.bitmap.bytes, vm.pmm.refs
      ensures Valid() && RestKept() && cr3 == old(cr3)
      ensures ok <==> PagePath(virt) in old(eager)[pid] && Storable(old(Now()), Leaf(cr3[pid], virt))
      ensures eager == if ok then old(eager)[pid := Stored(old(eager)[pid], PagePath(virt), virt % 4096, value)] else old(eager)
      ensures if ok then |vm.pmm.Free()| == |old(vm.pmm.Free())| - if Unshares(old(Now()), Leaf(cr3[pid], virt)) then 1 else 0
              else vm.pmm.Free() == old(vm.pmm.Free())
      ensures EntriesBut(old(vm.shape), old(vm.mem), vm.shape, vm.mem, Leaf(cr3[pid], virt))
      ensures if ok then Leaf(cr3[pid], virt) in vm.shape.nodes && LeafPte(vm.shape, vm.mem, Leaf(cr3[pid], virt)) ==
                         AfterStore(old(LeafPte(vm.shape, vm.mem, Leaf(cr3[pid], virt))), vm.shape.nodes[Leaf(cr3[pid], virt)])
              else LeafPte(vm.shape, vm.mem, Leaf(cr3[pid], virt)) == old(LeafPte(vm.shape, vm.mem, Leaf(cr3[pid], virt)))
    {
      RootOf(pid);
      ghost var s, m, c := vm.shape, vm.mem, vm.pmm.counts;
      assert TaskOk(eager, cr3, s, m, pid);
      OwnsSpace(eager[pid], s, m, c, cr3[pid]);
      ok := vm.Store(cr3[pid], virt, value);
      SameKeysRoots(s, vm.shape);
      ghost var pages := if ok then Stored(eager[pid], PagePath(virt), virt % 4096, value) else eager[pid];
      OwnsSpace(pages, vm.shape, vm.mem, vm.pmm.counts, cr3[pid]);
      PutBack(eager, pid);
      Update(s, m, c, pid, pages);
    }

    static lemma SameKeysRoots(s: Shape, s': Shape)
      requires s'.nodes.Keys == s.nodes.Keys
      ensures Roots(s') == Roots(s)
    {
      forall n ensures n in s.nodes <==> n in s'.nodes { assert n in s.nodes.Keys <==> n in s'.nodes.Keys; }
    }

    method DoExit(pid: nat) returns (r: Outcome)
      requires Valid()
      modifies this, vm, vm.pmm, vm.pmm.bitmap, vm.pmm.bitmap.bytes, vm.pmm.refs
      ensures Valid() && RestKept() && (r.Done? <==> CanDo(old(Now()), Op.Exit(pid)))
      ensures eager == if r.Done? then old(eager) - {pid} else old(eager)
      ensures Spends(old(Now()), Op.Exit(pid), r, Now()) && Marks(old(Now()), Op.Exit(pid), r, Now())
    {
      assert TaskOk(eager, cr3, vm.shape, vm.mem, pid);
      if pid >= |cr3| || cr3[pid] == 0 { return Failed; }
      ghost var v := Now();
      Retire(pid);
      OthersEntries(v, Op.Exit(pid), Done(pid), Now(), pid);
      return Done(pid);
    }

    method Retire(pid: nat)
      requires Valid() && pid < |cr3| && cr3[pid] != 0
      modifies this, vm, vm.pmm, vm.pmm.bitmap, vm.pmm.bitmap.bytes, vm.pmm.refs
      ensures Valid() && RestKept() && eager == old(eager) - {pid} && cr3 == old(cr3)[pid := 0]
      ensures EntriesElsewhere(old(vm.shape), old(vm.mem), vm.shape, vm.mem, old(cr3)[pid])
      ensures |vm.pmm.Free()| == |old(vm.pmm.Free())| + |OnlyOf(old(vm.shape), old(cr3)[pid])|
    {
      RootOf(pid);
      SlotMembers(cr3, pid, 0);
      ghost var s, m, c := vm.shape, vm.mem, vm.pmm.counts;
      vm.Destroy(cr3[pid]);
      AddressSpaces.DestroyedEntries(s, m, vm.shape, vm.mem, cr3[pid]);
      SimulatesStep(eager, cr3, s, m, c, pid, 0, map[], vm.shape, vm.mem, vm.pmm.counts);
      cr3 := cr3[pid := 0];
      eager := eager - {pid};
    }

    /** do_exec: the new space is built, then the old one is dropped; `kstack`: kmalloc had a kernel stack. */
    method DoExec(pid: nat, g: Program, kstack: bool) returns (r: Outcome)
      requires Valid() && g.Ok()
      modifies this, vm, vm.pmm, vm.pmm.bitmap, vm.pmm.bitmap.bytes, vm.pmm.refs
      ensures Valid() && RestKept() && (r.Failed? ==> eager == old(eager))
      ensures r.Done? <==> CanDo(old(Now()), Op.Exec(pid, g, kstack))
      ensures r.Done? ==> pid in old(eager) && eager == old(eager)[pid := g.Pages()]
      ensures Spends(old(Now()), Op.Exec(pid, g, kstack), r, Now()) && Marks(old(Now()), Op.Exec(pid, g, kstack), r, Now())
    {
      assert TaskOk(eager, cr3, vm.shape, vm.mem, pid);
      if pid >= |cr3| || cr3[pid] == 0 { return Failed; }
      ghost var v := Now();
      var ok := ExecTo(pid, g, kstack);
      r := if ok then Done(pid) else Failed;
      if ok { OthersEntries(v, Op.Exec(pid, g, kstack), r, Now(), pid); } else { KeptEntries(v, Op.Exec(pid, g, kstack), r, Now()); }
    }

    method ExecTo(pid: nat, g: Program, kstack: bool) returns (ok: bool)
      requires Valid() && g.Ok() && pid < |cr3| && cr3[pid] != 0 && pid in eager
      modifies this, vm, vm.pmm, vm.pmm.bitmap, vm.pmm.bitmap.bytes, vm.pmm.refs
      ensures Valid() && RestKept()
      ensures ok <==> kstack && g.Runnable() && |old(vm.pmm.Free())| >= Need(g.phdrs)
      ensures eager == if ok then old(eager)[pid := g.Pages()] else old(eager)
      ensures if ok then |vm.pmm.Free()| == |old(vm.pmm.Free())| - Need(g.phdrs) + |OnlyOf(old(vm.shape), old(cr3)[pid])|
              else vm.pmm.Free() == old(vm.pmm.Free())
      ensures if ok then EntriesElsewhere(old(vm.shape), old(vm.mem), vm.shape, vm.mem, old(cr3)[pid]) && SameSlots(old(cr3)[pid := 0], cr3)
              else EntriesKept(old(vm.shape), old(vm.mem), vm.shape, vm.mem) && cr3 == old(cr3)
    {
      RootOf(pid);
      ghost var s, m, c, from := vm.shape, vm.mem, vm.pmm.counts, cr3[pid];
      assert TaskOk(eager, cr3, s, m, pid);
      var root := Build(vm, kernel, g, kstack);
      if root == 0 {
        OwnsToo(eager[pid], s, m, c, cr3[pid], vm.shape, vm.mem, vm.pmm.counts, cr3[pid]);
        PutBack(eager, pid);
        Update(s, m, c, pid, eager[pid]);
        return false;
      }
      ghost var s1, m1 := vm.shape, vm.mem;
      Replace(s, m, c, pid, root, g.Pages());
      KeptThenGone(s, m, s1, m1, vm.shape, vm.mem, from);
      return true;
    }

    /** Slot `pid` gets the new space, and its old one is dropped. */
    method Replace(ghost s: Shape, ghost m: Memory, ghost c: map<nat, nat>, pid: nat, root: nat, ghost pages: Pages)
      requires vm.Valid() && vm.Quiet() && vm.shape.held == {} && Lent(lent, vm.shape) && |kernel| == 512 && |cr3| == MAX_TASKS
      requires pid < MAX_TASKS && cr3[pid] != 0 && root != 0
      requires forall i, j :: 0 <= i < j < |cr3| && cr3[i] != 0 ==> cr3[i] != cr3[j]
      requires forall r :: r in Roots(s) <==> r != 0 && r in cr3
      requires root !in Roots(s) && Roots(vm.shape) == Roots(s) + {root}
      requires Simulates(eager, cr3, s, m) && Consistent(s, m, c)
      requires forall r :: r in Roots(s) ==> Space(vm.shape, vm.mem, r) == Space(s, m, r)
      requires Space(vm.shape, vm.mem, root) == pages
      modifies this`cr3, this`eager, vm, vm.pmm, vm.pmm.bitmap, vm.pmm.bitmap.bytes, vm.pmm.refs
      ensures Valid() && pid in old(eager) && eager == old(eager)[pid := pages] && cr3 == old(cr3)[pid := root]
      ensures vm.shape.others == old(vm.shape.others) && vm.pmm.managed == old(vm.pmm.managed)
      ensures |vm.pmm.Free()| == |old(vm.pmm.Free())| + |OnlyOf(old(vm.shape), old(cr3)[pid])|
      ensures EntriesElsewhere(old(vm.shape), old(vm.mem), vm.shape, vm.mem, old(cr3)[pid])
    {
      assert cr3[pid] in Roots(s);
      var from := cr3[pid];
      ghost var s1, e, slots := vm.shape, eager, cr3;
      cr3 := cr3[pid := root];
      DropSpace(from);
      LentKept(lent, s1, vm.shape);
      Replaced(e, slots, s, m, c, pid, root, pages, vm.shape, vm.mem, vm.pmm.counts);
      SetEager(pid, pages);
    }

    static lemma KeptThenGone(s: Shape, m: Memory, a: Shape, ma: Memory, b: Shape, mb: Memory, root: nat)
      requires EntriesKept(s, m, a, ma) && EntriesElsewhere(a, ma, b, mb, root)
      ensures EntriesElsewhere(s, m, b, mb, root)
    {
      forall k: Node | k.root != root ensures EntryKept(s, m, b, mb, k) { assert EntryKept(s, m, a, ma, k) && EntryKept(a, ma, b, mb, k); }
    }

    static lemma Replaced(e: map<nat, Pages>, cr3: seq<nat>, s: Shape, m: Memory, c: map<nat, nat>, pid: nat, root: nat, pages: Pages,
                          s': Shape, m': Memory, c': map<nat, nat>)
      requires Consistent(s, m, c) && Consistent(s', m', c') && Simulates(e, cr3, s, m)
      requires pid < |cr3| && cr3[pid] != 0 && root != 0 && root !in Roots(s) && Roots(s') == Roots(s) + {root} - {cr3[pid]}
      requires forall i, j :: 0 <= i < j < |cr3| && cr3[i] != 0 ==> cr3[i] != cr3[j]
      requires forall r :: r in Roots(s) <==> r != 0 && r in cr3
      requires forall r :: r in Roots(s) && r != cr3[pid] ==> Space(s', m', r) == Space(s, m, r)
      requires Space(s', m', root) == pages
      ensures var slots := cr3[pid := root];
              && pid in e && Simulates(e[pid := pages], slots, s', m')
              && (forall i, j :: 0 <= i < j < |slots| && slots[i] != 0 ==> slots[i] != slots[j])
              && (forall r :: r in Roots(s') <==> r != 0 && r in slots)
    {
      OwnsSpace(pages, s', m', c', root);
      SimulatesStep(e, cr3, s, m, c, pid, root, pages, s', m', c');
      assert TaskOk(e, cr3, s, m, pid);
      SlotMembers(cr3, pid, root);
      assert root !in cr3;
    }

    ghost method SetEager(pid: nat, pages: Pages)
      requires vm.Valid() && vm.Quiet() && |kernel| == 512 && |cr3| == MAX_TASKS && vm.shape.held == {} && Lent(lent, vm.shape)
      requires forall i, j :: 0 <= i < j < |cr3| && cr3[i] != 0 ==> cr3[i] != cr3[j]
      requires forall r :: r in Roots(vm.shape) <==> r != 0 && r in cr3
      requires Simulates(eager[pid := pages], cr3, vm.shape, vm.mem)
      modifies this`eager
      ensures Valid() && eager == old(eager)[pid := pages]
    {
      eager := eager[pid := pages];
    }

    method DropSpace(root: nat)
      requires vm.Valid() && vm.Quiet() && root in Roots(vm.shape)
      modifies vm, vm.pmm, vm.pmm.bitmap, vm.pmm.bitmap.bytes, vm.pmm.refs
      ensures vm.Valid() && vm.Quiet() && vm.pmm.managed == old(vm.pmm.managed)
      ensures vm.shape.held == old(vm.shape.held) && vm.shape.others == old(vm.shape.others)
      ensures Roots(vm.shape) == old(Roots(vm.shape)) - {root}
      ensures forall r :: r != root ==> Space(vm.shape, vm.mem, r) == old(Space(vm.shape, vm.mem, r))
      ensures |vm.pmm.Free()| == |old(vm.pmm.Free())| + |OnlyOf(old(vm.shape), root)|
      ensures EntriesElsewhere(old(vm.shape), old(vm.mem), vm.shape, vm.mem, root)
    {
      ghost var s, m := vm.shape, vm.mem;
      vm.Destroy(root);
      AddressSpaces.DestroyedEntries(s, m, vm.shape, vm.mem, root);
    }

    method DoTake() returns (r: Outcome)
      requires Valid()
      modifies this, vm, vm.pmm, vm.pmm.bitmap, vm.pmm.bitmap.bytes, vm.pmm.refs
      ensures Valid() && Took(old(Now()), Op.Take, r, Now()) && vm.pmm.managed == old(vm.pmm.managed)
    {
      ghost var s, m, c, v := vm.shape, vm.mem, vm.pmm.counts, Now();
      var f := vm.Lend();
      Unmoved(s, m, c);
      if f == 0 { return Failed; }
      lent := lent + {f};
      NodesKept(s, m, vm.shape);
      KeptEntries(v, Op.Take, Done(f), Now());
      return Done(f);
    }

    method DoGive(f: nat) returns (r: Outcome)
      requires Valid()
      modifies this, vm, vm.pmm, vm.pmm.bitmap, vm.pmm.bitmap.bytes, vm.pmm.refs
      ensures Valid() && Took(old(Now()), Op.Give(f), r, Now()) && vm.pmm.managed == old(vm.pmm.managed)
    {
      if f !in lent { return Failed; }
      ghost var s, m, c, v := vm.shape, vm.mem, vm.pmm.counts, Now();
      vm.TakeBack(f);
      Unmoved(s, m, c);
      lent := lent - {f};
      NodesKept(s, m, vm.shape);
      KeptEntries(v, Op.Give(f), Done(f), Now());
      return Done(f);
    }

    static lemma NodesKept(s: Shape, m: Memory, s': Shape)
      requires s'.nodes == s.nodes
      ensures EntriesKept(s, m, s', m)
    {
    }

    /** Spaces that show the same still simulate. */
    lemma Unmoved(s: Shape, m: Memory, c: map<nat, nat>)
      requires vm.Valid() && Consistent(s, m, c) && vm.shape.nodes == s.nodes && Simulates(eager, cr3, s, m)
      requires forall r :: Space(vm.shape, vm.mem, r) == Space(s, m, r)
      ensures Simulates(eager, cr3, vm.shape, vm.mem) && Roots(vm.shape) == Roots(s)
    {
      forall pid: nat ensures TaskOk(eager, cr3, vm.shape, vm.mem, pid) {
        assert TaskOk(eager, cr3, s, m, pid);
        if pid in eager { OwnsToo(eager[pid], s, m, c, cr3[pid], vm.shape, vm.mem, vm.pmm.counts, cr3[pid]); }
      }
    }

    ghost predicate Meaningful(op: Op) {
      match op
      case Map(_, virt, bytes, flags) => IsUser(virt) && |bytes| == 4096 && flags.present
      case Store(_, virt, _) => IsUser(virt)
      case Exec(_, program, _) => program.Ok()
      case _ => true
    }

    method Step(op: Op) returns (r: Outcome)
      requires Valid() && Meaningful(op)
      modifies this, vm, vm.pmm, vm.pmm.bitmap, vm.pmm.bitmap.bytes, vm.pmm.refs
      ensures Valid() && vm.pmm.managed == old(vm.pmm.managed) && Took(old(Now()), op, r, Now())
    {
      ghost var e := eager;
      match op {
        case Spawn =>
          r := DoSpawn();
        case Map(pid, virt, bytes, flags) =>
          r := DoMap(pid, virt, bytes, flags);
          if r.Done? { EagerCases(e, pid, virt, bytes, flags, 0, r.id); }
        case Fork(pid) =>
          r := DoFork(pid);
          if r.Done? { EagerCases(e, pid, 0, [], Flags(true, true, true, true, true), 0, r.id); }
        case Store(pid, virt, value) =>
          r := DoStore(pid, virt, value);
          if r.Done? { EagerCases(e, pid, virt, [], Flags(true, true, true, true, true), value, r.id); }
        case Exec(pid, program, kstack) =>
          r := DoExec(pid, program, kstack);
        case Take =>
          r := DoTake();
        case Give(f) =>
          r := DoGive(f);
        case Exit(pid) =>
          r := DoExit(pid);
          if r.Done? { EagerCases(e, pid, 0, [], Flags(true, true, true, true, true), 0, r.id); }
      }
    }

    /** Every run of the lazy system is a run of the eager one, in which exactly those operations succeed that can.
        `trace` is the state before each operation, and at last the state now. */
    method Run(ops: seq<Op>) returns (rs: seq<Outcome>, ghost trace: seq<View>)
      requires Valid() && forall op :: op in ops ==> Meaningful(op)
      modifies this, vm, vm.pmm, vm.pmm.bitmap, vm.pmm.bitmap.bytes, vm.pmm.refs
      ensures Valid() && |rs| == |ops| && |trace| == |ops| + 1 && trace[0] == old(Now()) && trace[|ops|] == Now()
      ensures Unfolds(ops, rs, trace) && eager == EagerRun(old(eager), ops, rs)
      // nothing leaks: once every task is gone, so is every frame and reference they had
      ensures eager == map[] ==> vm.pmm.counts == OthersRun(old(vm.shape.others), ops, rs)
      ensures eager == map[] ==> Uncounted(vm.pmm.Free(), old(vm.pmm.managed), vm.pmm.base, OthersRun(old(vm.shape.others), ops, rs))
    {
      rs, trace := [], [Now()];
      for i := 0 to |ops|
        invariant Valid() && vm.pmm.managed == old(vm.pmm.managed) && |rs| == i && |trace| == i + 1 && trace[0] == old(Now()) && trace[i] == Now()
        invariant Unfolds(ops[..i], rs, trace)
      {
        var r := Step(ops[i]);
        RunLonger(ops, rs, trace, i, r, Now());
        rs, trace := rs + [r], trace + [Now()];
      }
      assert ops[..|ops|] == ops;
      assert rs[..|ops|] == rs;
      RunIsEager(ops, rs, trace, |ops|);
      if eager == map[] { AllGone(); }
      FreeIs();
    }

    /** In every reachable state a frame's count is the number of pages showing it, at most one per task,
        and a writable page is the only one. */
    lemma CountsExact(n: Node)
      requires Valid() && n in vm.shape.nodes && Depth(n.path) == 4
      ensures vm.shape.nodes[n] in vm.pmm.counts
      ensures vm.pmm.counts[vm.shape.nodes[n]] == |Users(vm.shape.nodes, vm.shape.nodes[n])| <= 64
      ensures LeafPte(vm.shape, vm.mem, n).writable ==> vm.pmm.counts[vm.shape.nodes[n]] == 1
    {
      var s, f := vm.shape, vm.shape.nodes[n];
      assert FrameOk(s, vm.pmm.counts, f) && n in Users(s.nodes, f);
      UsersBound(s, vm.mem, vm.pmm.counts, f);
      FewRoots();
      if LeafPte(s, vm.mem, n).writable {
        forall m | m in Users(s.nodes, f) ensures m == n { assert PairOk(s, vm.mem, n, m); }
        assert Users(s.nodes, f) == {n};
      }
    }
  }
}
