/** Pages that are neither writable nor copy-on-write, over whole runs.

    A task cannot store to such a page (kernel/arch/page_fault.c, kernel/mm/vmm.c).  It stays that way until a fork of that
    task comes to the page, successful or not: copy_pt marks every entry it copies. */
module ReadOnlyPages {
  import opened PageTables
  import opened FrameBudget
  import opened CopyOrder
  import opened Vmm
  import opened CopyOnWrite

  /** The task leaves its space. */
  ghost predicate Departs(op: Op, pid: nat) {
    op == Op.Exit(pid) || (op.Exec? && op.pid == pid)
  }

  /** No step but a fork by its owner unseals a page, and that one exactly if it comes to the page. */
  lemma SealedStep(v: View, op: Op, r: Outcome, w: View, pid: nat, virt: nat)
    requires ViewOk(v) && ViewOk(w) && Took(v, op, r, w) && Sealed(v, pid, virt) && !Departs(op, pid)
    ensures Sealed(w, pid, virt) <==> !(op == Op.Fork(pid) && ForkReaches(v, pid, PagePath(virt)))
    ensures pid in w.eager && PagePath(virt) in w.eager[pid] && w.eager[pid][PagePath(virt)] == v.eager[pid][PagePath(virt)]
    ensures forall value :: op == Op.Store(pid, virt, value) ==> r.Failed?
  {
    if op.Store? && op.pid == pid && PagePath(op.virt) == PagePath(virt) { SealedShut(v, op, pid, virt); }
    PageStays(v.eager, op, r, pid, PagePath(virt));
    assert EntryStep(v, op, r, w, pid, PagePath(virt));
  }

  lemma SealedShut(v: View, op: Op, pid: nat, virt: nat)
    requires Sealed(v, pid, virt) && op.Store? && op.pid == pid && PagePath(op.virt) == PagePath(virt)
    ensures !CanDo(v, op)
  {
  }

  /** In the eager system a page keeps its bytes unless its task stores to it, maps it or leaves. */
  lemma PageStays(e: map<nat, Pages>, op: Op, r: Outcome, pid: nat, p: Path)
    requires pid in e && p in e[pid] && !Departs(op, pid) && (op.Spawn? || op.Fork? ==> r.Failed? || r.id != pid)
    requires (op.Map? || op.Store?) && op.pid == pid && PagePath(op.virt) == p ==> r.Failed?
    ensures var e' := EagerStep(e, op, r); pid in e' && p in e'[pid] && e'[pid][p] == e[pid][p]
  {
  }

  /** In every run a sealed page keeps its bytes and refuses every store, until its task forks or leaves its space. */
  lemma {:induction false} SealedRun(ops: seq<Op>, rs: seq<Outcome>, trace: seq<View>, n: nat, pid: nat, virt: nat)
    requires Unfolds(ops, rs, trace) && n <= |ops| && Sealed(trace[0], pid, virt)
    requires forall i :: 0 <= i < n ==> ops[i] != Op.Fork(pid) && !Departs(ops[i], pid)
    ensures Sealed(trace[n], pid, virt)
    ensures trace[n].eager[pid][PagePath(virt)] == trace[0].eager[pid][PagePath(virt)]
    ensures forall i, value :: 0 <= i < n && ops[i] == Op.Store(pid, virt, value) ==> rs[i].Failed?
  {
    if n > 0 {
      SealedRun(ops, rs, trace, n - 1, pid, virt);
      assert Took(trace[n - 1], ops[n - 1], rs[n - 1], trace[n - 1 + 1]);
      SealedStep(trace[n - 1], ops[n - 1], rs[n - 1], trace[n], pid, virt);
    }
  }

  /** The tables of a space with pages below 0x40_0000 only, on both sides of 0x20_0000. */
  ghost function TwoTables(): set<Path> {
    {Top, TablePath(0).up.up, TablePath(0).up, TablePath(0), TablePath(0x20_0000)}
  }

  /** The first of the two page tables is the fourth table that a fork copies. */
  lemma FourthTable(s: Shape, root: nat)
    requires TablesOf(s, root) == TwoTables()
    ensures |TablesOf(s, root)| == 5 && CopyRank(s, root, TablePath(0)) == 4
  {
    var a, b := TablePath(0), TablePath(0x20_0000);
    PathDepth(0);
    PathDepth(0x20_0000);
    assert Depth(a.up) == 2 && Depth(a.up.up) == 1 && FirstPage(a.up.up) == 0 && FirstPage(a.up) == 0 && FirstPage(a) == 0;
    assert FirstPage(b) == 512;
    var upTo := set p | p in TablesOf(s, root) && !Earlier(a, p);
    assert upTo == {Top, a.up.up, a.up, a};
  }

  /** A fork with four frames where five are needed: it fails, gives everything back, and the page that was read-only before
      can be stored to. */
  lemma FailedForkOpens(v: View, r: Outcome, w: View, pid: nat, virt: nat, value: bv8)
    requires ViewOk(v) && ViewOk(w) && Took(v, Op.Fork(pid), r, w) && FreeSlot(v.eager) && Sealed(v, pid, virt) && virt < 0x20_0000
    requires pid < |v.cr3| && TablesOf(v.shape, v.cr3[pid]) == TwoTables() && |v.free| == 4
    ensures r.Failed? && w.free == v.free && w.counts == v.counts && w.eager == v.eager
    ensures !CanDo(v, Op.Store(pid, virt, value)) && CanDo(w, Op.Store(pid, virt, value))
  {
    FourthTable(v.shape, v.cr3[pid]);
    FirstTable(virt);
    FailedForkGrants(v, r, w, pid, virt, value);
  }

  lemma FirstTable(virt: nat)
    requires virt < 0x20_0000
    ensures TablePath(virt) == TablePath(0)
  {
  }

  /** Every fork that fails opens the sealed pages it came to. */
  lemma FailedForkGrants(v: View, r: Outcome, w: View, pid: nat, virt: nat, value: bv8)
    requires ViewOk(v) && ViewOk(w) && Took(v, Op.Fork(pid), r, w) && Sealed(v, pid, virt)
    requires ForkReaches(v, pid, PagePath(virt)) && |v.free| < |TablesOf(v.shape, v.cr3[pid])|
    ensures r.Failed? && w.free == v.free && w.counts == v.counts && w.eager == v.eager
    ensures !CanDo(v, Op.Store(pid, virt, value)) && CanDo(w, Op.Store(pid, virt, value))
  {
    ForkGrantsStore(v, pid, r, w, virt, value);
  }
}
