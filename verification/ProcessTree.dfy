/** The process tree kept in `tasks[64]` (kernel/process/process.c, kernel/process/fork.c):
    child lists threaded through `first_child` and `next_sibling`, as values. */
module ProcessTree {

  const MAX_TASKS: nat := 64

  datatype State = Unused | Ready | Running | Blocked | Sleeping | Zombie

  datatype Task = Task(state: State, parent: int, first: int, next: int, exitCode: int, waitFor: int, sleepUntil: nat,
                       stack: nat, rsp: nat, pending: nat)

  /** task_cleanup: the slot of a task that is gone, with what it leaves behind in it. */
  function Cleared(t: Task): Task {
    Task(Unused, -1, -1, -1, 0, -1, t.sleepUntil, 0, t.rsp, 0)
  }

  ghost predicate IsPid(i: int) {
    0 <= i < MAX_TASKS
  }

  /** `list` is what following `next_sibling` from `head` yields. */
  ghost predicate ChainOk(ts: seq<Task>, head: int, list: seq<int>) {
    && head == (if list == [] then -1 else list[0])
    && forall k :: 0 <= k < |list| ==>
         0 <= list[k] < |ts| && ts[list[k]].next == if k + 1 < |list| then list[k + 1] else -1
  }

  ghost predicate NoDup(s: seq<int>) {
    forall i, j :: 0 <= i < j < |s| ==> s[i] != s[j]
  }

  /** The child list of `p`: acyclic, without duplicates, children of `p` only.  Task 1 is never linked. */
  ghost predicate KidsOk(ts: seq<Task>, kids: seq<seq<int>>, p: nat)
    requires |ts| == |kids| == MAX_TASKS && p < MAX_TASKS
  {
    && ChainOk(ts, ts[p].first, kids[p]) && NoDup(kids[p])
    && forall k :: 0 <= k < |kids[p]| ==>
         var c := kids[p][k]; 2 <= c < MAX_TASKS && ts[c].state != Unused && ts[c].parent == p
  }

  ghost predicate Alive(t: Task) {
    t.state != Unused && t.state != Zombie
  }

  /** One task's place in the tree.  `rank` grows along every parent link. */
  ghost predicate PlaceOk(ts: seq<Task>, kids: seq<seq<int>>, rank: seq<nat>, c: nat)
    requires |ts| == |kids| == |rank| == MAX_TASKS && c < MAX_TASKS
  {
    && (c == 0 ==> ts[0].parent == -1 && ts[0].next == -1 && (ts[0].state == Ready || ts[0].state == Running))
    && (ts[c].state == Unused ==> ts[c].parent == -1 && ts[c].first == -1 && ts[c].next == -1)
    && (ts[c].state == Zombie ==> ts[c].first == -1)
    && (c == 1 ==> ts[1].state != Unused)
    && (c == 0 ==> rank[c] == 0) && (c == 1 ==> rank[c] == 1) && (c >= 2 ==> rank[c] >= 2)
    && (c != 0 && ts[c].state != Unused ==>
          && IsPid(ts[c].parent) && Alive(ts[ts[c].parent]) && rank[ts[c].parent] < rank[c]
          && (if c == 1 then ts[c].parent == 0 && ts[c].next == -1 else c in kids[ts[c].parent]))
  }

  ghost predicate TreeOk(ts: seq<Task>, kids: seq<seq<int>>, rank: seq<nat>) {
    && |ts| == |kids| == |rank| == MAX_TASKS
    && (forall p: nat {:trigger KidsOk(ts, kids, p)} :: p < MAX_TASKS ==> KidsOk(ts, kids, p))
    && (forall c: nat {:trigger PlaceOk(ts, kids, rank, c)} :: c < MAX_TASKS ==> PlaceOk(ts, kids, rank, c))
  }

  // ----- what the tree means -----

  /** A child list holds exactly the tasks with that parent, task 1 excepted. */
  lemma ListIsChildren(ts: seq<Task>, kids: seq<seq<int>>, rank: seq<nat>, p: nat, c: nat)
    requires TreeOk(ts, kids, rank) && p < MAX_TASKS && c < MAX_TASKS
    ensures c in kids[p] <==> c != 1 && ts[c].state != Unused && ts[c].parent == p
  {
    assert KidsOk(ts, kids, p) && PlaceOk(ts, kids, rank, c);
  }

  /** The ancestor `n` steps up; idle is its own. */
  ghost function Ancestor(ts: seq<Task>, c: int, n: nat): int
    decreases n
  {
    if n == 0 || !(0 <= c < |ts|) || c == 0 then c else Ancestor(ts, ts[c].parent, n - 1)
  }

  /** Every parent chain reaches the idle task. */
  lemma {:induction false} ReachesIdle(ts: seq<Task>, kids: seq<seq<int>>, rank: seq<nat>, c: nat)
    requires TreeOk(ts, kids, rank) && c < MAX_TASKS && ts[c].state != Unused
    ensures Ancestor(ts, c, rank[c]) == 0
    decreases rank[c]
  {
    assert PlaceOk(ts, kids, rank, c);
    if c != 0 {
      var p := ts[c].parent;
      ReachesIdle(ts, kids, rank, p);
      MoreSteps(ts, p, rank[p], rank[c] - 1);
    }
  }

  lemma {:induction false} MoreSteps(ts: seq<Task>, c: int, n: nat, m: nat)
    requires Ancestor(ts, c, n) == 0 && n <= m
    ensures Ancestor(ts, c, m) == 0
    decreases n
  {
    if n > 0 && 0 <= c < |ts| && c != 0 { MoreSteps(ts, ts[c].parent, n - 1, m - 1); }
  }

  // ----- lists -----

  ghost function Rev(s: seq<int>): (r: seq<int>)
    ensures |r| == |s|
    ensures forall k :: 0 <= k < |s| ==> r[k] == s[|s| - 1 - k]
  {
    if s == [] then [] else [s[|s| - 1]] + Rev(s[..|s| - 1])
  }

  /** A chain does not notice changes to tasks outside it. */
  lemma ChainKept(ts: seq<Task>, ts': seq<Task>, head: int, list: seq<int>)
    requires ChainOk(ts, head, list) && |ts'| == |ts|
    requires forall k :: 0 <= k < |list| ==> ts'[list[k]].next == ts[list[k]].next
    ensures ChainOk(ts', head, list)
  {
  }

  /** Links and liveness are unchanged. */
  ghost predicate SameLinks(t: Task, t': Task) {
    && t'.parent == t.parent && t'.first == t.first && t'.next == t.next
    && (t'.state == Unused <==> t.state == Unused) && (t'.state == Zombie <==> t.state == Zombie)
  }

  /** Scheduling, sleeping, waiting and stack bookkeeping leave the tree alone. */
  lemma SameTree(ts: seq<Task>, kids: seq<seq<int>>, rank: seq<nat>, ts': seq<Task>)
    requires TreeOk(ts, kids, rank) && |ts'| == MAX_TASKS
    requires forall c :: 0 <= c < MAX_TASKS ==> SameLinks(ts[c], ts'[c])
    requires ts'[0].state == Ready || ts'[0].state == Running
    ensures TreeOk(ts', kids, rank)
  {
    forall p: nat | p < MAX_TASKS ensures KidsOk(ts', kids, p) {
      assert KidsOk(ts, kids, p);
      assert SameLinks(ts[p], ts'[p]);
      forall k | 0 <= k < |kids[p]| ensures SameLinks(ts[kids[p][k]], ts'[kids[p][k]]) { }
    }
    forall c: nat | c < MAX_TASKS ensures PlaceOk(ts', kids, rank, c) {
      assert PlaceOk(ts, kids, rank, c);
      assert SameLinks(ts[c], ts'[c]);
      if c != 0 && ts[c].state != Unused { assert SameLinks(ts[ts[c].parent], ts'[ts[c].parent]); }
    }
  }

  // ----- a new child -----

  ghost predicate CanAdd(ts: seq<Task>, kids: seq<seq<int>>, rank: seq<nat>, p: nat, c: nat, t: Task) {
    && TreeOk(ts, kids, rank) && p < MAX_TASKS && 2 <= c < MAX_TASKS && ts[c].state == Unused && Alive(ts[p])
    && Alive(t) && t.parent == p && t.first == -1 && t.next == ts[p].first
  }

  /** fork.c: the child goes to the front of its parent's list. */
  lemma AddChild(ts: seq<Task>, kids: seq<seq<int>>, rank: seq<nat>, p: nat, c: nat, t: Task)
    requires CanAdd(ts, kids, rank, p, c, t)
    ensures TreeOk(ts[c := t][p := ts[p].(first := c)], kids[p := [c] + kids[p]], rank[c := rank[p] + 2])
  {
    var ts', kids', rank' := ts[c := t][p := ts[p].(first := c)], kids[p := [c] + kids[p]], rank[c := rank[p] + 2];
    forall q: nat | q < MAX_TASKS ensures KidsOk(ts', kids', q) { AddKids(ts, kids, rank, p, c, t, q); }
    forall d: nat | d < MAX_TASKS ensures PlaceOk(ts', kids', rank', d) { AddPlace(ts, kids, rank, p, c, t, d); }
  }

  lemma AddKids(ts: seq<Task>, kids: seq<seq<int>>, rank: seq<nat>, p: nat, c: nat, t: Task, q: nat)
    requires CanAdd(ts, kids, rank, p, c, t) && q < MAX_TASKS
    ensures KidsOk(ts[c := t][p := ts[p].(first := c)], kids[p := [c] + kids[p]], q)
  {
    var ts', kids' := ts[c := t][p := ts[p].(first := c)], kids[p := [c] + kids[p]];
    assert KidsOk(ts, kids, q);
    Unlisted(ts, kids, rank, c);
    forall k | 0 <= k < |kids[q]| ensures kids[q][k] != c { assert ts[kids[q][k]].state != Unused; }
    ChainKept(ts, ts', ts[q].first, kids[q]);
    if q == p {
      Pushed(ts', ts[p].first, kids[p], c);
      assert kids'[q] == [c] + kids[p];
    } else {
      assert kids'[q] == kids[q] && ts'[q].first == ts[q].first;
    }
  }

  lemma PushedAt(ts: seq<Task>, head: int, list: seq<int>, c: int, k: nat)
    requires ChainOk(ts, head, list) && 0 <= c < |ts| && ts[c].next == head && k <= |list|
    ensures var out := [c] + list; 0 <= out[k] < |ts| && ts[out[k]].next == if k + 1 < |out| then out[k + 1] else -1
  {
    var out := [c] + list;
    if k > 0 {
      var j := k - 1;
      assert 0 <= list[j] < |ts| && ts[list[j]].next == if j + 1 < |list| then list[j + 1] else -1;
      assert out[k] == list[j] && (k < |list| ==> out[k + 1] == list[j + 1]);
    } else if list != [] {
      assert out[1] == list[0] == head;
    }
  }

  /** A new first element. */
  lemma Pushed(ts: seq<Task>, head: int, list: seq<int>, c: int)
    requires ChainOk(ts, head, list) && NoDup(list) && 0 <= c < |ts| && ts[c].next == head
    requires forall k :: 0 <= k < |list| ==> list[k] != c
    ensures ChainOk(ts, c, [c] + list) && NoDup([c] + list)
  {
    var out := [c] + list;
    forall k | 0 <= k < |out| ensures 0 <= out[k] < |ts| && ts[out[k]].next == if k + 1 < |out| then out[k + 1] else -1 {
      PushedAt(ts, head, list, c, k);
    }
    forall i, j | 0 <= i < j < |out| ensures out[i] != out[j] {
      var l := j - 1;
      assert out[j] == list[l];
      if i > 0 { var k := i - 1; assert out[i] == list[k]; }
    }
    assert NoDup(out);
    assert ChainOk(ts, c, out);
  }

  lemma AddPlace(ts: seq<Task>, kids: seq<seq<int>>, rank: seq<nat>, p: nat, c: nat, t: Task, d: nat)
    requires CanAdd(ts, kids, rank, p, c, t) && d < MAX_TASKS
    ensures PlaceOk(ts[c := t][p := ts[p].(first := c)], kids[p := [c] + kids[p]], rank[c := rank[p] + 2], d)
  {
    assert PlaceOk(ts, kids, rank, d) && PlaceOk(ts, kids, rank, p);
    Unlisted(ts, kids, rank, c);
  }

  /** An unused slot is in no list and has no children. */
  lemma Unlisted(ts: seq<Task>, kids: seq<seq<int>>, rank: seq<nat>, c: nat)
    requires TreeOk(ts, kids, rank) && c < MAX_TASKS && !Alive(ts[c])
    ensures kids[c] == []
    ensures forall d: nat :: d < MAX_TASKS && d != 0 && ts[d].state != Unused ==> ts[d].parent != c
    ensures ts[c].state == Unused ==> forall q: nat :: q < MAX_TASKS ==> c !in kids[q]
  {
    assert KidsOk(ts, kids, c) && PlaceOk(ts, kids, rank, c);
    forall d: nat | d < MAX_TASKS && d != 0 && ts[d].state != Unused ensures ts[d].parent != c { assert PlaceOk(ts, kids, rank, d); }
    forall q: nat | q < MAX_TASKS && ts[c].state == Unused ensures c !in kids[q] { assert KidsOk(ts, kids, q); }
  }

  // ----- reaping -----

  /** A list without one of its elements. */
  ghost function Without(s: seq<int>, c: int): seq<int> {
    if s == [] then [] else if s[0] == c then s[1..] else [s[0]] + Without(s[1..], c)
  }

  lemma {:induction false} WithoutAt(s: seq<int>, i: nat)
    requires NoDup(s) && i < |s|
    ensures Without(s, s[i]) == s[..i] + s[i + 1..]
  {
    if i > 0 {
      assert s[1..][i - 1] == s[i];
      assert NoDup(s[1..]) by { forall a, b | 0 <= a < b < |s[1..]| ensures s[1..][a] != s[1..][b] { assert s[a + 1] != s[b + 1]; } }
      WithoutAt(s[1..], i - 1);
      assert [s[0]] + (s[1..][..i - 1] + s[1..][i..]) == s[..i] + s[i + 1..];
    }
  }

  /** `ts'` is `ts` with the `i`-th child of `p` unlinked and its slot reset. */
  ghost predicate Reaped(ts: seq<Task>, kids: seq<seq<int>>, p: nat, i: nat, c: int, ts': seq<Task>) {
    && |ts| == |ts'| == |kids| == MAX_TASKS && p < MAX_TASKS && i < |kids[p]| && kids[p][i] == c && IsPid(c) && c != p
    && (i > 0 ==> IsPid(kids[p][i - 1]))
    && ts'[c].state == Unused && ts'[c].parent == -1 && ts'[c].first == -1 && ts'[c].next == -1
    && (forall d :: 0 <= d < MAX_TASKS && d != c ==> ts'[d].state == ts[d].state && ts'[d].parent == ts[d].parent)
    && (forall d :: 0 <= d < MAX_TASKS && d != c && d != p ==> ts'[d].first == ts[d].first)
    && (forall d :: 0 <= d < MAX_TASKS && d != c && (i == 0 || d != kids[p][i - 1]) ==> ts'[d].next == ts[d].next)
    && (i == 0 ==> ts'[p].first == ts[c].next)
    && (i > 0 ==> ts'[p].first == ts[p].first && ts'[kids[p][i - 1]].next == ts[c].next)
  }

  /** task_remove_child and the reset of the slot. */
  lemma RemoveChild(ts: seq<Task>, kids: seq<seq<int>>, rank: seq<nat>, p: nat, i: nat, c: int, ts': seq<Task>)
    requires TreeOk(ts, kids, rank) && Reaped(ts, kids, p, i, c, ts') && !Alive(ts[c])
    ensures TreeOk(ts', kids[p := Without(kids[p], c)], rank)
  {
    assert KidsOk(ts, kids, p);
    WithoutAt(kids[p], i);
    var kids' := kids[p := kids[p][..i] + kids[p][i + 1..]];
    forall q: nat | q < MAX_TASKS ensures KidsOk(ts', kids', q) { RemoveKids(ts, kids, rank, p, i, c, ts', q); }
    forall d: nat | d < MAX_TASKS ensures PlaceOk(ts', kids', rank, d) { RemovePlace(ts, kids, rank, p, i, c, ts', d); }
  }

  lemma RemoveKids(ts: seq<Task>, kids: seq<seq<int>>, rank: seq<nat>, p: nat, i: nat, c: int, ts': seq<Task>, q: nat)
    requires TreeOk(ts, kids, rank) && Reaped(ts, kids, p, i, c, ts') && !Alive(ts[c]) && q < MAX_TASKS
    ensures KidsOk(ts', kids[p := kids[p][..i] + kids[p][i + 1..]], q)
  {
    var kids' := kids[p := kids[p][..i] + kids[p][i + 1..]];
    assert KidsOk(ts, kids, p) && KidsOk(ts, kids, q) && PlaceOk(ts, kids, rank, c);
    if q == p {
      Unchained(ts, ts', ts[p].first, kids[p], i, ts'[p].first);
      forall k | 0 <= k < |kids'[p]|
        ensures 2 <= kids'[p][k] < MAX_TASKS && ts'[kids'[p][k]].state != Unused && ts'[kids'[p][k]].parent == p
      {
        var j := if k < i then k else k + 1;
        assert kids'[p][k] == kids[p][j] && kids[p][j] != c;
      }
    } else {
      assert kids'[q] == kids[q];
      forall k | 0 <= k < |kids[q]| ensures kids[q][k] != c && (i > 0 ==> kids[q][k] != kids[p][i - 1]) {
        assert ts[kids[q][k]].parent == q && ts[c].parent == p;
      }
      ChainKept(ts, ts', ts[q].first, kids[q]);
      assert q == c ==> kids[q] == [];
    }
  }

  /** Taking element `i` out of a chain. */
  lemma Unchained(ts: seq<Task>, ts': seq<Task>, head: int, list: seq<int>, i: nat, head': int)
    requires ChainOk(ts, head, list) && NoDup(list) && i < |list| && |ts'| == |ts|
    requires forall k :: 0 <= k < |list| && k != i && k != i - 1 ==> ts'[list[k]].next == ts[list[k]].next
    requires if i == 0 then head' == ts[list[i]].next else head' == head && ts'[list[i - 1]].next == ts[list[i]].next
    ensures ChainOk(ts', head', list[..i] + list[i + 1..]) && NoDup(list[..i] + list[i + 1..])
  {
    var out := list[..i] + list[i + 1..];
    forall k | 0 <= k < |out|
      ensures 0 <= out[k] < |ts'| && ts'[out[k]].next == if k + 1 < |out| then out[k + 1] else -1
    {
      var j := if k < i then k else k + 1;
      assert out[k] == list[j];
      assert ts[list[j]].next == if j + 1 < |list| then list[j + 1] else -1;
      assert ts[list[i]].next == if i + 1 < |list| then list[i + 1] else -1;
    }
    forall a, b | 0 <= a < b < |out| ensures out[a] != out[b] {
      var a', b' := if a < i then a else a + 1, if b < i then b else b + 1;
      assert out[a] == list[a'] && out[b] == list[b'];
    }
    assert ts[list[i]].next == if i + 1 < |list| then list[i + 1] else -1;
    if |out| == 0 { assert out == []; } else { assert out[0] == list[if i > 0 then 0 else 1]; }
    assert NoDup(out);
    assert head' == (if out == [] then -1 else out[0]);
    assert ChainOk(ts', head', out);
  }

  lemma RemovePlace(ts: seq<Task>, kids: seq<seq<int>>, rank: seq<nat>, p: nat, i: nat, c: int, ts': seq<Task>, d: nat)
    requires TreeOk(ts, kids, rank) && Reaped(ts, kids, p, i, c, ts') && !Alive(ts[c]) && d < MAX_TASKS
    ensures PlaceOk(ts', kids[p := kids[p][..i] + kids[p][i + 1..]], rank, d)
  {
    assert KidsOk(ts, kids, p) && PlaceOk(ts, kids, rank, d);
    Unlisted(ts, kids, rank, c);
    if d != c && d in kids[p] {
      var j :| 0 <= j < |kids[p]| && kids[p][j] == d;
      var list := kids[p][..i] + kids[p][i + 1..];
      assert list[if j < i then j else j - 1] == d;
    }
  }

  // ----- reparenting -----

  ghost predicate CanMove(ts: seq<Task>, kids: seq<seq<int>>, rank: seq<nat>, d: nat, np: nat) {
    && TreeOk(ts, kids, rank) && d < MAX_TASKS && np < 2 && d != np && Alive(ts[np]) && kids[d] != []
  }

  /** One round of task_reparent_children, with the dying task's list head moved along. */
  ghost function Moved(ts: seq<Task>, d: nat, np: nat): seq<Task>
    requires |ts| == MAX_TASKS && d < MAX_TASKS && np < 2 && IsPid(ts[d].first)
  {
    var c := ts[d].first;
    ts[c := ts[c].(parent := np, next := ts[np].first)][np := ts[np].(first := c)][d := ts[d].(first := ts[c].next)]
  }

  lemma MoveChild(ts: seq<Task>, kids: seq<seq<int>>, rank: seq<nat>, d: nat, np: nat)
    requires CanMove(ts, kids, rank, d, np)
    ensures IsPid(ts[d].first) && ts[d].first == kids[d][0] && ts[d].first >= 2 && ts[d].first != d
    ensures TreeOk(Moved(ts, d, np), kids[d := kids[d][1..]][np := [kids[d][0]] + kids[np]], rank)
  {
    assert KidsOk(ts, kids, d);
    var c := kids[d][0];
    assert PlaceOk(ts, kids, rank, c);
    var ts', kids' := Moved(ts, d, np), kids[d := kids[d][1..]][np := [c] + kids[np]];
    forall q: nat | q < MAX_TASKS ensures KidsOk(ts', kids', q) { MoveKids(ts, kids, rank, d, np, q); }
    forall e: nat | e < MAX_TASKS ensures PlaceOk(ts', kids', rank, e) { MovePlace(ts, kids, rank, d, np, e); }
  }

  lemma MoveKids(ts: seq<Task>, kids: seq<seq<int>>, rank: seq<nat>, d: nat, np: nat, q: nat)
    requires CanMove(ts, kids, rank, d, np) && q < MAX_TASKS && IsPid(ts[d].first) && ts[d].first != d
    ensures KidsOk(Moved(ts, d, np), kids[d := kids[d][1..]][np := [kids[d][0]] + kids[np]], q)
  {
    if q == d { MoveFrom(ts, kids, rank, d, np); } else { MoveOthers(ts, kids, rank, d, np, q); }
  }

  lemma MoveFrom(ts: seq<Task>, kids: seq<seq<int>>, rank: seq<nat>, d: nat, np: nat)
    requires CanMove(ts, kids, rank, d, np) && IsPid(ts[d].first) && ts[d].first != d
    ensures KidsOk(Moved(ts, d, np), kids[d := kids[d][1..]][np := [kids[d][0]] + kids[np]], d)
  {
    assert KidsOk(ts, kids, d);
    var c := kids[d][0];
    var ts', kids' := Moved(ts, d, np), kids[d := kids[d][1..]][np := [c] + kids[np]];
    Unchained(ts, ts', ts[d].first, kids[d], 0, ts[c].next);
    assert kids[d][..0] + kids[d][1..] == kids[d][1..] == kids'[d];
    forall k | 0 <= k < |kids'[d]|
      ensures 2 <= kids'[d][k] < MAX_TASKS && ts'[kids'[d][k]].state != Unused && ts'[kids'[d][k]].parent == d
    {
      var j := k + 1;
      assert kids'[d][k] == kids[d][j] && kids[d][j] != c;
    }
  }

  lemma MoveOthers(ts: seq<Task>, kids: seq<seq<int>>, rank: seq<nat>, d: nat, np: nat, q: nat)
    requires CanMove(ts, kids, rank, d, np) && q < MAX_TASKS && q != d && IsPid(ts[d].first) && ts[d].first != d
    ensures KidsOk(Moved(ts, d, np), kids[d := kids[d][1..]][np := [kids[d][0]] + kids[np]], q)
  {
    assert KidsOk(ts, kids, d) && KidsOk(ts, kids, q);
    var c := kids[d][0];
    var ts', kids' := Moved(ts, d, np), kids[d := kids[d][1..]][np := [c] + kids[np]];
    forall k | 0 <= k < |kids[q]| ensures kids[q][k] != c { assert ts[kids[q][k]].parent == q && ts[c].parent == d; }
    ChainKept(ts, ts', ts[q].first, kids[q]);
    if q == np {
      Pushed(ts', ts[np].first, kids[np], c);
      assert kids'[q] == [c] + kids[q];
    } else {
      assert kids'[q] == kids[q];
    }
  }

  lemma MovePlace(ts: seq<Task>, kids: seq<seq<int>>, rank: seq<nat>, d: nat, np: nat, e: nat)
    requires CanMove(ts, kids, rank, d, np) && e < MAX_TASKS && IsPid(ts[d].first) && ts[d].first != d
    ensures PlaceOk(Moved(ts, d, np), kids[d := kids[d][1..]][np := [kids[d][0]] + kids[np]], rank, e)
  {
    assert KidsOk(ts, kids, d) && PlaceOk(ts, kids, rank, e) && PlaceOk(ts, kids, rank, d) && PlaceOk(ts, kids, rank, np);
    var c := kids[d][0];
    var kids' := kids[d := kids[d][1..]][np := [c] + kids[np]];
    if e in kids[d] && e != c {
      var j :| 0 <= j < |kids[d]| && kids[d][j] == e;
      var k := j - 1;
      assert kids'[d][k] == e;
    }
    assert e == c ==> kids'[np][0] == e;
    if e in kids[np] {
      var j :| 0 <= j < |kids[np]| && kids[np][j] == e;
      var k := j + 1;
      assert kids'[np][k] == e;
    }
  }

  /** A task whose children are gone may become a zombie. */
  lemma Zombify(ts: seq<Task>, kids: seq<seq<int>>, rank: seq<nat>, d: nat, t: Task)
    requires TreeOk(ts, kids, rank) && 0 < d < MAX_TASKS && kids[d] == [] && ts[d].state != Unused
    requires t.state == Zombie && t.parent == ts[d].parent && t.first == ts[d].first && t.next == ts[d].next
    ensures TreeOk(ts[d := t], kids, rank)
  {
    var ts' := ts[d := t];
    forall q: nat | q < MAX_TASKS ensures KidsOk(ts', kids, q) {
      assert KidsOk(ts, kids, q);
      ChainKept(ts, ts', ts[q].first, kids[q]);
    }
    forall e: nat | e < MAX_TASKS ensures PlaceOk(ts', kids, rank, e) {
      assert PlaceOk(ts, kids, rank, e) && KidsOk(ts, kids, d);
    }
  }
}
