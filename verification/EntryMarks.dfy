/** What happens to the entries of pages, with their permissions, when tables are copied. */
module EntryMarks {
  import opened PageTables

  /** What copy_pt makes of an entry, on both sides. */
  function Marked(p: Pte): Pte {
    p.(writable := false, cow := true)
  }

  /** The page `k` of `src` got a copy at `dst`. */
  ghost predicate NewCopy(s: Shape, s': Shape, src: nat, dst: nat, k: Node) {
    k.root == src && Node(dst, k.path) in s'.nodes && Node(dst, k.path) !in s.nodes
  }

  ghost predicate MarkOk(s: Shape, m: Memory, s': Shape, m': Memory, src: nat, dst: nat, k: Node) {
    k in s.nodes && Depth(k.path) == 4 ==>
      if NewCopy(s, s', src, dst, k) then
        && LeafPte(s', m', k) == Marked(LeafPte(s, m, k))
        && LeafPte(s', m', Node(dst, k.path)) == Marked(LeafPte(s, m, k))
      else LeafPte(s', m', k) == LeafPte(s, m, k)
  }

  /** Pages that got a copy are marked, on both sides; all other entries are as they were. */
  ghost predicate CopyMarks(s: Shape, m: Memory, s': Shape, m': Memory, src: nat, dst: nat) {
    forall k {:trigger MarkOk(s, m, s', m', src, dst, k)} :: MarkOk(s, m, s', m', src, dst, k)
  }

  ghost predicate Extends(s: Shape, s': Shape) {
    forall n :: n in s.nodes ==> n in s'.nodes && s'.nodes[n] == s.nodes[n]
  }

  lemma MarksAgain(s: Shape, m: Memory, a: Shape, ma: Memory, b: Shape, mb: Memory, src: nat, dst: nat)
    requires CopyMarks(s, m, a, ma, src, dst) && CopyMarks(a, ma, b, mb, src, dst) && Extends(s, a) && Extends(a, b) && src != dst
    ensures CopyMarks(s, m, b, mb, src, dst)
  {
    forall k ensures MarkOk(s, m, b, mb, src, dst, k) {
      assert MarkOk(s, m, a, ma, src, dst, k) && MarkOk(a, ma, b, mb, src, dst, k) && MarkOk(a, ma, b, mb, src, dst, Node(dst, k.path));
    }
  }

  /** The last-level tables have the same entries. */
  ghost predicate TablesSame(s: Shape, m: Memory, m': Memory) {
    forall n :: n in s.nodes && Depth(n.path) == 3 ==> s.nodes[n] in m && s.nodes[n] in m' && m'[s.nodes[n]] == m[s.nodes[n]]
  }

  /** Without new pages and without a store to a last-level table nothing is marked. */
  lemma KeptMarks(s: Shape, m: Memory, s': Shape, m': Memory, src: nat, dst: nat)
    requires NodesOk(s, m) && Extends(s, s') && TablesSame(s, m, m')
    requires forall n :: n in s'.nodes && Depth(n.path) == 4 ==> n in s.nodes
    ensures CopyMarks(s, m, s', m', src, dst)
  {
    forall k ensures MarkOk(s, m, s', m', src, dst, k) {
      SameEntry(s, m, s', m', k);
    }
  }

  /** A frame that was not in use is no table. */
  lemma FreshSame(s: Shape, m: Memory, c: map<nat, nat>, m': Memory, f: nat)
    requires Consistent(s, m, c) && f !in c && forall g :: g in m && g != f ==> g in m' && m'[g] == m[g]
    ensures TablesSame(s, m, m')
  {
    forall n | n in s.nodes && Depth(n.path) == 3 ensures s.nodes[n] in m && s.nodes[n] in m' && m'[s.nodes[n]] == m[s.nodes[n]] {
      assert NodeOk(s, m, n);
      assert FrameOk(s, c, s.nodes[n]) && n in Users(s.nodes, s.nodes[n]);
    }
  }

  /** Nor is the frame of a page, or of a table at another level, a last-level table. */
  lemma OtherSame(s: Shape, m: Memory, u: Node, m': Memory)
    requires NodesOk(s, m) && SharingOk(s, m) && u in s.nodes && Depth(u.path) != 3
    requires forall g :: g in m && g != s.nodes[u] ==> g in m' && m'[g] == m[g]
    ensures TablesSame(s, m, m')
  {
    forall n | n in s.nodes && Depth(n.path) == 3 ensures s.nodes[n] in m && s.nodes[n] in m' && m'[s.nodes[n]] == m[s.nodes[n]] {
      assert NodeOk(s, m, n) && PairOk(s, m, n, u);
    }
  }

  // ----- entries that stay -----

  ghost predicate EntryKept(s: Shape, m: Memory, s': Shape, m': Memory, k: Node) {
    k in s.nodes && Depth(k.path) == 4 ==> k in s'.nodes && LeafPte(s', m', k) == LeafPte(s, m, k)
  }

  /** Every page has the entry it had. */
  ghost predicate EntriesKept(s: Shape, m: Memory, s': Shape, m': Memory) {
    forall k {:trigger EntryKept(s, m, s', m', k)} :: EntryKept(s, m, s', m', k)
  }

  /** Every page of every space but `root`. */
  ghost predicate EntriesElsewhere(s: Shape, m: Memory, s': Shape, m': Memory, root: nat) {
    forall k: Node {:trigger EntryKept(s, m, s', m', k)} :: k.root != root ==> EntryKept(s, m, s', m', k)
  }

  /** Every page but `n`. */
  ghost predicate EntriesBut(s: Shape, m: Memory, s': Shape, m': Memory, n: Node) {
    forall k {:trigger EntryKept(s, m, s', m', k)} :: k != n ==> EntryKept(s, m, s', m', k)
  }

  lemma SameEntry(s: Shape, m: Memory, s': Shape, m': Memory, k: Node)
    requires NodesOk(s, m) && Extends(s, s') && TablesSame(s, m, m')
    ensures EntryKept(s, m, s', m', k)
  {
    if k in s.nodes { assert NodeOk(s, m, k); }
  }

  lemma SameEntries(s: Shape, m: Memory, s': Shape, m': Memory)
    requires NodesOk(s, m) && Extends(s, s') && TablesSame(s, m, m')
    ensures EntriesKept(s, m, s', m')
  {
    forall k ensures EntryKept(s, m, s', m', k) { SameEntry(s, m, s', m', k); }
  }

  /** Only the nodes matter. */
  lemma SameNodes(s: Shape, m: Memory, a: Shape, b: Shape, m': Memory)
    requires EntriesKept(s, m, a, m') && b.nodes == a.nodes
    ensures EntriesKept(s, m, b, m')
  {
    forall k ensures EntryKept(s, m, b, m', k) { assert EntryKept(s, m, a, m', k); }
  }

  lemma KeptTwice(s: Shape, m: Memory, a: Shape, ma: Memory, b: Shape, mb: Memory)
    requires EntriesKept(s, m, a, ma) && EntriesKept(a, ma, b, mb)
    ensures EntriesKept(s, m, b, mb)
  {
    forall k ensures EntryKept(s, m, b, mb, k) { assert EntryKept(s, m, a, ma, k) && EntryKept(a, ma, b, mb, k); }
  }

  lemma ElsewhereTwice(s: Shape, m: Memory, a: Shape, ma: Memory, b: Shape, mb: Memory, root: nat)
    requires EntriesElsewhere(s, m, a, ma, root) && EntriesElsewhere(a, ma, b, mb, root)
    ensures EntriesElsewhere(s, m, b, mb, root)
  {
    forall k: Node | k.root != root ensures EntryKept(s, m, b, mb, k) { assert EntryKept(s, m, a, ma, k) && EntryKept(a, ma, b, mb, k); }
  }

  lemma ButThenKept(s: Shape, m: Memory, a: Shape, ma: Memory, b: Shape, mb: Memory, n: Node)
    requires EntriesBut(s, m, a, ma, n) && EntriesKept(a, ma, b, mb)
    ensures EntriesBut(s, m, b, mb, n)
  {
    forall k | k != n ensures EntryKept(s, m, b, mb, k) { assert EntryKept(s, m, a, ma, k) && EntryKept(a, ma, b, mb, k); }
  }

  /** A store to the entry of one page, which may also move to another frame. */
  lemma OneEntry(s: Shape, m: Memory, n: Node, p: Pte, s': Shape, m': Memory)
    requires NodesOk(s, m) && SharingOk(s, m) && Depth(n.path) == 4 && Up(n) in s.nodes && Up(n) in s'.nodes && s'.nodes[Up(n)] == s.nodes[Up(n)]
    requires IsTable(m, s.nodes[Up(n)]) && n.path.idx < 512
    requires s.nodes[Up(n)] in m' && m'[s.nodes[Up(n)]] == Table(m[s.nodes[Up(n)]].ptes[n.path.idx := p])
    requires forall k :: k in s.nodes && k != n ==> k in s'.nodes && s'.nodes[k] == s.nodes[k]
    requires forall k :: k in s.nodes && Depth(k.path) == 3 && k != Up(n) ==> s.nodes[k] in m && s.nodes[k] in m' && m'[s.nodes[k]] == m[s.nodes[k]]
    ensures EntriesBut(s, m, s', m', n)
  {
    forall k | k != n ensures EntryKept(s, m, s', m', k) {
      if k in s.nodes && Depth(k.path) == 4 {
        assert NodeOk(s, m, k);
        assert Up(k) == Up(n) ==> k.path.idx != n.path.idx;
      }
    }
  }

  /** The same, with all other frames but an unused one as they were. */
  lemma OneEntryFresh(s: Shape, m: Memory, c: map<nat, nat>, n: Node, p: Pte, f: nat, s': Shape, m': Memory)
    requires Consistent(s, m, c) && Depth(n.path) == 4 && Up(n) in s.nodes && Up(n) in s'.nodes && s'.nodes[Up(n)] == s.nodes[Up(n)] && f !in c
    requires IsTable(m, s.nodes[Up(n)]) && n.path.idx < 512
    requires s.nodes[Up(n)] in m' && m'[s.nodes[Up(n)]] == Table(m[s.nodes[Up(n)]].ptes[n.path.idx := p])
    requires forall k :: k in s.nodes && k != n ==> k in s'.nodes && s'.nodes[k] == s.nodes[k]
    requires forall g :: g in m && g != f && g != s.nodes[Up(n)] ==> g in m' && m'[g] == m[g]
    ensures EntriesBut(s, m, s', m', n)
  {
    forall k | k in s.nodes && Depth(k.path) == 3 && k != Up(n) ensures s.nodes[k] in m && s.nodes[k] in m' && m'[s.nodes[k]] == m[s.nodes[k]] {
      assert NodeOk(s, m, k) && PairOk(s, m, k, Up(n));
      assert FrameOk(s, c, s.nodes[k]) && k in Users(s.nodes, s.nodes[k]);
    }
    OneEntry(s, m, n, p, s', m');
  }

  /** A new page: no other entry changes. */
  lemma NewEntry(s: Shape, m: Memory, c: map<nat, nat>, n: Node, p: Pte, s': Shape, m': Memory)
    requires Consistent(s, m, c) && Depth(n.path) == 4 && Up(n) in s.nodes && n !in s.nodes && Extends(s, s')
    requires IsTable(m, s.nodes[Up(n)]) && n.path.idx < 512 && m' == SetPte(m, s.nodes[Up(n)], n.path.idx, p)
    ensures EntriesKept(s, m, s', m')
  {
    forall k | k in s.nodes && Depth(k.path) == 3 && k != Up(n) ensures s.nodes[k] in m && s.nodes[k] in m' && m'[s.nodes[k]] == m[s.nodes[k]] {
      assert NodeOk(s, m, k) && PairOk(s, m, k, Up(n));
    }
    OneEntry(s, m, n, p, s', m');
  }

  /** The entry of a page after a store to it. */
  function AfterStore(p: Pte, f: nat): Pte {
    if p.writable then p else p.(frame := f, cow := false, writable := true)
  }

  /** One entry of copy_pt. */
  lemma ShareMarks(s: Shape, m: Memory, d: Node, t: Node, i: nat, s': Shape, m': Memory)
    requires NodesOk(s, m) && SharingOk(s, m) && d in s.nodes && t in s.nodes && d.path == t.path && d.root != t.root && Depth(t.path) == 3
    requires i < 512 && Kid(t, i) in s.nodes && Kid(d, i) !in s.nodes
    requires s' == s.(nodes := s.nodes[Kid(d, i) := s.nodes[Kid(t, i)]])
    requires IsTable(m, s.nodes[d]) && IsTable(m, s.nodes[t]) && s.nodes[d] != s.nodes[t]
    requires var e := Marked(m[s.nodes[t]].ptes[i]);
             m' == m[s.nodes[d] := Table(m[s.nodes[d]].ptes[i := e])][s.nodes[t] := Table(m[s.nodes[t]].ptes[i := e])]
    ensures CopyMarks(s, m, s', m', t.root, d.root)
  {
    forall k ensures MarkOk(s, m, s', m', t.root, d.root, k) {
      if k in s.nodes && Depth(k.path) == 4 {
        assert NodeOk(s, m, k);
        assert PairOk(s, m, Up(k), t) && PairOk(s, m, Up(k), d);
        assert Node(d.root, k.path) == Kid(d, i) ==> Up(Node(d.root, k.path)) == d;
        assert k.path == Kid(d, i).path ==> k.path.up == t.path;
        assert Up(k) == t && k.path.idx == i ==> k == Kid(t, i);
      }
    }
  }
}
