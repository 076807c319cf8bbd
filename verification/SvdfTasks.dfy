/** The tasks of RTreeUpdater in xgboost_svdf_tree.hpp and the rows they hold. */
module SvdfTasks {
  import opened Forest
  import opened TreeModels
  import opened TreeWalk
  import opened TreeGrowth
  import opened ReachingRows
  import opened RowTreeMakers
  import opened Sorting

  /** A node to be expanded, with its rows at [lo, lo + len) of idset. */
  datatype Task = Task(nid: nat, lo: nat, len: nat, parentBaseWeight: real)

  // ----- removing a sorted list from a sorted list -----

  /** The elements of s that are not in q, in order. */
  function Without(s: seq<nat>, q: seq<nat>): (r: seq<nat>)
    ensures |r| <= |s|
  {
    if s == [] then []
    else
      var front := Without(s[..|s| - 1], q);
      if s[|s| - 1] in q then front else front + [s[|s| - 1]]
  }

  predicate AllIn(q: seq<nat>, s: seq<nat>) { forall k :: 0 <= k < |q| ==> q[k] in s }

  predicate From(s: seq<nat>, i: nat, x: nat) { exists j :: i <= j < |s| && s[j] == x }

  /** How far the two lists have been merged: the first `top` of q have been met in the first i of s,
      the others are still to come. */
  ghost predicate Merging(s: seq<nat>, q: seq<nat>, i: nat, top: nat) {
    && i <= |s| && top <= |q| && top <= i
    && (forall k, j :: 0 <= k < top && i <= j < |s| ==> q[k] != s[j])
    && (forall k :: top <= k < |q| ==> From(s, i, q[k]))
  }

  lemma MergeStarts(s: seq<nat>, q: seq<nat>)
    requires AllIn(q, s)
    ensures Merging(s, q, 0, 0)
  {
    forall k | 0 <= k < |q| ensures From(s, 0, q[k]) { assert q[k] in s; }
  }

  /** The next element is in q exactly when it is the next one of q. */
  lemma MergeHit(s: seq<nat>, q: seq<nat>, i: nat, top: nat)
    requires Increasing(s) && Increasing(q) && i < |s| && Merging(s, q, i, top)
    ensures s[i] in q <==> top < |q| && s[i] == q[top]
  {
    if top < |q| { assert From(s, i, q[top]); }
  }

  lemma Less(s: seq<nat>, i: nat, j: nat)
    requires Increasing(s) && i < |s| && j < |s|
    ensures (i < j ==> s[i] < s[j]) && (j < i ==> s[j] < s[i])
  {
  }

  /** The next element is met in q. */
  lemma MergeHits(s: seq<nat>, q: seq<nat>, i: nat, top: nat)
    requires Increasing(s) && Increasing(q) && i < |s| && top < |q| && s[i] == q[top] && Merging(s, q, i, top)
    ensures Merging(s, q, i + 1, top + 1)
  {
    forall k | top + 1 <= k < |q| ensures From(s, i + 1, q[k]) {
      assert From(s, i, q[k]);
      Less(q, top, k);
      var j :| i <= j < |s| && s[j] == q[k];
      assert i + 1 <= j;
    }
    forall k, j | 0 <= k < top + 1 && i + 1 <= j < |s| ensures q[k] != s[j] { Less(s, i, j); }
  }

  /** The next element is not in q. */
  lemma MergeMisses(s: seq<nat>, q: seq<nat>, i: nat, top: nat)
    requires i < |s| && s[i] !in q && Merging(s, q, i, top)
    ensures top <= i && Merging(s, q, i + 1, top)
  {
    forall k | top <= k < |q| ensures From(s, i + 1, q[k]) {
      assert From(s, i, q[k]) && q[k] in q;
      var j :| i <= j < |s| && s[j] == q[k];
      assert i + 1 <= j;
    }
  }

  lemma MergeStep(s: seq<nat>, q: seq<nat>, i: nat, top: nat)
    requires Increasing(s) && Increasing(q) && i < |s| && Merging(s, q, i, top)
    ensures var hit := top < |q| && s[i] == q[top];
      && Merging(s, q, i + 1, if hit then top + 1 else top)
      && Without(s[..i + 1], q) == if hit then Without(s[..i], q) else Without(s[..i], q) + [s[i]]
  {
    MergeHit(s, q, i, top);
    WithoutNext(s, q, i);
    hide Merging, Without, Increasing;
    if top < |q| && s[i] == q[top] { MergeHits(s, q, i, top); } else { MergeMisses(s, q, i, top); }
  }

  lemma WithoutNext(s: seq<nat>, q: seq<nat>, i: nat)
    requires i < |s|
    ensures Without(s[..i + 1], q) == if s[i] in q then Without(s[..i], q) else Without(s[..i], q) + [s[i]]
  {
    assert s[..i + 1][..i] == s[..i];
  }

  lemma MergeEnds(s: seq<nat>, q: seq<nat>, top: nat)
    requires Merging(s, q, |s|, top)
    ensures top == |q|
  {
    assert top < |q| ==> From(s, |s|, q[top]);
  }

  method Move(idset: array<nat>, ghost lo: nat, from: nat, to: nat)
    requires lo <= to <= from < idset.Length
    modifies idset
    ensures idset[lo..to + 1] == old(idset[lo..to]) + [old(idset[from])]
    ensures forall k :: 0 <= k < idset.Length && k != to ==> idset[k] == old(idset[k])
  {
    idset[to] := idset[from];
  }

  /** One step of the first loop of make_split: what is not next in q moves to the front. */
  method SqueezeOne(idset: array<nat>, lo: nat, i: nat, top: nat, q: seq<nat>, ghost kept: seq<nat>) returns (next: nat)
    requires top <= i && top <= |q| && lo + i < idset.Length && idset[lo..lo + i - top] == kept
    modifies idset
    ensures var x := old(idset[lo + i]); var hit := top < |q| && x == q[top];
      next == (if hit then top + 1 else top) && next <= i + 1 && idset[lo..lo + i + 1 - next] == if hit then kept
        else kept + [x]
    ensures forall k :: 0 <= k < idset.Length && !(lo <= k < lo + i + 1) ==> idset[k] == old(idset[k])
  {
    next := top;
    if top < |q| {
      if idset[lo + i] != q[top] {
        Move(idset, lo, lo + i, lo + i - top);
      } else {
        next := top + 1;
      }
    } else {
      Move(idset, lo, lo + i, lo + i - |q|);
    }
  }

  /** The first loop of make_split: what is not in q moves to the front. */
  method Squeeze(idset: array<nat>, lo: nat, len: nat, q: seq<nat>)
    requires lo + len <= idset.Length && Increasing(idset[lo..lo + len]) && Increasing(q)
    requires AllIn(q, idset[lo..lo + len])
    modifies idset
    ensures |q| <= len
    ensures idset[lo..lo + len - |q|] == Without(old(idset[lo..lo + len]), q)
    ensures forall k :: 0 <= k < idset.Length && !(lo <= k < lo + len) ==> idset[k] == old(idset[k])
  {
    hide Without, Merging, Increasing, AllIn, From;
    ghost var s, was := idset[lo..lo + len], idset[..];
    MergeStarts(s, q);
    NothingLeft(q);
    assert s[..0] == [];
    var top: nat := 0;
    ghost var kept: seq<nat> := [];
    for i := 0 to len
      invariant top <= i && top <= |q| && Merging(s, q, i, top)
      invariant kept == Without(s[..i], q) && idset[lo..lo + i - top] == kept
      invariant forall k :: 0 <= k < idset.Length && !(lo <= k < lo + i) ==> idset[k] == was[k]
    {
      MergeStep(s, q, i, top);
      TopStays(s, q, i, top);
      assert idset[lo + i] == s[i];
      top := SqueezeOne(idset, lo, i, top, q, kept);
      kept := Without(s[..i + 1], q);
    }
    assert s[..len] == s;
    MergeEnds(s, q, top);
  }

  lemma TopStays(s: seq<nat>, q: seq<nat>, i: nat, top: nat)
    requires Merging(s, q, i, top)
    ensures top <= i && top <= |q|
  {
  }

  /** make_split on idset[lo..lo + len]: first what is not in q, then q. */
  method RemoveAndAppend(idset: array<nat>, lo: nat, len: nat, q: seq<nat>)
    requires lo + len <= idset.Length && Increasing(idset[lo..lo + len]) && Increasing(q)
    requires AllIn(q, idset[lo..lo + len])
    modifies idset
    ensures |q| <= len
    ensures idset[lo..lo + len - |q|] == Without(old(idset[lo..lo + len]), q)
    ensures idset[lo + len - |q|..lo + len] == q
    ensures forall k :: 0 <= k < idset.Length && !(lo <= k < lo + len) ==> idset[k] == old(idset[k])
  {
    hide Without, Increasing, AllIn;
    ghost var was := idset[..];
    Squeeze(idset, lo, len, q);
    ghost var front, split := idset[lo..lo + len - |q|], lo + len - |q|;
    for i := 0 to |q|
      invariant forall k :: lo <= k < split ==> idset[k] == front[k - lo]
      invariant forall k :: 0 <= k < i ==> idset[split + k] == q[k]
      invariant forall k :: 0 <= k < idset.Length && !(lo <= k < lo + len) ==> idset[k] == was[k]
    {
      idset[lo + len - |q| + i] := q[i];
    }
  }

  lemma NothingLeft(q: seq<nat>)
    ensures Without([], q) == []
  {
  }

  // ----- the parts of a task -----

  lemma {:induction false} PartHas(n: Node, rows: seq<Row>, s: seq<nat>, left: bool, x: nat)
    ensures x in Part(n, rows, s, left) <==> x in s && x < |rows| && GoesLeft(n, rows[x]) == left
  {
    if s != [] {
      PartHas(n, rows, s[..|s| - 1], left, x);
      assert s == s[..|s| - 1] + [s[|s| - 1]];
    }
  }

  lemma {:induction false} PartIncreasing(n: Node, rows: seq<Row>, s: seq<nat>, left: bool)
    requires Increasing(s)
    ensures Increasing(Part(n, rows, s, left))
  {
    if s != [] {
      var front := Part(n, rows, s[..|s| - 1], left);
      PartIncreasing(n, rows, s[..|s| - 1], left);
      forall i | 0 <= i < |front| ensures front[i] < s[|s| - 1] {
        PartHas(n, rows, s[..|s| - 1], left, front[i]);
      }
    }
  }

  /** Sorted lists with the same elements are equal. */
  lemma {:induction false} SameIncreasing(a: seq<nat>, b: seq<nat>)
    requires Increasing(a) && Increasing(b) && forall x :: x in a <==> x in b
    ensures a == b
  {
    assert |b| > 0 ==> b[0] in b;
    if a != [] {
      assert a[|a| - 1] in b;
      var p, q := a[|a| - 1], b[|b| - 1];
      SameLast(a, b);
      var c, d := a[..|a| - 1], b[..|b| - 1];
      FrontOf(a);
      FrontOf(b);
      forall x ensures x in c <==> x in d { assert x in a <==> x in b; }
      SameIncreasing(c, d);
      assert a == c + [p] && b == d + [q];
    }
  }

  lemma SameLast(a: seq<nat>, b: seq<nat>)
    requires Increasing(a) && Increasing(b) && a != [] && b != [] && forall x :: x in a <==> x in b
    ensures a[|a| - 1] == b[|b| - 1]
  {
    var p, q := a[|a| - 1], b[|b| - 1];
    assert p in b && q in a;
    var i: nat :| i < |a| && a[i] == q;
    var j: nat :| j < |b| && b[j] == p;
    Less(a, i, |a| - 1);
    Less(b, j, |b| - 1);
  }

  lemma FrontOf(a: seq<nat>)
    requires Increasing(a) && a != []
    ensures Increasing(a[..|a| - 1]) && forall x :: x in a[..|a| - 1] <==> x in a && x != a[|a| - 1]
  {
    assert a == a[..|a| - 1] + [a[|a| - 1]];
  }

  /** When q holds the rows of s that leave the default branch, removing q leaves those that take it. */
  lemma {:induction false} WithoutIsPart(n: Node, rows: seq<Row>, s: seq<nat>, q: seq<nat>)
    requires forall x :: x in s ==> x < |rows| && (x in q <==> GoesLeft(n, rows[x]) != n.defaultLeft)
    ensures Without(s, q) == Part(n, rows, s, n.defaultLeft)
  {
    if s != [] {
      assert s == s[..|s| - 1] + [s[|s| - 1]];
      var front := s[..|s| - 1];
      forall x | x in front ensures x < |rows| && (x in q <==> GoesLeft(n, rows[x]) != n.defaultLeft) { assert x in s; }
      WithoutIsPart(n, rows, s[..|s| - 1], q);
    }
  }

  lemma SplitRows(n: Node, rows: seq<Row>, s: seq<nat>, q: seq<nat>)
    requires Increasing(s) && Increasing(q) && AllIn(q, s)
    requires forall x :: x in s ==> x < |rows| && (x in q <==> GoesLeft(n, rows[x]) != n.defaultLeft)
    ensures Without(s, q) == Part(n, rows, s, n.defaultLeft) && q == Part(n, rows, s, !n.defaultLeft)
    ensures Increasing(Without(s, q))
  {
    WithoutIsPart(n, rows, s, q);
    PartIncreasing(n, rows, s, n.defaultLeft);
    PartIncreasing(n, rows, s, !n.defaultLeft);
    forall x ensures x in q <==> x in Part(n, rows, s, !n.defaultLeft) { PartHas(n, rows, s, !n.defaultLeft, x); }
    SameIncreasing(q, Part(n, rows, s, !n.defaultLeft));
  }

  // ----- the stack of tasks -----

  predicate Disjoint(a: Task, b: Task) { a.nid != b.nid && (a.lo + a.len <= b.lo || b.lo + b.len <= a.lo) }

  /** A task is an open node, not too deep; its rows, sorted, are those whose walk has come to the node. */
  predicate TaskOk(t: Trees, start: seq<int>, rows: seq<Row>, initial: seq<nat>, idx: seq<nat>, maxDepth: nat,
                   k: Task) {
    && t.Open(k.nid) && (t.nodes[k.nid].kids.Pending? || k.nid < t.roots)
    && k.nid < |t.depth| && t.depth[k.nid] <= maxDepth && k.lo + k.len <= |idx|
    && idx[k.lo..k.lo + k.len] == Reaching(t.nodes, start, rows, initial, k.nid, t.depth[k.nid])
  }

  ghost predicate Stacked(t: Trees, start: seq<int>, rows: seq<Row>, initial: seq<nat>, idx: seq<nat>, maxDepth: nat,
                          tasks: seq<Task>) {
    && t.Ok() && |start| == |rows| && (forall r :: 0 <= r < |start| ==> -1 <= start[r] < t.roots)
    && (forall i :: 0 <= i < |tasks| ==> TaskOk(t, start, rows, initial, idx, maxDepth, tasks[i]))
    && (forall i, j :: 0 <= i < j < |tasks| ==> Disjoint(tasks[i], tasks[j]))
    && (forall p: nat :: t.Has(p) && t.nodes[p].kids.Pending? ==> IsTask(tasks, p))
  }

  predicate IsTask(tasks: seq<Task>, p: nat) { exists i :: 0 <= i < |tasks| && tasks[i].nid == p }

  lemma {:induction false} ReachingIncreasing(nodes: seq<Node>, start: seq<int>, rows: seq<Row>, s: seq<nat>, p: nat,
                                              d: nat)
    requires Increasing(s)
    ensures Increasing(Reaching(nodes, start, rows, s, p, d)) && AllIn(Reaching(nodes, start, rows, s, p, d), s)
  {
    if s != [] {
      var front := s[..|s| - 1];
      FrontOf(s);
      ReachingIncreasing(nodes, start, rows, front, p, d);
      var r := Reaching(nodes, start, rows, front, p, d);
      forall k | 0 <= k < |r| ensures r[k] in s && r[k] < s[|s| - 1] {
        assert r[k] in front;
        var j: nat :| j < |front| && front[j] == r[k];
        Less(s, j, |s| - 1);
        assert s[j] == r[k];
      }
    }
  }

  /** The last task's node has become a leaf. */
  lemma LeafTask(s: Trees, t: Trees, start: seq<int>, rows: seq<Row>, initial: seq<nat>, idx: seq<nat>, maxDepth: nat,
                 rest: seq<Task>, k: Task)
    requires Stacked(s, start, rows, initial, idx, maxDepth, rest + [k])
    requires Decided(s, t, k.nid) && IsLeaf(t.nodes[k.nid])
    ensures Stacked(t, start, rows, initial, idx, maxDepth, rest)
  {
    var all := rest + [k];
    assert all[|rest|] == k;
    forall i | 0 <= i < |rest| ensures TaskOk(t, start, rows, initial, idx, maxDepth, rest[i]) {
      assert all[i] == rest[i] && TaskOk(s, start, rows, initial, idx, maxDepth, all[i])
        && Disjoint(all[i], all[|rest|]);
      ReachingStays(s, t, k.nid, start, rows, initial, rest[i].nid);
    }
    forall i, j | 0 <= i < j < |rest| ensures Disjoint(rest[i], rest[j]) { assert Disjoint(all[i], all[j]); }
    forall p: nat | t.Has(p) && t.nodes[p].kids.Pending? ensures IsTask(rest, p) {
      assert s.Has(p) && p != k.nid && IsTask(all, p);
      var i :| 0 <= i < |all| && all[i].nid == p;
      assert rest[i].nid == p;
    }
  }

  /** The last task's node has been split: two tasks take its place, first the one of the default branch. */
  lemma SplitTask(s: Trees, t: Trees, start: seq<int>, rows: seq<Row>, initial: seq<nat>, idx: seq<nat>, now: seq<nat>,
                  maxDepth: nat, rest: seq<Task>, k: Task, def: Task, spl: Task)
    requires Stacked(s, start, rows, initial, idx, maxDepth, rest + [k])
    requires Decided(s, t, k.nid) && t.nodes[k.nid].kids.Kids? && k.nid < |s.depth| && s.depth[k.nid] < maxDepth
    requires |now| == |idx| && (forall x :: 0 <= x < |idx| && !(k.lo <= x < k.lo + k.len) ==> now[x] == idx[x])
    requires k.lo + k.len <= |idx| && def.lo == k.lo && spl.lo == k.lo + def.len && def.len + spl.len == k.len
    requires var n := t.nodes[k.nid];
      && def.nid == (if n.defaultLeft then n.kids.left else n.kids.right)
      && spl.nid == (if n.defaultLeft then n.kids.right else n.kids.left)
      && now[def.lo..def.lo + def.len] == Part(n, rows, idx[k.lo..k.lo + k.len], n.defaultLeft)
      && now[spl.lo..spl.lo + spl.len] == Part(n, rows, idx[k.lo..k.lo + k.len], !n.defaultLeft)
    ensures Stacked(t, start, rows, initial, now, maxDepth, rest + [def, spl])
  {
    hide Reaching, Part, NodeOk, Consistent, IsTask;
    var all, next, n := rest + [k], rest + [def, spl], t.nodes[k.nid];
    assert all[|rest|] == k;
    assert TaskOk(s, start, rows, initial, idx, maxDepth, all[|rest|]);
    ChildTasks(s, t, k.nid);
    ReachingChild(s, t, k.nid, start, rows, initial, true);
    ReachingChild(s, t, k.nid, start, rows, initial, false);
    forall i | 0 <= i < |next| ensures TaskOk(t, start, rows, initial, now, maxDepth, next[i]) {
      if i < |rest| {
        assert all[i] == rest[i] && TaskOk(s, start, rows, initial, idx, maxDepth, all[i])
          && Disjoint(all[i], all[|rest|]);
        OtherTask(s, t, start, rows, initial, idx, now, maxDepth, k, rest[i]);
      }
    }
    forall i, j | 0 <= i < j < |next| ensures Disjoint(next[i], next[j]) {
      if i < |rest| {
        assert all[i] == rest[i] && TaskOk(s, start, rows, initial, idx, maxDepth, all[i])
          && Disjoint(all[i], all[|rest|]);
        if j < |rest| { assert Disjoint(all[i], all[j]); }
      }
    }
    PendingAreTasks(s, t, rest, k, def, spl);
  }

  lemma OtherTask(s: Trees, t: Trees, start: seq<int>, rows: seq<Row>, initial: seq<nat>, idx: seq<nat>, now: seq<nat>,
                  maxDepth: nat, k: Task, other: Task)
    requires Decided(s, t, k.nid) && TaskOk(s, start, rows, initial, idx, maxDepth, other) && Disjoint(other, k)
    requires |start| == |rows| && (forall r :: 0 <= r < |start| ==> -1 <= start[r] < s.roots)
    requires |now| == |idx| && (forall x :: 0 <= x < |idx| && !(k.lo <= x < k.lo + k.len) ==> now[x] == idx[x])
    ensures TaskOk(t, start, rows, initial, now, maxDepth, other)
  {
    ReachingStays(s, t, k.nid, start, rows, initial, other.nid);
    assert now[other.lo..other.lo + other.len] == idx[other.lo..other.lo + other.len];
  }

  lemma PendingAreTasks(s: Trees, t: Trees, rest: seq<Task>, k: Task, def: Task, spl: Task)
    requires Decided(s, t, k.nid) && t.nodes[k.nid].kids.Kids?
      && {def.nid, spl.nid} == {t.nodes[k.nid].kids.left, t.nodes[k.nid].kids.right}
    requires forall p: nat :: s.Has(p) && s.nodes[p].kids.Pending? ==> IsTask(rest + [k], p)
    ensures forall p: nat :: t.Has(p) && t.nodes[p].kids.Pending? ==> IsTask(rest + [def, spl], p)
  {
    hide NodeOk, Consistent;
    var all, next := rest + [k], rest + [def, spl];
    forall p: nat | t.Has(p) && t.nodes[p].kids.Pending? ensures IsTask(next, p) {
      if s.Has(p) {
        assert p != k.nid && IsTask(all, p);
        var i :| 0 <= i < |all| && all[i].nid == p;
        assert next[i].nid == p;
      } else {
        assert p in {def.nid, spl.nid};
        assert next[|rest|].nid == p || next[|rest| + 1].nid == p;
      }
    }
  }

  lemma ChildTasks(s: Trees, t: Trees, p: nat)
    requires Decided(s, t, p) && t.nodes[p].kids.Kids?
    ensures var l, r := t.nodes[p].kids.left, t.nodes[p].kids.right;
      l != r && l < |t.depth| && r < |t.depth| && t.depth[l] == t.depth[r] == t.depth[p] + 1 == s.depth[p] + 1
        && t.Open(l) && t.Open(r)
  {
    assert Good(t, p) && Good(t, t.nodes[p].kids.left) && Good(t, t.nodes[p].kids.right);
  }

  // ----- pruning while growing -----

  /** Both children of p have been taken away. */
  ghost predicate Cut(s: Trees, t: Trees, p: nat, value: real) {
    && s.Ok() && t.Ok() && s.Has(p) && s.nodes[p].kids.Kids?
    && s.Has(s.nodes[p].kids.left) && IsLeaf(s.nodes[s.nodes[p].kids.left])
    && s.Has(s.nodes[p].kids.right) && IsLeaf(s.nodes[s.nodes[p].kids.right])
    && t.nodes == WithoutChilds(s.nodes, p, value) && t.roots == s.roots && t.depth == s.depth
    && t.deleted == s.deleted + {s.nodes[p].kids.left, s.nodes[p].kids.right}
  }

  /** A walk that came to one of the children now ends one step earlier. */
  lemma {:induction false} WalkCut(s: Trees, t: Trees, p: nat, value: real, root: int, row: Row, d: nat)
    requires Cut(s, t, p, value) && -1 <= root < s.roots
    ensures var q := WalkPos(s.nodes, root, row, d);
      WalkPos(t.nodes, root, row, d) == if q == s.nodes[p].kids.left || q == s.nodes[p].kids.right then -1 else q
  {
    var l, r := s.nodes[p].kids.left, s.nodes[p].kids.right;
    assert Good(s, p) && Good(s, l) && Good(s, r);
    if d != 0 {
      WalkCut(s, t, p, value, root, row, d - 1);
      WalkLevel(s, root, row, d - 1);
      var q := WalkPos(s.nodes, root, row, d - 1);
      if q != -1 { assert Good(s, q); }
    }
  }

  lemma {:induction false} ReachingCut(s: Trees, t: Trees, p: nat, value: real, start: seq<int>, rows: seq<Row>,
                                       list: seq<nat>, q: nat)
    requires Cut(s, t, p, value) && q != s.nodes[p].kids.left && q != s.nodes[p].kids.right && q < |s.depth|
    requires |start| == |rows| && forall r :: 0 <= r < |start| ==> -1 <= start[r] < s.roots
    ensures Reaching(t.nodes, start, rows, list, q, s.depth[q]) == Reaching(s.nodes, start, rows, list, q, s.depth[q])
  {
    if list != [] {
      var last := list[|list| - 1];
      ReachingCut(s, t, p, value, start, rows, list[..|list| - 1], q);
      if last < |rows| { WalkCut(s, t, p, value, start[last], rows[last], s.depth[q]); }
    }
  }

  /** Pruning does not touch the tasks. */
  lemma CutKeepsTasks(s: Trees, t: Trees, p: nat, value: real, start: seq<int>, rows: seq<Row>, initial: seq<nat>,
                      idx: seq<nat>,
                      maxDepth: nat, tasks: seq<Task>)
    requires Stacked(s, start, rows, initial, idx, maxDepth, tasks) && Cut(s, t, p, value)
    ensures Stacked(t, start, rows, initial, idx, maxDepth, tasks)
  {
    var l, r := s.nodes[p].kids.left, s.nodes[p].kids.right;
    assert Good(s, p) && Good(s, l) && Good(s, r);
    forall i | 0 <= i < |tasks| ensures TaskOk(t, start, rows, initial, idx, maxDepth, tasks[i]) {
      assert TaskOk(s, start, rows, initial, idx, maxDepth, tasks[i]);
      assert Good(s, tasks[i].nid);
      ReachingCut(s, t, p, value, start, rows, initial, tasks[i].nid);
    }
    forall q: nat | t.Has(q) && t.nodes[q].kids.Pending?
      ensures IsTask(tasks, q)
    {
      assert s.Has(q) && s.nodes[q] == t.nodes[q];
    }
  }

  // ----- the counts of leaf children -----

  predicate LeafBut(nodes: seq<Node>, c: nat, hole: int) { c < |nodes| && IsLeaf(nodes[c]) && c != hole }

  /** The split at p has counted its leaf children, except for `hole`; two leaves stand for enough gain. */
  predicate CountOk(nodes: seq<Node>, stats: seq<Stat>, min: real, hole: int, p: nat) {
    p < |nodes| == |stats| && nodes[p].kids.Kids? ==>
      var l, r := nodes[p].kids.left, nodes[p].kids.right;
      && stats[p].leafChildCnt == Count(LeafBut(nodes, l, hole)) + Count(LeafBut(nodes, r, hole))
      && (LeafBut(nodes, l, hole) && LeafBut(nodes, r, hole) ==> stats[p].lossChg >= min)
  }

  ghost predicate Counted(t: Trees, stats: seq<Stat>, min: real, hole: int) {
    t.Ok() && |stats| == |t.nodes| && forall p: nat :: t.Has(p) ==> CountOk(t.nodes, stats, min, hole, p)
  }
}
