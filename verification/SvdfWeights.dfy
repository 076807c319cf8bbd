/** The weights in the trees of RTreeUpdater, while they grow and are pruned. */
module SvdfWeights {
  import opened Forest
  import opened LeafWeights
  import opened ReachingRows
  import opened SvdfTasks
  import opened TreeGrowth
  import opened TreeModels
  import opened TreeWalk

  /** A root that no row reaches is never expanded, and keeps the value it started with. */
  predicate Unreached(w: Sample, t: Trees, p: nat) { p < t.roots && RowsAt(w, t, p) == [] }

  predicate KnowsParent(t: Trees, stats: seq<Stat>, k: Task) {
    k.parentBaseWeight == ParentWeight(t.nodes, stats, k.nid)
  }

  /** All nodes that no task will expand hold their weights, and every task knows the one of its parent. */
  ghost predicate AllWeighed(w: Sample, t: Trees, stats: seq<Stat>, tasks: seq<Task>) {
    && (forall p: nat :: t.Has(p) && !IsTask(tasks, p) && !Unreached(w, t, p) ==> Weighed(w, t, stats, p))
    && (forall i :: 0 <= i < |tasks| ==> KnowsParent(t, stats, tasks[i]))
  }

  /** Only the weights among the statistics matter. */
  predicate SameWeights(stats: seq<Stat>, after: seq<Stat>) {
    |after| == |stats| && forall i :: 0 <= i < |stats| ==> after[i].baseWeight == stats[i].baseWeight
  }

  lemma SameWeightsKeep(w: Sample, t: Trees, stats: seq<Stat>, after: seq<Stat>, tasks: seq<Task>)
    requires AllWeighed(w, t, stats, tasks) && SameWeights(stats, after)
    ensures AllWeighed(w, t, after, tasks)
  {
    hide RowsAt, WeightOn, IsTask;
    forall p: nat | t.Has(p) && !IsTask(tasks, p) && !Unreached(w, t, p) ensures Weighed(w, t, after, p) {
      assert Weighed(w, t, stats, p);
    }
    forall i | 0 <= i < |tasks| ensures KnowsParent(t, after, tasks[i]) { assert KnowsParent(t, stats, tasks[i]); }
  }

  /** The last task without its place on the stack */
  lemma OthersAreTasks(rest: seq<Task>, k: Task, p: nat)
    ensures IsTask(rest + [k], p) <==> IsTask(rest, p) || p == k.nid
  {
    var all := rest + [k];
    if IsTask(rest, p) {
      var i :| 0 <= i < |rest| && rest[i].nid == p;
      assert all[i].nid == p;
    }
    if p == k.nid { assert all[|rest|].nid == p; }
    if IsTask(all, p) && p != k.nid {
      var i :| 0 <= i < |all| && all[i].nid == p;
      assert rest[i].nid == p;
    }
  }

  lemma StaysReached(w: Sample, s: Trees, t: Trees, p: nat, x: nat)
    requires Decided(s, t, p) && s.Has(x) && StartsAtRoots(w, s.roots)
    ensures Unreached(w, t, x) <==> Unreached(w, s, x)
  {
    assert Good(s, x) && Good(t, x);
    ReachingStays(s, t, p, w.start, w.rows, w.taken, x);
  }

  /** The task below the top still knows the weight of its parent. */
  lemma StillKnows(w: Sample, s: Trees, t: Trees, p: nat, stats: seq<Stat>, after: seq<Stat>, k: Task)
    requires Decided(s, t, p) && s.Has(k.nid) && KeepsWeights(s, stats, after, p)
    requires KnowsParent(s, stats, k)
    ensures KnowsParent(t, after, k)
  {
    assert Good(s, k.nid);
    assert t.nodes[k.nid].link == s.nodes[k.nid].link;
  }

  lemma TaskIn(t: Trees, start: seq<int>, rows: seq<Row>, initial: seq<nat>, idx: seq<nat>, maxDepth: nat,
               tasks: seq<Task>, i: nat)
    requires Stacked(t, start, rows, initial, idx, maxDepth, tasks) && i < |tasks|
    ensures t.Open(tasks[i].nid) && (t.nodes[tasks[i].nid].kids.Pending? || tasks[i].nid < t.roots)
  {
    assert TaskOk(t, start, rows, initial, idx, maxDepth, tasks[i]);
  }

  /** Any other node is as it was. */
  lemma OtherIsWeighed(w: Sample, s: Trees, t: Trees, stats: seq<Stat>, after: seq<Stat>, rest: seq<Task>, k: Task,
                       p: nat)
    requires AllWeighed(w, s, stats, rest + [k]) && StartsAtRoots(w, s.roots)
    requires Decided(s, t, k.nid) && KeepsWeights(s, stats, after, k.nid)
    requires s.Has(p) && p != k.nid && !IsTask(rest, p) && !Unreached(w, t, p)
    ensures Weighed(w, t, after, p)
  {
    hide Weighed, IsTask, Unreached, Decided, KeepsWeights, StartsAtRoots;
    OthersAreTasks(rest, k, p);
    StaysReached(w, s, t, k.nid, p);
    StaysWeighed(w, s, t, k.nid, stats, after, p);
  }

  lemma TasksKnow(w: Sample, s: Trees, t: Trees, idx: seq<nat>, maxDepth: nat, stats: seq<Stat>, after: seq<Stat>,
                  rest: seq<Task>, k: Task)
    requires Stacked(s, w.start, w.rows, w.taken, idx, maxDepth, rest + [k]) && AllWeighed(w, s, stats, rest + [k])
    requires Decided(s, t, k.nid) && KeepsWeights(s, stats, after, k.nid)
    ensures forall i :: 0 <= i < |rest| ==> KnowsParent(t, after, rest[i])
  {
    hide Weighed, IsTask, Unreached, Stacked, KnowsParent, Decided, KeepsWeights;
    var all := rest + [k];
    forall i | 0 <= i < |rest| ensures KnowsParent(t, after, rest[i]) {
      assert all[i] == rest[i];
      TaskIn(s, w.start, w.rows, w.taken, idx, maxDepth, all, i);
      StillKnows(w, s, t, k.nid, stats, after, rest[i]);
    }
  }

  lemma DecidedIs(s: Trees, t: Trees, p: nat)
    requires Decided(s, t, p)
    ensures t.Ok() && s.Has(p) && t.Has(p)
    ensures forall i :: t.Has(i) <==>
      s.Has(i) || (t.nodes[p].kids.Kids? && (i == t.nodes[p].kids.left || i == t.nodes[p].kids.right))
  {
  }

  lemma StackedRoots(w: Sample, t: Trees, idx: seq<nat>, maxDepth: nat, tasks: seq<Task>)
    requires Stacked(t, w.start, w.rows, w.taken, idx, maxDepth, tasks)
    ensures StartsAtRoots(w, t.roots)
  {
  }

  /** The node of the last task became a leaf that holds its weight. */
  lemma LeafIsWeighed(w: Sample, s: Trees, t: Trees, idx: seq<nat>, maxDepth: nat, stats: seq<Stat>, after: seq<Stat>,
                      rest: seq<Task>, k: Task)
    requires Stacked(s, w.start, w.rows, w.taken, idx, maxDepth, rest + [k]) && AllWeighed(w, s, stats, rest + [k])
    requires Decided(s, t, k.nid) && IsLeaf(t.nodes[k.nid]) && |after| == |t.nodes|
    requires KeepsWeights(s, stats, after, k.nid) && t.nodes[k.nid].info == w.rate * WeightOf(w, s, stats, k.nid)
    ensures AllWeighed(w, t, after, rest)
  {
    StackedRoots(w, s, idx, maxDepth, rest + [k]);
    DecidedIs(s, t, k.nid);
    hide Decided, Weighed, WeightOf, IsTask, Unreached, Stacked, StartsAtRoots, KnowsParent, NodeOk, Consistent,
      KeepsWeights;
    TasksKnow(w, s, t, idx, maxDepth, stats, after, rest, k);
    WeightStays(w, s, t, k.nid, stats, after, k.nid);
    LeafHolds(w, t, after, k.nid);
    forall p: nat | t.Has(p) && !IsTask(rest, p) && !Unreached(w, t, p) ensures Weighed(w, t, after, p) {
      if p != k.nid { OtherIsWeighed(w, s, t, stats, after, rest, k, p); }
    }
  }

  lemma LeafHolds(w: Sample, t: Trees, stats: seq<Stat>, p: nat)
    requires p < |t.nodes| == |stats| && IsLeaf(t.nodes[p]) && t.nodes[p].info == w.rate * WeightOf(w, t, stats, p)
    ensures Weighed(w, t, stats, p)
  {
  }

  lemma SplitStores(w: Sample, t: Trees, stats: seq<Stat>, p: nat)
    requires p < |t.nodes| == |stats| && t.nodes[p].kids.Kids? && stats[p].baseWeight == WeightOf(w, t, stats, p)
    ensures Weighed(w, t, stats, p)
  {
  }

  /** The node of the last task was split, and stored its weight; its children's tasks know it. */
  lemma SplitIsWeighed(w: Sample, s: Trees, t: Trees, idx: seq<nat>, maxDepth: nat, stats: seq<Stat>, after: seq<Stat>,
                       rest: seq<Task>, k: Task, a: Task, b: Task)
    requires Stacked(s, w.start, w.rows, w.taken, idx, maxDepth, rest + [k]) && AllWeighed(w, s, stats, rest + [k])
    requires Decided(s, t, k.nid) && t.nodes[k.nid].kids.Kids? && |after| == |t.nodes|
    requires {a.nid, b.nid} == {t.nodes[k.nid].kids.left, t.nodes[k.nid].kids.right}
    requires KeepsWeights(s, stats, after, k.nid) && after[k.nid].baseWeight == WeightOf(w, s, stats, k.nid)
    requires a.parentBaseWeight == b.parentBaseWeight == after[k.nid].baseWeight
    ensures AllWeighed(w, t, after, rest + [a] + [b])
  {
    StackedRoots(w, s, idx, maxDepth, rest + [k]);
    DecidedIs(s, t, k.nid);
    hide Decided, Weighed, WeightOf, IsTask, Unreached, Stacked, StartsAtRoots, NodeOk, Consistent, KeepsWeights;
    var next := rest + [a] + [b];
    TasksKnow(w, s, t, idx, maxDepth, stats, after, rest, k);
    WeightStays(w, s, t, k.nid, stats, after, k.nid);
    SplitStores(w, t, after, k.nid);
    forall p: nat | t.Has(p) && !IsTask(next, p) && !Unreached(w, t, p) ensures Weighed(w, t, after, p) {
      OthersAreTasks(rest + [a], b, p);
      OthersAreTasks(rest, a, p);
      assert p != t.nodes[k.nid].kids.left && p != t.nodes[k.nid].kids.right by { assert p !in {a.nid, b.nid}; }
      if p != k.nid { OtherIsWeighed(w, s, t, stats, after, rest, k, p); }
    }
    forall i | 0 <= i < |next| ensures KnowsParent(t, after, next[i]) {
      if i < |rest| {
        assert next[i] == rest[i];
      } else {
        assert next[i].nid in {a.nid, b.nid};
        ChildKnows(t, k.nid, after, next[i]);
      }
    }
  }

  lemma ChildKnows(t: Trees, p: nat, stats: seq<Stat>, k: Task)
    requires t.Ok() && t.Has(p) && t.nodes[p].kids.Kids? && |stats| == |t.nodes|
    requires k.nid == t.nodes[p].kids.left || k.nid == t.nodes[p].kids.right
    requires k.parentBaseWeight == stats[p].baseWeight
    ensures KnowsParent(t, stats, k)
  {
    assert Good(t, p);
  }

  /** What CalcWeight gives for the rows a task holds is the weight of its node. */
  lemma TaskWeight(w: Sample, t: Trees, idx: seq<nat>, maxDepth: nat, stats: seq<Stat>, rest: seq<Task>, k: Task)
    requires Stacked(t, w.start, w.rows, w.taken, idx, maxDepth, rest + [k]) && AllWeighed(w, t, stats, rest + [k])
    ensures k.lo + k.len <= |idx| && t.Has(k.nid)
    ensures WeightOf(w, t, stats, k.nid) == WeightOn(w, idx[k.lo..k.lo + k.len], k.parentBaseWeight)
  {
    var all := rest + [k];
    assert all[|rest|] == k;
    assert TaskOk(t, w.start, w.rows, w.taken, idx, maxDepth, all[|rest|]) && KnowsParent(t, stats, all[|rest|]);
  }

  lemma AllFinished(w: Sample, t: Trees, stats: seq<Stat>, tasks: seq<Task>)
    requires AllWeighed(w, t, stats, tasks) && tasks == []
    ensures forall p: nat :: t.Has(p) && !Unreached(w, t, p) ==> Weighed(w, t, stats, p)
  {
    hide Unreached, Weighed;
    forall p: nat | t.Has(p) && !Unreached(w, t, p) ensures Weighed(w, t, stats, p) { assert !IsTask(tasks, p); }
  }

  /** A node whose children are taken away has stored its weight, and now holds it as a leaf. */
  lemma CutIsWeighed(w: Sample, s: Trees, t: Trees, p: nat, value: real, idx: seq<nat>, maxDepth: nat,
                     stats: seq<Stat>, tasks: seq<Task>)
    requires Stacked(s, w.start, w.rows, w.taken, idx, maxDepth, tasks) && AllWeighed(w, s, stats, tasks)
    requires Cut(s, t, p, value) && |stats| == |s.nodes| && value == w.rate * stats[p].baseWeight
    ensures AllWeighed(w, t, stats, tasks)
  {
    hide Stacked, IsTask, WeightOn, RowsAt;
    forall x: nat | t.Has(x) && !IsTask(tasks, x) && !Unreached(w, t, x) ensures Weighed(w, t, stats, x) {
      CutRows(w, s, t, p, value, idx, maxDepth, tasks, x);
      assert t.nodes[x].link == s.nodes[x].link;
      assert Weighed(w, s, stats, x);
    }
    forall i | 0 <= i < |tasks| ensures KnowsParent(t, stats, tasks[i]) {
      TaskIn(s, w.start, w.rows, w.taken, idx, maxDepth, tasks, i);
      TaskNotCut(s, p, tasks[i].nid);
      assert KnowsParent(s, stats, tasks[i]);
    }
  }

  /** The leaves that are taken away are neither open nor roots. */
  lemma TaskNotCut(s: Trees, p: nat, nid: nat)
    requires s.Ok() && s.Has(p) && s.nodes[p].kids.Kids? && s.Open(nid) && (s.nodes[nid].kids.Pending? || nid < s.roots)
    requires s.Has(s.nodes[p].kids.left) && IsLeaf(s.nodes[s.nodes[p].kids.left])
    requires s.Has(s.nodes[p].kids.right) && IsLeaf(s.nodes[s.nodes[p].kids.right])
    ensures nid != s.nodes[p].kids.left && nid != s.nodes[p].kids.right
  {
    assert Good(s, p) && Good(s, nid);
  }

  lemma CutRows(w: Sample, s: Trees, t: Trees, p: nat, value: real, idx: seq<nat>, maxDepth: nat, tasks: seq<Task>,
                x: nat)
    requires Stacked(s, w.start, w.rows, w.taken, idx, maxDepth, tasks) && Cut(s, t, p, value) && t.Has(x)
    ensures s.Has(x) && x != s.nodes[p].kids.left && x != s.nodes[p].kids.right
    ensures RowsAt(w, t, x) == RowsAt(w, s, x) && (Unreached(w, t, x) <==> Unreached(w, s, x))
  {
    assert Good(s, x);
    ReachingCut(s, t, p, value, w.start, w.rows, w.taken, x);
  }

  /** Tasks at roots, one for every root that is reached. */
  lemma RootsWeighed(w: Sample, t: Trees, stats: seq<Stat>, tasks: seq<Task>)
    requires t.Ok() && t.roots == |t.nodes| && t.deleted == {}
    requires forall i :: 0 <= i < |tasks| ==> tasks[i].nid < t.roots && tasks[i].parentBaseWeight == 0.0
    requires forall p: nat :: p < t.roots && !IsTask(tasks, p) ==> RowsAt(w, t, p) == []
    ensures AllWeighed(w, t, stats, tasks)
    ensures forall p: nat :: t.Has(p) && !IsTask(tasks, p) ==> Unreached(w, t, p)
  {
    hide RowsAt, Weighed, IsTask;
    forall i | 0 <= i < |tasks| ensures KnowsParent(t, stats, tasks[i]) { assert Good(t, tasks[i].nid); }
  }

  lemma FirstWeighed(w: Sample, t: Trees, stats: seq<Stat>, k: Task)
    requires t.Ok() && 1 <= t.roots == |t.nodes| && t.deleted == {} && k.nid == 0 && k.parentBaseWeight == 0.0
    requires forall r :: 0 <= r < |w.start| ==> w.start[r] == 0
    ensures AllWeighed(w, t, stats, [k])
    ensures forall p: nat :: t.Has(p) && !IsTask([k], p) ==> Unreached(w, t, p)
  {
    forall p: nat | p < t.roots && !IsTask([k], p) ensures RowsAt(w, t, p) == [] {
      assert Good(t, p) && [k][0].nid == 0;
      NoneThere(t.nodes, w.start, w.rows, w.taken, p);
    }
    RootsWeighed(w, t, stats, [k]);
  }

  /** No row is at a root that is not its own. */
  lemma {:induction false} NoneThere(nodes: seq<Node>, start: seq<int>, rows: seq<Row>, s: seq<nat>, p: nat)
    requires forall k :: 0 <= k < |s| && s[k] < |start| ==> start[s[k]] != p
    ensures Reaching(nodes, start, rows, s, p, 0) == []
  {
    if s != [] { NoneThere(nodes, start, rows, s[..|s| - 1], p); }
  }
}
