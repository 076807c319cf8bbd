/** Which splits RTreeUpdater leaves: growing with pruning at once gives what growing first and pruning then
    would give. */
module SvdfGrowth {
  import opened Forest
  import opened LeafWeights
  import opened LevelWeights
  import opened NodeColumns
  import opened NodeSplits
  import opened ReachingRows
  import opened RowTreeMakers
  import opened SvdfTasks
  import opened SvdfWeights
  import opened TreeGrowth
  import opened TreeModels
  import opened TreeWalk

  /** What has been grown below a node: nothing, or a split and what has been grown below its children. */
  datatype Growth = Nothing | Branch(node: Node, loss: real, left: Growth, right: Growth)

  /** max_depth and min_split_loss */
  datatype Limits = Limits(maxDepth: nat, minSplitLoss: real)

  /** Not too deep, and heavy enough for two children. */
  predicate MayGrow(w: Sample, lim: Limits, list: seq<nat>, depth: nat) {
    depth < lim.maxDepth && SumRow(w.hess, list, |list|) >= 2.0 * w.param.minChildWeight
  }

  /** Growing a node with the rows of a list as far as it goes: it is split at a best cut, unless it may not be or
      no cut pays, and so are its children. */
  ghost predicate Greedy(w: Sample, lim: Limits, list: seq<nat>, depth: nat, parent: real, g: Growth)
    decreases g
  {
    && InRange(w.rows, list)
    && var s := SumsIn(w.grad, w.hess, SumsFor(w, list, parent));
    match g
    case Nothing => !(MayGrow(w, lim, list, depth) && Pays(s, w.param, w.rows, list, w.numFeature))
    case Branch(n, loss, l, r) =>
      && MayGrow(w, lim, list, depth) && BestCut(n, loss, s, w.param, w.rows, list, w.numFeature)
      && Greedy(w, lim, Part(n, w.rows, list, true), depth + 1, WeightOn(w, list, parent), l)
      && Greedy(w, lim, Part(n, w.rows, list, false), depth + 1, WeightOn(w, list, parent), r)
  }

  /** Every split gains too little. */
  predicate TooLittle(g: Growth, min: real) {
    g.Branch? ==> g.loss < min && TooLittle(g.left, min) && TooLittle(g.right, min)
  }

  /** A split is at a best cut of its rows; a leaf stands for what was grown there and gained too little. */
  ghost predicate Settled(w: Sample, lim: Limits, t: Trees, stats: seq<Stat>, p: nat) {
    && p < |t.nodes| && p < |t.depth| && p < |stats|
    && SettledOn(w, lim, t.nodes[p], stats[p].lossChg, RowsAt(w, t, p), t.depth[p], ParentWeight(t.nodes, stats, p))
  }

  ghost predicate SettledOn(w: Sample, lim: Limits, n: Node, loss: real, list: seq<nat>, depth: nat, parent: real) {
    match n.kids
    case Pending => false
    case NoKids => exists g :: Greedy(w, lim, list, depth, parent, g) && TooLittle(g, lim.minSplitLoss)
    case Kids(_, _) =>
      && InRange(w.rows, list) && MayGrow(w, lim, list, depth)
      && BestCut(n, loss, SumsIn(w.grad, w.hess, SumsFor(w, list, parent)), w.param, w.rows, list, w.numFeature)
  }

  /** All nodes that no task will expand, but for roots without rows, which are never looked at. */
  ghost predicate AllSettled(w: Sample, lim: Limits, t: Trees, stats: seq<Stat>, tasks: seq<Task>) {
    forall p: nat :: t.Has(p) && !IsTask(tasks, p) && !Unreached(w, t, p) ==> Settled(w, lim, t, stats, p)
  }

  /** The nodes there are, but for p, have kept the gains of their splits. */
  ghost predicate KeepsGains(s: Trees, stats: seq<Stat>, after: seq<Stat>, p: int) {
    forall i: nat :: s.Has(i) && i != p ==> i < |stats| && i < |after| && after[i].lossChg == stats[i].lossChg
  }

  /** Only the weights and the gains among the statistics matter. */
  lemma SameGainsKeep(w: Sample, lim: Limits, t: Trees, stats: seq<Stat>, after: seq<Stat>, tasks: seq<Task>)
    requires AllSettled(w, lim, t, stats, tasks) && SameWeights(stats, after)
    requires forall i :: 0 <= i < |stats| ==> after[i].lossChg == stats[i].lossChg
    ensures AllSettled(w, lim, t, after, tasks)
  {
    hide RowsAt, IsTask, SettledOn, Unreached;
    forall p: nat | t.Has(p) && !IsTask(tasks, p) && !Unreached(w, t, p) ensures Settled(w, lim, t, after, p) {
      assert Settled(w, lim, t, stats, p);
    }
  }

  lemma SettledStays(w: Sample, lim: Limits, s: Trees, t: Trees, k: nat, stats: seq<Stat>, after: seq<Stat>, x: nat)
    requires Decided(s, t, k) && s.Has(x) && x != k && StartsAtRoots(w, s.roots)
    requires KeepsWeights(s, stats, after, k) && KeepsGains(s, stats, after, k)
    requires Settled(w, lim, s, stats, x)
    ensures Settled(w, lim, t, after, x)
  {
    hide RowsAt, ParentWeight, SettledOn;
    WeightStays(w, s, t, k, stats, after, x);
    assert Good(t, x);
  }

  /** Any other node is as it was. */
  lemma OtherIsSettled(w: Sample, lim: Limits, s: Trees, t: Trees, stats: seq<Stat>, after: seq<Stat>,
                       rest: seq<Task>, k: Task, p: nat)
    requires AllSettled(w, lim, s, stats, rest + [k]) && StartsAtRoots(w, s.roots)
    requires Decided(s, t, k.nid) && KeepsWeights(s, stats, after, k.nid) && KeepsGains(s, stats, after, k.nid)
    requires s.Has(p) && p != k.nid && !IsTask(rest, p) && !Unreached(w, t, p)
    ensures Settled(w, lim, t, after, p)
  {
    hide Settled, IsTask, Unreached, Decided, KeepsWeights, KeepsGains, StartsAtRoots;
    OthersAreTasks(rest, k, p);
    StaysReached(w, s, t, k.nid, p);
    SettledStays(w, lim, s, t, k.nid, stats, after, p);
  }

  /** What a task knows of its node */
  lemma TaskKnows(w: Sample, t: Trees, idx: seq<nat>, maxDepth: nat, stats: seq<Stat>, rest: seq<Task>, k: Task)
    requires Stacked(t, w.start, w.rows, w.taken, idx, maxDepth, rest + [k]) && AllWeighed(w, t, stats, rest + [k])
    ensures k.lo + k.len <= |idx| && t.Has(k.nid) && k.nid < |t.depth|
    ensures RowsAt(w, t, k.nid) == idx[k.lo..k.lo + k.len]
    ensures ParentWeight(t.nodes, stats, k.nid) == k.parentBaseWeight
  {
    var all := rest + [k];
    assert all[|rest|] == k;
    assert TaskOk(t, w.start, w.rows, w.taken, idx, maxDepth, all[|rest|]) && KnowsParent(t, stats, all[|rest|]);
  }

  /** The node of the last task was left as a leaf: it could not be split, or no cut paid. */
  lemma LeafIsSettled(w: Sample, lim: Limits, s: Trees, t: Trees, idx: seq<nat>, maxDepth: nat, stats: seq<Stat>,
                      after: seq<Stat>, rest: seq<Task>, k: Task)
    requires Stacked(s, w.start, w.rows, w.taken, idx, maxDepth, rest + [k]) && AllWeighed(w, s, stats, rest + [k])
    requires AllSettled(w, lim, s, stats, rest + [k])
    requires Decided(s, t, k.nid) && IsLeaf(t.nodes[k.nid]) && |after| == |t.nodes|
    requires KeepsWeights(s, stats, after, k.nid) && KeepsGains(s, stats, after, k.nid)
    requires k.nid < |s.depth| && k.lo + k.len <= |idx|
    requires Greedy(w, lim, idx[k.lo..k.lo + k.len], s.depth[k.nid], k.parentBaseWeight, Nothing)
    ensures AllSettled(w, lim, t, after, rest)
  {
    StackedRoots(w, s, idx, maxDepth, rest + [k]);
    DecidedIs(s, t, k.nid);
    TaskKnows(w, s, idx, maxDepth, stats, rest, k);
    WeightStays(w, s, t, k.nid, stats, after, k.nid);
    LeafStands(w, lim, t, after, k.nid, Nothing, s.depth[k.nid]);
    hide Decided, Settled, WeightOf, IsTask, Unreached, Stacked, StartsAtRoots, NodeOk, Consistent, KeepsWeights,
      KeepsGains, Greedy;
    forall p: nat | t.Has(p) && !IsTask(rest, p) && !Unreached(w, t, p) ensures Settled(w, lim, t, after, p) {
      if p != k.nid { OtherIsSettled(w, lim, s, t, stats, after, rest, k, p); }
    }
  }

  lemma LeafStands(w: Sample, lim: Limits, t: Trees, stats: seq<Stat>, p: nat, g: Growth, depth: nat)
    requires t.Ok() && t.Has(p) && IsLeaf(t.nodes[p]) && |stats| == |t.nodes| && depth == t.depth[p]
    requires Greedy(w, lim, RowsAt(w, t, p), depth, ParentWeight(t.nodes, stats, p), g)
    requires TooLittle(g, lim.minSplitLoss)
    ensures Settled(w, lim, t, stats, p)
  {
    hide Greedy, RowsAt, ParentWeight;
    assert Good(t, p);
  }

  /** The node of the last task was split at a best cut. */
  lemma SplitIsSettled(w: Sample, lim: Limits, s: Trees, t: Trees, idx: seq<nat>, maxDepth: nat, stats: seq<Stat>,
                       after: seq<Stat>, rest: seq<Task>, k: Task, a: Task, b: Task)
    requires Stacked(s, w.start, w.rows, w.taken, idx, maxDepth, rest + [k]) && AllWeighed(w, s, stats, rest + [k])
    requires AllSettled(w, lim, s, stats, rest + [k])
    requires Decided(s, t, k.nid) && t.nodes[k.nid].kids.Kids? && |after| == |t.nodes|
    requires {a.nid, b.nid} == {t.nodes[k.nid].kids.left, t.nodes[k.nid].kids.right}
    requires KeepsWeights(s, stats, after, k.nid) && KeepsGains(s, stats, after, k.nid)
    requires k.nid < |s.depth| && k.lo + k.len <= |idx|
    requires SettledOn(w, lim, t.nodes[k.nid], after[k.nid].lossChg, idx[k.lo..k.lo + k.len], s.depth[k.nid],
      k.parentBaseWeight)
    ensures AllSettled(w, lim, t, after, rest + [a] + [b])
  {
    hide SettledOn, RowsAt, IsTask;
    StackedRoots(w, s, idx, maxDepth, rest + [k]);
    DecidedIs(s, t, k.nid);
    TaskKnows(w, s, idx, maxDepth, stats, rest, k);
    WeightStays(w, s, t, k.nid, stats, after, k.nid);
    assert Good(t, k.nid) && t.depth[k.nid] == s.depth[k.nid];
    assert Settled(w, lim, t, after, k.nid);
    hide Decided, Settled, Unreached, Stacked, StartsAtRoots, NodeOk, Consistent, KeepsWeights, KeepsGains;
    var next := rest + [a] + [b];
    forall p: nat | t.Has(p) && !IsTask(next, p) && !Unreached(w, t, p) ensures Settled(w, lim, t, after, p) {
      OthersAreTasks(rest + [a], b, p);
      OthersAreTasks(rest, a, p);
      assert p != t.nodes[k.nid].kids.left && p != t.nodes[k.nid].kids.right by { assert p !in {a.nid, b.nid}; }
      if p != k.nid { OtherIsSettled(w, lim, s, t, stats, after, rest, k, p); }
    }
  }

  // ----- pruning -----

  /** A walk comes to a child by one step from its parent. */
  lemma ChildStep(t: Trees, p: nat, root: int, row: Row, d: nat, left: bool)
    requires t.Ok() && t.Has(p) && t.nodes[p].kids.Kids? && -1 <= root < t.roots
    ensures var c := if left then t.nodes[p].kids.left else t.nodes[p].kids.right;
      WalkPos(t.nodes, root, row, d + 1) == c <==>
        WalkPos(t.nodes, root, row, d) == p && GoesLeft(t.nodes[p], row) == left
  {
    hide GoesLeft;
    WalkLevel(t, root, row, d);
    var q := WalkPos(t.nodes, root, row, d);
    assert Good(t, p) && Good(t, t.nodes[p].kids.left) && Good(t, t.nodes[p].kids.right);
    if q >= 0 { assert Good(t, q); }
  }

  /** The rows at a child are the part of the rows at its parent. */
  lemma {:induction false} ChildRows(t: Trees, p: nat, start: seq<int>, rows: seq<Row>, list: seq<nat>, d: nat,
                                     left: bool)
    requires t.Ok() && t.Has(p) && t.nodes[p].kids.Kids?
    requires |start| == |rows| && forall r :: 0 <= r < |start| ==> -1 <= start[r] < t.roots
    ensures var c := if left then t.nodes[p].kids.left else t.nodes[p].kids.right;
      Reaching(t.nodes, start, rows, list, c, d + 1)
        == Part(t.nodes[p], rows, Reaching(t.nodes, start, rows, list, p, d), left)
  {
    hide GoesLeft, Consistent;
    if list != [] {
      var n := |list| - 1;
      var last, front := list[n], Reaching(t.nodes, start, rows, list[..n], p, d);
      ChildRows(t, p, start, rows, list[..n], d, left);
      if last < |rows| {
        ChildStep(t, p, start[last], rows[last], d, left);
        assert (front + [last])[..|front|] == front;
      }
    }
  }

  /** What a leaf that is a child of p stands for: something grown from its part of the rows at p. */
  lemma LeafChild(w: Sample, lim: Limits, t: Trees, stats: seq<Stat>, p: nat, left: bool) returns (g: Growth)
    requires t.Ok() && t.Has(p) && t.nodes[p].kids.Kids? && p < |stats| && StartsAtRoots(w, t.roots)
    requires var c := if left then t.nodes[p].kids.left else t.nodes[p].kids.right;
      Settled(w, lim, t, stats, c) && IsLeaf(t.nodes[c])
    ensures p < |t.depth| && TooLittle(g, lim.minSplitLoss)
    ensures Greedy(w, lim, Part(t.nodes[p], w.rows, RowsAt(w, t, p), left), t.depth[p] + 1, stats[p].baseWeight, g)
  {
    hide Greedy, Reaching;
    var c := if left then t.nodes[p].kids.left else t.nodes[p].kids.right;
    assert Good(t, p) && Good(t, c);
    ChildRows(t, p, w.start, w.rows, w.taken, t.depth[p], left);
    g :| Greedy(w, lim, RowsAt(w, t, c), t.depth[c], ParentWeight(t.nodes, stats, c), g)
      && TooLittle(g, lim.minSplitLoss);
  }

  /** A split between two leaves that gains too little becomes a leaf that stands for both and for the split. */
  lemma CutStands(w: Sample, lim: Limits, s: Trees, stats: seq<Stat>, p: nat) returns (g: Growth)
    requires s.Ok() && s.Has(p) && s.nodes[p].kids.Kids? && StartsAtRoots(w, s.roots)
    requires Settled(w, lim, s, stats, p) && Weighed(w, s, stats, p) && stats[p].lossChg < lim.minSplitLoss
    requires Settled(w, lim, s, stats, s.nodes[p].kids.left) && IsLeaf(s.nodes[s.nodes[p].kids.left])
    requires Settled(w, lim, s, stats, s.nodes[p].kids.right) && IsLeaf(s.nodes[s.nodes[p].kids.right])
    ensures Greedy(w, lim, RowsAt(w, s, p), s.depth[p], ParentWeight(s.nodes, stats, p), g)
    ensures TooLittle(g, lim.minSplitLoss)
  {
    var l := LeafChild(w, lim, s, stats, p, true);
    var r := LeafChild(w, lim, s, stats, p, false);
    g := Branch(s.nodes[p], stats[p].lossChg, l, r);
    hide RowsAt, BestCut, Part, SumsFor, SumsIn;
  }

  /** Pruning leaves only leaves and splits of this kind. */
  lemma CutIsSettled(w: Sample, lim: Limits, s: Trees, t: Trees, p: nat, value: real, idx: seq<nat>, maxDepth: nat,
                     stats: seq<Stat>, tasks: seq<Task>)
    requires Stacked(s, w.start, w.rows, w.taken, idx, maxDepth, tasks) && AllWeighed(w, s, stats, tasks)
    requires AllSettled(w, lim, s, stats, tasks) && Cut(s, t, p, value) && |stats| == |s.nodes|
    requires stats[p].lossChg < lim.minSplitLoss
    ensures AllSettled(w, lim, t, stats, tasks)
  {
    hide IsTask, RowsAt, Greedy, SettledOn, Weighed;
    forall x: nat | t.Has(x) && !IsTask(tasks, x) && !Unreached(w, t, x) ensures Settled(w, lim, t, stats, x) {
      CutRows(w, s, t, p, value, idx, maxDepth, tasks, x);
      assert t.nodes[x].link == s.nodes[x].link;
      assert Settled(w, lim, s, stats, x);
      if x == p {
        CutLeaves(w, lim, s, p, idx, maxDepth, stats, tasks);
        var g := CutStands(w, lim, s, stats, p);
        LeafStands(w, lim, t, stats, p, g, s.depth[p]);
      }
    }
  }

  /** The two leaves that are taken away are no tasks and no roots. */
  lemma CutLeaves(w: Sample, lim: Limits, s: Trees, p: nat, idx: seq<nat>, maxDepth: nat, stats: seq<Stat>,
                  tasks: seq<Task>)
    requires Stacked(s, w.start, w.rows, w.taken, idx, maxDepth, tasks) && AllSettled(w, lim, s, stats, tasks)
    requires s.Has(p) && s.nodes[p].kids.Kids?
    requires s.Has(s.nodes[p].kids.left) && IsLeaf(s.nodes[s.nodes[p].kids.left])
    requires s.Has(s.nodes[p].kids.right) && IsLeaf(s.nodes[s.nodes[p].kids.right])
    ensures Settled(w, lim, s, stats, s.nodes[p].kids.left) && Settled(w, lim, s, stats, s.nodes[p].kids.right)
    ensures StartsAtRoots(w, s.roots)
  {
    hide Settled, RowsAt;
    var l, r := s.nodes[p].kids.left, s.nodes[p].kids.right;
    assert Good(s, p) && Good(s, l) && Good(s, r);
    forall i | 0 <= i < |tasks| ensures tasks[i].nid != l && tasks[i].nid != r {
      TaskIn(s, w.start, w.rows, w.taken, idx, maxDepth, tasks, i);
      TaskNotCut(s, p, tasks[i].nid);
    }
  }

  /** In the beginning nothing has been looked at. */
  lemma NothingSettled(w: Sample, lim: Limits, t: Trees, stats: seq<Stat>, tasks: seq<Task>)
    requires forall p: nat :: t.Has(p) && !IsTask(tasks, p) ==> Unreached(w, t, p)
    ensures AllSettled(w, lim, t, stats, tasks)
  {
    hide Settled, Unreached, IsTask;
  }

  lemma AllSettledNow(w: Sample, lim: Limits, t: Trees, stats: seq<Stat>, tasks: seq<Task>)
    requires AllSettled(w, lim, t, stats, tasks) && tasks == []
    ensures forall p: nat :: t.Has(p) && !Unreached(w, t, p) ==> Settled(w, lim, t, stats, p)
  {
    hide Unreached, Settled;
    forall p: nat | t.Has(p) && !Unreached(w, t, p) ensures Settled(w, lim, t, stats, p) { assert !IsTask(tasks, p); }
  }

  /** Of a node only the split matters. */
  lemma SameCut(w: Sample, lim: Limits, m: Node, n: Node, loss: real, list: seq<nat>, depth: nat, parent: real)
    requires m.kids.Kids? && n.kids.Kids?
    requires m.feature == n.feature && m.defaultLeft == n.defaultLeft && m.info == n.info
    requires SettledOn(w, lim, m, loss, list, depth, parent)
    ensures SettledOn(w, lim, n, loss, list, depth, parent)
  {
  }
}
