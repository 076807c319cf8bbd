/** RTreeUpdater of xgboost_svdf_tree.hpp: trees grown depth first with a stack of tasks. */
module SvdfTrees {
  import opened Csr
  import opened FMatrix
  import opened Forest
  import opened LeafWeights
  import opened NodeColumns
  import opened NodeSplits
  import opened Sorting
  import opened SplitCuts
  import opened SvdfGrowth
  import opened SvdfSplits
  import opened SvdfTasks
  import opened SvdfWeights
  import opened TreeGrowth
  import opened TreeModels
  import opened TreeWalk
  import opened ReachingRows
  import opened RowTreeMakers

  /** The row indices of entries. */
  function RowsOf(col: seq<Entry>): (q: seq<nat>)
    ensures |q| == |col| && forall i :: 0 <= i < |q| ==> q[i] == col[i].feature
  {
    seq(|col|, i requires 0 <= i < |col| => col[i].feature)
  }

  /** The split of a node takes the rows of s named by q off the default branch. */
  predicate Takes(n: Node, rows: seq<Row>, s: seq<nat>, q: seq<nat>) {
    forall x :: x in s ==> x < |rows| && (x in q <==> GoesLeft(n, rows[x]) != n.defaultLeft)
  }

  lemma ElementIn(q: seq<nat>, i: int)
    ensures 0 <= i < |q| ==> q[i] in q
  {
  }

  /** The rows of the chosen interval are those that GetNext sends to the child that is not the default. */
  lemma IntervalTakes(c: Candidate, entry: seq<Entry>, lo: nat, hi: nat, rows: seq<Row>, s: seq<nat>, n: Node)
    requires GoodSplit(c, entry, lo, hi) && IsColumn(rows, s, c.feature, entry[lo..hi]) && InRange(rows, s)
    requires n.feature == c.feature && n.info == c.splitValue && n.defaultLeft == c.defaultLeft
    ensures var q := RowsOf(entry[c.start..c.start + c.len]);
      Takes(n, rows, s, q) && AllDifferent(q) && AllIn(q, s)
  {
    var col := entry[lo..hi];
    var q := RowsOf(entry[c.start..c.start + c.len]);
    IntervalRows(c, entry, lo, hi);
    forall x | x in s ensures x < |rows| && (x in q <==> GoesLeft(n, rows[x]) != n.defaultLeft) {
      InInterval(c, entry, lo, hi, rows, s, n, x);
    }
    forall k | 0 <= k < |q| ensures q[k] in s { assert col[c.start - lo + k].feature == q[k]; }
    forall i, j | 0 <= i < j < |q| ensures q[i] != q[j] {
      assert col[c.start - lo + i].feature == q[i] && col[c.start - lo + j].feature == q[j];
    }
  }

  lemma IntervalRows(c: Candidate, entry: seq<Entry>, lo: nat, hi: nat)
    requires GoodSplit(c, entry, lo, hi)
    ensures var q, col := RowsOf(entry[c.start..c.start + c.len]), entry[lo..hi];
      |q| == c.len && forall i :: 0 <= i < |q| ==>
        q[i] == col[c.start - lo + i].feature && col[c.start - lo + i] == entry[c.start + i]
  {
    var part, col := entry[c.start..c.start + c.len], entry[lo..hi];
    assert forall i :: 0 <= i < |part| ==> part[i] == col[c.start - lo + i];
  }

  lemma InInterval(c: Candidate, entry: seq<Entry>, lo: nat, hi: nat, rows: seq<Row>, s: seq<nat>, n: Node, x: nat)
    requires GoodSplit(c, entry, lo, hi) && IsColumn(rows, s, c.feature, entry[lo..hi]) && x in s && x < |rows|
    requires n.feature == c.feature && n.info == c.splitValue && n.defaultLeft == c.defaultLeft
    ensures x in RowsOf(entry[c.start..c.start + c.len]) <==> GoesLeft(n, rows[x]) != n.defaultLeft
  {
    var col := entry[lo..hi];
    var q := RowsOf(entry[c.start..c.start + c.len]);
    IntervalRows(c, entry, lo, hi);
    hide RowsOf;
    if x in q {
      var i :| 0 <= i < |q| && q[i] == x;
      assert col[c.start - lo + i].feature == x;
    } else if Lookup(rows[x], c.feature).Some? {
      var j :| 0 <= j < |col| && col[j].feature == x;
      assert entry[lo + j] == col[j];
      ElementIn(q, lo + j - c.start);
    }
  }

  lemma SortedTakes(n: Node, rows: seq<Row>, s: seq<nat>, q: seq<nat>)
    requires Takes(n, rows, s, q) && AllDifferent(q) && AllIn(q, s)
    ensures Takes(n, rows, s, SortNat(q)) && Increasing(SortNat(q)) && AllIn(SortNat(q), s) && |SortNat(q)| == |q|
  {
    SortNatOk(q);
    var p := SortNat(q);
    forall k | 0 <= k < |p| ensures p[k] in s {
      assert p[k] in q;
      var i :| 0 <= i < |q| && q[i] == p[k];
    }
  }

  // ----- the gain of the chosen cut, over the rows of both children -----

  /** The sum over the rows of a side of a cut is the sum over its entries. */
  lemma {:induction false} SideSum(v: seq<real>, col: seq<Entry>, from: nat, to: nat)
    requires from <= to <= |col|
    ensures SumRow(v, RowsOf(col[from..to]), to - from) == SumOf(v, col, from, to)
  {
    if from < to {
      var q, r := RowsOf(col[from..to]), RowsOf(col[from..to - 1]);
      assert q == r + [col[to - 1].feature];
      SumPrefix(v, r, col[to - 1].feature, to - 1 - from);
      SideSum(v, col, from, to - 1);
    }
  }

  lemma {:induction false} SumRowFront(v: seq<real>, x: nat, s: seq<nat>, n: nat)
    requires n <= |s|
    ensures SumRow(v, [x] + s, n + 1) == (if x < |v| then v[x] else 0.0) + SumRow(v, s, n)
  {
    if n != 0 { SumRowFront(v, x, s, n - 1); }
  }

  lemma {:induction false} InsertSum(v: seq<real>, x: nat, s: seq<nat>)
    ensures SumRow(v, InsertNat(x, s), |s| + 1) == (if x < |v| then v[x] else 0.0) + SumRow(v, s, |s|)
  {
    SumRowFront(v, x, s, |s|);
    if s != [] {
      assert s == [s[0]] + s[1..];
      SumRowFront(v, s[0], s[1..], |s| - 1);
      InsertSum(v, x, s[1..]);
      SumRowFront(v, s[0], InsertNat(x, s[1..]), |s|);
    }
  }

  lemma {:induction false} SortedSum(v: seq<real>, s: seq<nat>)
    ensures SumRow(v, SortNat(s), |s|) == SumRow(v, s, |s|)
  {
    if s != [] {
      assert s == [s[0]] + s[1..];
      SortedSum(v, s[1..]);
      SumRowFront(v, s[0], s[1..], |s| - 1);
      InsertSum(v, s[0], SortNat(s[1..]));
    }
  }

  /** Both parts of the rows make up their sum. */
  lemma {:induction false} PartSums(v: seq<real>, n: Node, rows: seq<Row>, s: seq<nat>)
    requires InRange(rows, s)
    ensures var l, r := Part(n, rows, s, true), Part(n, rows, s, false);
      SumRow(v, s, |s|) == SumRow(v, l, |l|) + SumRow(v, r, |r|)
  {
    hide GoesLeft;
    if s != [] {
      var t, x := s[..|s| - 1], s[|s| - 1];
      assert s == t + [x];
      PartSums(v, n, rows, t);
      SumPrefix(v, t, x, |t|);
      var l, r := Part(n, rows, t, true), Part(n, rows, t, false);
      SumPrefix(v, l, x, |l|);
      SumPrefix(v, r, x, |r|);
    }
  }

  /** The rows that leave the default branch are those of one side of the cut. */
  lemma CutSide(n: Node, rows: seq<Row>, s: seq<nat>, col: seq<Entry>, k: nat, v: seq<real>)
    requires InRange(rows, s) && Increasing(s) && IsColumn(rows, s, n.feature, col) && k <= |col|
    requires if n.defaultLeft then k < |col| else 0 < k
    requires forall j :: 0 <= j < |col| ==> (j < k <==> col[j].value < n.info)
    ensures var off := Part(n, rows, s, !n.defaultLeft);
      SumRow(v, off, |off|) == if n.defaultLeft then SumOf(v, col, k, |col|) else SumOf(v, col, 0, k)
  {
    hide SumOf, SumRow, SortNat, RowsOf, Part, IsColumn, Takes, AllIn, AllDifferent, Increasing;
    var from, to := if n.defaultLeft then k else 0, if n.defaultLeft then |col| else k;
    var c := Candidate(0.0, from, to - from, n.feature, n.info, n.defaultLeft);
    assert col[0..|col|] == col;
    IntervalTakes(c, col, 0, |col|, rows, s, n);
    var q := RowsOf(col[from..to]);
    SortedTakes(n, rows, s, q);
    PartsOf(n, rows, s, SortNat(q));
    SortedSum(v, q);
    SideSum(v, col, from, to);
  }

  /** The gain recorded for a split is what the scores of both children are above the score of the node, and both
      are heavy enough. */
  lemma GainOfChildren(n: Node, loss: real, sums: Sums, param: Param, rows: seq<Row>, s: seq<nat>)
    requires InRange(rows, s) && Increasing(s)
    requires MadeCut(n.feature, n.defaultLeft, n.info, loss, sums, param, rows, s)
    requires forall r :: 0 <= r < |rows| ==> Functional(rows[r])
    requires sums.rsumGrad == SumRow(sums.grad, s, |s|) && sums.rsumHess == SumRow(sums.hess, s, |s|)
    ensures var l, r := Part(n, rows, s, true), Part(n, rows, s, false);
      && loss == param.gain(SumRow(sums.grad, l, |l|), SumRow(sums.hess, l, |l|), sums.weight)
        + param.gain(SumRow(sums.grad, r, |r|), SumRow(sums.hess, r, |r|), sums.weight) - sums.rootGain
      && SumRow(sums.hess, l, |l|) >= param.minChildWeight && SumRow(sums.hess, r, |r|) >= param.minChildWeight
  {
    hide SumOf, SumRow, SortColumn, ColumnRows, Part, IsColumn, Functional, Gap, ReachedUp, ReachedDown;
    var entries := ColumnRows(rows, s, n.feature, |s|);
    var col := SortColumn(entries);
    SortColumnOk(entries);
    DifferentRows(s);
    ArrangedColumn(rows, s, n.feature, col);
    var k: nat :| CutAt(n.defaultLeft, k, loss, sums, param, col)
      && forall j :: 0 <= j < |col| ==> (j < k <==> col[j].value < n.info);
    CutSide(n, rows, s, col, k, sums.grad);
    CutSide(n, rows, s, col, k, sums.hess);
    PartSums(sums.grad, n, rows, s);
    PartSums(sums.hess, n, rows, s);
  }

  /** The weight of a task on the stack: at most this many nodes can still be expanded for it. */
  function Budget(levels: int): nat {
    if levels < 0 then 0 else 1 + 2 * Budget(levels - 1)
  }

  function Remaining(depth: seq<nat>, maxDepth: nat, tasks: seq<Task>): nat {
    if tasks == [] then 0
    else
      var k := tasks[|tasks| - 1];
      Remaining(depth, maxDepth, tasks[..|tasks| - 1]) + if k.nid < |depth| then Budget(maxDepth - depth[k.nid]) else 0
  }

  lemma {:induction false} RemainingSame(depth: seq<nat>, after: seq<nat>, maxDepth: nat, tasks: seq<Task>)
    requires forall i :: 0 <= i < |tasks| ==>
      tasks[i].nid < |depth| && tasks[i].nid < |after| && after[tasks[i].nid] == depth[tasks[i].nid]
    ensures Remaining(after, maxDepth, tasks) == Remaining(depth, maxDepth, tasks)
  {
    if tasks != [] { RemainingSame(depth, after, maxDepth, tasks[..|tasks| - 1]); }
  }

  lemma RemainingPush(depth: seq<nat>, maxDepth: nat, tasks: seq<Task>, k: Task)
    ensures Remaining(depth, maxDepth, tasks + [k])
      == Remaining(depth, maxDepth, tasks) + if k.nid < |depth| then Budget(maxDepth - depth[k.nid]) else 0
  {
    assert (tasks + [k])[..|tasks|] == tasks;
  }

  /** A cut of the sorted column [lo, hi) of its feature, with its gain. */
  ghost predicate Picked(c: Candidate, entry: seq<Entry>, lo: nat, hi: nat, sums: Sums, param: Param, rows: seq<Row>,
                         s: seq<nat>)
    requires InRange(rows, s)
  {
    && GoodSplit(c, entry, lo, hi) && Attained(c, sums, param, entry, lo, hi)
    && entry[lo..hi] == SortColumn(ColumnRows(rows, s, c.feature, |s|)) && IsColumn(rows, s, c.feature, entry[lo..hi])
  }

  /** The sorted columns of all active features, and the best split among them. */
  ghost predicate Chosen(c: Candidate, entry: seq<Entry>, sums: Sums, param: Param, rows: seq<Row>, s: seq<nat>, n: nat,
                         done: nat)
    requires InRange(rows, s)
  {
    c == NoSplit
    || (c.lossChg > 0.0 && c.feature < n
        && exists lo, hi :: 0 <= lo <= hi <= done <= |entry| && Picked(c, entry, lo, hi, sums, param, rows, s))
  }

  lemma PickedStays(c: Candidate, entry: seq<Entry>, after: seq<Entry>, lo: nat, hi: nat, sums: Sums, param: Param,
                    rows: seq<Row>, s: seq<nat>)
    requires InRange(rows, s) && Picked(c, entry, lo, hi, sums, param, rows, s) && hi <= |after|
    requires after[..hi] == entry[..hi]
    ensures Picked(c, after, lo, hi, sums, param, rows, s)
  {
    hide SortColumn, ColumnRows, IsColumn, CutAt;
    assert after[lo..hi] == after[..hi][lo..] && entry[lo..hi] == entry[..hi][lo..];
    assert forall j :: lo <= j < hi ==> after[j] == after[..hi][j] && entry[j] == entry[..hi][j];
  }

  /** Sorting a later column does not touch the chosen interval. */
  lemma ChosenStays(c: Candidate, entry: seq<Entry>, after: seq<Entry>, sums: Sums, param: Param, rows: seq<Row>,
                    s: seq<nat>, n: nat, done: nat, next: nat)
    requires InRange(rows, s) && Chosen(c, entry, sums, param, rows, s, n, done) && done <= next <= |after| == |entry|
    requires forall i :: 0 <= i < done ==> after[i] == entry[i]
    ensures Chosen(c, after, sums, param, rows, s, n, next)
  {
    hide Picked;
    if c != NoSplit {
      var lo, hi :| 0 <= lo <= hi <= done <= |entry| && Picked(c, entry, lo, hi, sums, param, rows, s);
      PickedStays(c, entry, after, lo, hi, sums, param, rows, s);
    }
  }

  class RTreeUpdater {
    const tree: TreeModel
    const rows: seq<Row>
    const grad: seq<real>
    const hess: seq<real>
    const numFeature: nat
    const paramMaxDepth: nat
    const minSplitLoss: real
    const learningRate: real
    const param: Param
    /** CalcWeight: sum of gradients, sum of hessians, weight of the parent */
    const calcWeight: (real, real, real) -> real
    const calcRootGain: (real, real) -> real
    const idset: array<nat>
    var taskStack: seq<Task>
    var maxDepth: nat
    var numPruned: nat
    var tmpRptr: seq<nat>
    ghost const start: seq<int>
    ghost const initial: seq<nat>

    constructor (tree: TreeModel, rows: seq<Row>, grad: seq<real>, hess: seq<real>, numFeature: nat, paramMaxDepth: nat,
                 minSplitLoss: real, learningRate: real, param: Param, calcWeight: (real, real, real) -> real,
                 calcRootGain: (real, real) -> real, sampled: seq<nat>)
      requires Fresh(tree) && DataOk(rows, grad, hess, numFeature, sampled)
      ensures this.tree == tree && this.rows == rows && this.initial == sampled && this.start == seq(|rows|, _ => 0)
      ensures this.paramMaxDepth == paramMaxDepth && this.minSplitLoss == minSplitLoss && fresh(idset)
      ensures Data() == Sample(rows, start, sampled, grad, hess, calcWeight, learningRate, calcRootGain, param,
        numFeature)
      ensures Ready() && taskStack == [Task(0, 0, |sampled|, 0.0)] && numPruned == 0
    {
      this.tree, this.rows, this.grad, this.hess, this.numFeature, this.paramMaxDepth := tree, rows, grad, hess,
        numFeature, paramMaxDepth;
      this.minSplitLoss, this.learningRate, this.param, this.calcWeight := minSplitLoss, learningRate, param,
        calcWeight;
      this.calcRootGain, this.initial, this.start := calcRootGain, sampled, seq(|rows|, _ => 0);
      idset := new nat[|sampled|](i requires 0 <= i < |sampled| => sampled[i]);
      taskStack := [Task(0, 0, |sampled|, 0.0)];
      maxDepth, numPruned := 0, 0;
      tmpRptr := seq(numFeature + 1, _ => 0);
      new;
      assert idset[..] == sampled;
      FirstTask(TreesOf(tree), start, rows, initial, idset[..], paramMaxDepth, taskStack[0]);
      FirstWeighed(Data(), TreesOf(tree), tree.stats, taskStack[0]);
      NothingSettled(Data(), Lim(), TreesOf(tree), tree.stats, taskStack);
      NothingToCount(TreesOf(tree), tree.stats, minSplitLoss);
    }

    /** init_tasks with a root for every row: the rows with a hessian that is not negative, grouped by
        root, and a task for every group that is not empty. */
    constructor Grouped(tree: TreeModel, rows: seq<Row>, grad: seq<real>, hess: seq<real>, numFeature: nat,
                        paramMaxDepth: nat,
                        minSplitLoss: real, learningRate: real, param: Param, calcWeight: (real, real, real) -> real,
                        calcRootGain: (real, real) -> real, groupId: seq<nat>)
      requires Fresh(tree) && DataOk(rows, grad, hess, numFeature, []) && |groupId| == |rows|
      requires forall r :: 0 <= r < |rows| && hess[r] >= 0.0 ==> groupId[r] < tree.numRoots
      ensures this.tree == tree && this.rows == rows && fresh(idset) && Ready() && numPruned == 0
      ensures forall r: nat :: r in initial <==> r < |rows| && hess[r] >= 0.0
      ensures forall r :: 0 <= r < |rows| && hess[r] >= 0.0 ==> start[r] == groupId[r]
      ensures this.paramMaxDepth == paramMaxDepth && this.minSplitLoss == minSplitLoss && this.param == param
      ensures Data() == Sample(rows, start, initial, grad, hess, calcWeight, learningRate, calcRootGain, param,
        numFeature)
    {
      this.tree, this.rows, this.grad, this.hess, this.numFeature, this.paramMaxDepth := tree, rows, grad, hess,
        numFeature, paramMaxDepth;
      this.minSplitLoss, this.learningRate, this.param, this.calcWeight := minSplitLoss, learningRate, param,
        calcWeight;
      this.calcRootGain := calcRootGain;
      var valid := ValidRows(hess);
      var roots := seq(|rows|, r requires 0 <= r < |rows| => if hess[r] >= 0.0 then groupId[r] else 0);
      ghost var froms: seq<int> := roots;
      var rptr, idx := GroupByRoot(tree, rows, valid, roots, froms);
      this.initial, this.start := valid, froms;
      idset := new nat[|idx|](i requires 0 <= i < |idx| => idx[i]);
      var tasks := TasksOf(rptr);
      taskStack := tasks;
      maxDepth, numPruned := 0, 0;
      tmpRptr := seq(numFeature + 1, _ => 0);
      new;
      assert idset[..] == idx;
      RootTasks(TreesOf(tree), start, rows, initial, idset[..], paramMaxDepth, taskStack);
      GroupsWeighed(Data(), TreesOf(tree), tree.stats, rptr, idx, taskStack);
      NothingSettled(Data(), Lim(), TreesOf(tree), tree.stats, taskStack);
      NothingToCount(TreesOf(tree), tree.stats, minSplitLoss);
    }

    /** The rows that take part, in order. */
    static method ValidRows(hess: seq<real>) returns (valid: seq<nat>)
      ensures Increasing(valid) && forall k :: 0 <= k < |valid| ==> valid[k] < |hess|
      ensures forall r: nat :: r in valid <==> r < |hess| && hess[r] >= 0.0
    {
      valid := [];
      for i := 0 to |hess|
        invariant Increasing(valid) && (forall k :: 0 <= k < |valid| ==> valid[k] < i)
        invariant forall r: nat :: r in valid <==> r < i && hess[r] >= 0.0
      {
        if !(hess[i] < 0.0) { valid := valid + [i]; }
      }
    }

    /** The tasks of the groups that are not empty */
    static method TasksOf(rptr: seq<nat>) returns (tasks: seq<Task>)
      requires |rptr| > 0 && forall i, j :: 0 <= i <= j < |rptr| ==> rptr[i] <= rptr[j]
      ensures forall k :: 0 <= k < |tasks| ==> GroupTask(tasks[k], rptr)
      ensures forall i: nat :: i + 1 < |rptr| && rptr[i] < rptr[i + 1] ==> IsTask(tasks, i)
      ensures forall k, l :: 0 <= k < l < |tasks| ==> tasks[k].nid < tasks[l].nid
    {
      tasks := [];
      for i := 1 to |rptr|
        invariant forall k :: 0 <= k < |tasks| ==> GroupTask(tasks[k], rptr) && tasks[k].nid < i - 1
        invariant forall k, l :: 0 <= k < l < |tasks| ==> tasks[k].nid < tasks[l].nid
        invariant forall j: nat :: j + 1 < i && rptr[j] < rptr[j + 1] ==> IsTask(tasks, j)
      {
        var start, end := rptr[i - 1], rptr[i];
        ghost var front := tasks;
        if start < end {
          tasks := tasks + [Task(i - 1, start, end - start, 0.0)];
          forall j: nat | j < i && rptr[j] < rptr[j + 1] ensures IsTask(tasks, j) {
            OthersAreTasks(front, Task(i - 1, start, end - start, 0.0), j);
          }
        }
      }
    }

    /** init_tasks works on a fresh model: all its nodes are roots. */
    static ghost predicate Fresh(tree: TreeModel)
      reads tree
    {
      && tree.Valid() && tree.numRoots == tree.numNodes >= 1 && tree.deletedNodes == []
      && forall i :: 0 <= i < tree.numNodes ==> IsLeaf(tree.nodes[i])
    }

    static predicate DataOk(rows: seq<Row>, grad: seq<real>, hess: seq<real>, numFeature: nat, sampled: seq<nat>) {
      && |grad| == |hess| == |rows| && Increasing(sampled) && InRange(rows, sampled) && FeaturesBelow(rows, numFeature)
      && forall r :: 0 <= r < |rows| ==> Functional(rows[r])
    }

    ghost predicate Static()
      reads this, tree
    {
      && tree.Valid() && DataOk(rows, grad, hess, numFeature, initial) && |start| == |rows|
      && (forall r :: 0 <= r < |start| ==> -1 <= start[r] < tree.numRoots)
      && tmpRptr == seq(numFeature + 1, _ => 0)
    }

    ghost function Data(): Sample {
      Sample(rows, start, initial, grad, hess, calcWeight, learningRate, calcRootGain, param, numFeature)
    }

    ghost function Lim(): Limits { Limits(paramMaxDepth, minSplitLoss) }

    /** The tasks hold exactly the open nodes, each with the rows that reach it; the finished splits have
        counted their leaves, and none of them would still be pruned; every finished leaf holds its weight,
        and stands for what was grown there. */
    ghost predicate Holding(tasks: seq<Task>)
      reads this, tree, idset
    {
      && Static()
      && Stacked(TreesOf(tree), start, rows, initial, idset[..], paramMaxDepth, tasks)
      && Counted(TreesOf(tree), tree.stats, minSplitLoss, -1)
      && AllWeighed(Data(), TreesOf(tree), tree.stats, tasks)
      && AllSettled(Data(), Lim(), TreesOf(tree), tree.stats, tasks)
    }

    ghost predicate Ready()
      reads this, tree, idset
    {
      Holding(taskStack)
    }

    /** try_prune_leaf: the parent counts the new leaf, and may be turned into a leaf. */
    method TryPruneLeaf(nid: nat, depth: int)
      requires Static() && tree.IsLive(nid) && IsLeaf(tree.nodes[nid])
      requires Stacked(TreesOf(tree), start, rows, initial, idset[..], paramMaxDepth, taskStack)
      requires Counted(TreesOf(tree), tree.stats, minSplitLoss, nid)
      requires AllWeighed(Data(), TreesOf(tree), tree.stats, taskStack)
      requires AllSettled(Data(), Lim(), TreesOf(tree), tree.stats, taskStack)
      modifies this`numPruned, tree
      decreases tree.depth[nid]
      ensures Ready() && tree.depth == old(tree.depth)
      ensures numPruned - old(numPruned) == tree.numDeleted - old(tree.numDeleted)
    {
      hide NodeOk, Consistent, Stacked, Counted, DataOk, AllWeighed, AllSettled;
      ghost var s, before := TreesOf(tree), tree.stats;
      if IsRoot(tree.nodes[nid]) {
        RootUncounted(s, tree.stats, minSplitLoss, nid);
        return;
      }
      var pid := tree.nodes[nid].link.pid;
      ParentIs(s, nid);
      tree.stats := tree.stats[pid := tree.stats[pid].(leafChildCnt := tree.stats[pid].leafChildCnt + 1)];
      SameWeightsKeep(Data(), s, before, tree.stats, taskStack);
      SameGainsKeep(Data(), Lim(), s, before, tree.stats, taskStack);
      if tree.stats[pid].leafChildCnt >= 2 && tree.stats[pid].lossChg < minSplitLoss {
        BothAreLeaves(s, before, minSplitLoss, nid);
        var value := learningRate * tree.stats[pid].baseWeight;
        tree.ChangeToLeaf(pid, value);
        numPruned := numPruned + 2;
        ghost var t := TreesOf(tree);
        CutKeepsTasks(s, t, pid, value, start, rows, initial, idset[..], paramMaxDepth, taskStack);
        CutCounts(s, t, before, tree.stats, minSplitLoss, nid, value);
        CutIsWeighed(Data(), s, t, pid, value, idset[..], paramMaxDepth, tree.stats, taskStack);
        CutIsSettled(Data(), Lim(), s, t, pid, value, idset[..], paramMaxDepth, tree.stats, taskStack);
        TryPruneLeaf(pid, depth - 1);
      } else {
        LeafCounted(s, before, tree.stats, minSplitLoss, nid);
      }
    }

    /** The sums of gradients and hessians over the rows of a task. */
    method SumRows(tsk: Task) returns (g: real, h: real)
      requires Static() && Stacked(TreesOf(tree), start, rows, initial, idset[..], paramMaxDepth, taskStack + [tsk])
      ensures tsk.lo + tsk.len <= idset.Length
      ensures var list := idset[tsk.lo..tsk.lo + tsk.len];
        g == SumRow(grad, list, tsk.len) && h == SumRow(hess, list, tsk.len)
    {
      hide NodeOk, Stacked, Reaching, Functional;
      LastTask(TreesOf(tree), start, rows, initial, idset[..], paramMaxDepth, taskStack, tsk);
      g, h := 0.0, 0.0;
      for i := 0 to tsk.len
        invariant var list := idset[tsk.lo..tsk.lo + tsk.len]; g == SumRow(grad, list, i) && h == SumRow(hess, list, i)
      {
        RowInRange(TreesOf(tree), start, rows, initial, idset[..], paramMaxDepth, taskStack, tsk, i);
        var ridx := idset[tsk.lo + i];
        g, h := g + grad[ridx], h + hess[ridx];
      }
    }

    /** make_leaf: the node of the task becomes a leaf, which may start pruning. */
    method MakeLeaf(tsk: Task, sumGrad: real, sumHess: real, compute: bool)
      requires Holding(taskStack + [tsk])
      requires !compute ==>
        && tsk.lo + tsk.len <= idset.Length
        && sumGrad == SumRow(grad, idset[tsk.lo..tsk.lo + tsk.len], tsk.len)
        && sumHess == SumRow(hess, idset[tsk.lo..tsk.lo + tsk.len], tsk.len)
      requires tsk.nid < |tree.depth| && tsk.lo + tsk.len <= idset.Length
      requires Greedy(Data(), Lim(), idset[tsk.lo..tsk.lo + tsk.len], tree.depth[tsk.nid], tsk.parentBaseWeight,
        Nothing)
      modifies this`numPruned, tree
      ensures Ready() && tree.depth == old(tree.depth)
      ensures numPruned - old(numPruned) == tree.numDeleted - old(tree.numDeleted)
    {
      hide NodeOk, Stacked, Counted, Reaching, Functional, AllWeighed, WeightOf, AllSettled, Greedy;
      ghost var s, before := TreesOf(tree), tree.stats;
      TaskWeight(Data(), s, idset[..], paramMaxDepth, before, taskStack, tsk);
      LastTask(s, start, rows, initial, idset[..], paramMaxDepth, taskStack, tsk);
      var g, h := sumGrad, sumHess;
      if compute {
        g, h := SumRows(tsk);
      }
      tree.stats := tree.stats[tsk.nid := tree.stats[tsk.nid].(sumHess := h)];
      SameCounts(s, before, tree.stats, minSplitLoss, -1);
      tree.SetLeaf(tsk.nid, learningRate * calcWeight(g, h, tsk.parentBaseWeight));
      ghost var t := TreesOf(tree);
      LeafSet(s, t, tsk.nid);
      LeafTask(s, t, start, rows, initial, idset[..], paramMaxDepth, taskStack, tsk);
      NewLeafCounts(s, t, tree.stats, minSplitLoss, tsk.nid);
      LeafIsWeighed(Data(), s, t, idset[..], paramMaxDepth, before, tree.stats, taskStack, tsk);
      LeafIsSettled(Data(), Lim(), s, t, idset[..], paramMaxDepth, before, tree.stats, taskStack, tsk);
      var depth := tree.GetDepth(tsk.nid);
      TryPruneLeaf(tsk.nid, depth);
    }

    /** The statistics, the split and the children of a node. */
    method SplitNode(nid: nat, c: Candidate, sumHess: real, baseWeight: real)
      requires tree.Valid() && TreesOf(tree).Open(nid) && (tree.nodes[nid].kids.Pending? || nid < tree.numRoots)
      requires Counted(TreesOf(tree), tree.stats, minSplitLoss, -1)
      modifies tree
      ensures tree.Valid() && Decided(old(TreesOf(tree)), TreesOf(tree), nid)
      ensures Counted(TreesOf(tree), tree.stats, minSplitLoss, -1)
      ensures nid < |tree.stats| && tree.stats[nid].lossChg == c.lossChg && tree.stats[nid].baseWeight == baseWeight
      ensures KeepsWeights(old(TreesOf(tree)), old(tree.stats), tree.stats, nid)
      ensures KeepsGains(old(TreesOf(tree)), old(tree.stats), tree.stats, nid)
      ensures var n := tree.nodes[nid];
        n.kids.Kids? && n.feature == c.feature && n.info == c.splitValue && n.defaultLeft == c.defaultLeft
    {
      hide NodeOk, Counted;
      ghost var s, before := TreesOf(tree), tree.stats;
      tree.stats := tree.stats[nid := tree.stats[nid].(
        lossChg := c.lossChg, leafChildCnt := 0, sumHess := sumHess, baseWeight := baseWeight)];
      tree.SetSplit(nid, c.feature, c.splitValue, c.defaultLeft);
      ghost var m := TreesOf(tree);
      tree.AddChilds(nid);
      ghost var t := TreesOf(tree);
      forall i | 0 <= i < |t.nodes|
        ensures t.Has(i) <==> m.Has(i) || i == t.nodes[nid].kids.left || i == t.nodes[nid].kids.right
      {
        assert tree.IsLive(i) == t.Has(i);
      }
      NodeSplit(s, m, t, nid);
      SplitCounts(s, t, before, tree.stats, minSplitLoss, nid);
    }

    /** The rows of a node in their two parts, first the one that takes the default branch. */
    method Rearrange(lo: nat, len: nat, part: seq<Entry>, n: Node) returns (taken: nat)
      requires lo + len <= idset.Length && Increasing(idset[lo..lo + len])
      requires AllDifferent(RowsOf(part)) && AllIn(RowsOf(part), idset[lo..lo + len])
        && Takes(n, rows, idset[lo..lo + len], RowsOf(part))
      modifies idset
      ensures taken <= len
      ensures idset[lo..lo + len - taken] == Part(n, rows, old(idset[lo..lo + len]), n.defaultLeft)
      ensures idset[lo + len - taken..lo + len] == Part(n, rows, old(idset[lo..lo + len]), !n.defaultLeft)
      ensures forall k :: 0 <= k < idset.Length && !(lo <= k < lo + len) ==> idset[k] == old(idset[k])
    {
      hide Part, Takes, AllIn, AllDifferent, Increasing, Without, SortNat, GoesLeft, RowsOf;
      ghost var list := idset[lo..lo + len];
      SortedTakes(n, rows, list, RowsOf(part));
      var qset := SortNat(RowsOf(part));
      RemoveAndAppend(idset, lo, len, qset);
      PartsOf(n, rows, list, qset);
      taken := |qset|;
    }

    /** make_split: the rows in the chosen interval leave the default branch; both parts become tasks. */
    method MakeSplit(tsk: Task, c: Candidate, part: seq<Entry>, sumHess: real, baseWeight: real)
      requires Holding(taskStack + [tsk])
      requires tsk.nid < |tree.depth| && tree.depth[tsk.nid] < paramMaxDepth && tsk.lo + tsk.len <= idset.Length
      requires baseWeight == WeightOn(Data(), idset[tsk.lo..tsk.lo + tsk.len], tsk.parentBaseWeight)
      requires SettledOn(Data(), Lim(), Node(NoParent, Kids(0, 0), c.feature, c.defaultLeft, c.splitValue), c.lossChg,
        idset[tsk.lo..tsk.lo + tsk.len], tree.depth[tsk.nid], tsk.parentBaseWeight)
      requires var q := RowsOf(part);
        && AllDifferent(q) && AllIn(q, idset[tsk.lo..tsk.lo + tsk.len])
        && Takes(Node(NoParent, NoKids, c.feature, c.defaultLeft, c.splitValue), rows, idset[tsk.lo..tsk.lo + tsk.len],
           q)
      modifies this`taskStack, idset, tree
      ensures Ready()
      ensures |taskStack| == old(|taskStack|) + 2 && taskStack[..old(|taskStack|)] == old(taskStack)
      ensures tsk.nid < |tree.nodes| && tsk.nid < |tree.stats| && tree.stats[tsk.nid].lossChg == c.lossChg
      ensures var n := tree.nodes[tsk.nid];
        n.feature == c.feature && n.info == c.splitValue && n.defaultLeft == c.defaultLeft
      ensures Remaining(tree.depth, paramMaxDepth, taskStack)
        < old(Remaining(tree.depth, paramMaxDepth, taskStack + [tsk]))
    {
      hide NodeOk, Consistent, Stacked, Counted, Reaching, Functional, Part, Takes, AllIn, AllDifferent, Increasing,
        Remaining;
      hide Without, SortNat, GoesLeft, AllWeighed, WeightOf, WeightOn, KeepsWeights, AllSettled, SettledOn, KeepsGains;
      ghost var s, list, was := TreesOf(tree), idset[tsk.lo..tsk.lo + tsk.len], idset[..];
      ghost var before := tree.stats;
      TaskWeight(Data(), s, was, paramMaxDepth, before, taskStack, tsk);
      LastTask(s, start, rows, initial, was, paramMaxDepth, taskStack, tsk);
      SplitNode(tsk.nid, c, sumHess, baseWeight);
      ghost var t := TreesOf(tree);
      var n := tree.nodes[tsk.nid];
      SameTakes(Node(NoParent, NoKids, c.feature, c.defaultLeft, c.splitValue), n, rows, list, RowsOf(part));
      RowsIncreasing(s, start, rows, initial, was, paramMaxDepth, taskStack, tsk);
      var taken := Rearrange(tsk.lo, tsk.len, part, n);
      var defPart := Task(if n.defaultLeft then n.kids.left else n.kids.right, tsk.lo, tsk.len - taken, baseWeight);
      var splPart := Task(if n.defaultLeft then n.kids.right else n.kids.left, tsk.lo + defPart.len, taken, baseWeight);
      SplitTask(s, t, start, rows, initial, was, idset[..], paramMaxDepth, taskStack, tsk, defPart, splPart);
      LessRemains(s, t, start, rows, initial, was, paramMaxDepth, taskStack, tsk, defPart, splPart);
      SplitIsWeighed(Data(), s, t, was, paramMaxDepth, before, tree.stats, taskStack, tsk, defPart, splPart);
      SameCut(Data(), Lim(), Node(NoParent, Kids(0, 0), c.feature, c.defaultLeft, c.splitValue), n, c.lossChg, list,
        s.depth[tsk.nid], tsk.parentBaseWeight);
      SplitIsSettled(Data(), Lim(), s, t, was, paramMaxDepth, before, tree.stats, taskStack, tsk, defPart, splPart);
      assert taskStack + [defPart] + [splPart] == taskStack + [defPart, splPart];
      taskStack := taskStack + [defPart];
      taskStack := taskStack + [splPart];
    }

    /** One active feature: sort its column, and look for its best split. */
    method SearchFeature(builder: Builder<Entry>, columns: seq<Entry>, list: seq<nat>, sums: Sums, f: nat,
                         best: Candidate, entry: seq<Entry>, ghost done: nat)
      returns (next: Candidate, after: seq<Entry>, ghost hi: nat)
      requires Increasing(list) && InRange(rows, list) && |sums.grad| == |sums.hess| == |rows|
      requires forall r :: 0 <= r < |rows| ==> Functional(rows[r])
      requires ColumnsAre(builder, columns, rows, list, numFeature) && Active(builder.budget, f) && f < numFeature
        && done <= Start(builder.budget, f)
      requires best.lossChg >= 0.0 && SameFrom(entry, columns, done)
        && Chosen(best, entry, sums, param, rows, list, numFeature, done)
      ensures hi == Start(builder.budget, f + 1) <= |columns| && SameFrom(after, columns, hi)
      ensures next.lossChg >= best.lossChg && Chosen(next, after, sums, param, rows, list, numFeature, hi)
      ensures NoBetter(next.lossChg, sums, param, SortColumn(ColumnRows(rows, list, f, |list|)))
    {
      hide ColumnRows, Functional, Chosen, InRange, Increasing, AllDifferent, SortColumn, Start, NoBetter;
      hide GoodSplit, Attained, IsColumn, SortedByValue, Sorted, SameFrom;
      var lo, to := builder.rptr[f], builder.rptr[f + 1];
      hi := to;
      SameLength(entry, columns, done);
      SameSegment(entry, columns, done, lo, to);
      after := SortSegment(entry, lo, to);
      SameBehind(entry, after, columns, done, lo, to);
      DifferentRows(list);
      ArrangedColumn(rows, list, f, after[lo..to]);
      ChosenStays(best, entry, after, sums, param, rows, list, numFeature, done, lo);
      ColumnReady(after, lo, to, rows, list, f);
      next := EnumerateSplit(best, sums, after, lo, to, f, param);
      ChosenNext(best, next, after, lo, to, sums, param, rows, list, f, numFeature);
    }

    /** The loop over the active features. */
    method BestSplit(builder: Builder<Entry>, columns: seq<Entry>, list: seq<nat>, sums: Sums)
      returns (best: Candidate, entry: seq<Entry>)
      requires builder.useAcList && builder.Pushing() && |builder.budget| == numFeature
      requires Increasing(list) && InRange(rows, list) && |sums.grad| == |sums.hess| == |rows|
      requires forall r :: 0 <= r < |rows| ==> Functional(rows[r])
      requires Increasing(builder.aclist) && ColumnsAre(builder, columns, rows, list, numFeature)
      requires forall f: nat :: f < numFeature && !Active(builder.budget, f) ==> ColumnRows(rows, list, f, |list|) == []
      ensures |entry| == |columns| && Chosen(best, entry, sums, param, rows, list, numFeature, |entry|)
      ensures NoBetterSplit(best.lossChg, sums, param, rows, list, numFeature)
    {
      hide ColumnRows, Functional, Chosen, InRange, Increasing, SortColumn, Start, NoBetter, NoBetterSplit;
      hide SearchedTo, SameFrom, ColumnsAre, Active;
      NothingSearched(NoSplit.lossChg, sums, param, rows, list, builder.aclist);
      best, entry := NoSplit, columns;
      NothingChosen(entry, sums, param, rows, list, numFeature);
      AllSame(columns);
      ghost var done: nat := 0;
      for i := 0 to |builder.aclist|
        invariant best.lossChg >= 0.0
        invariant 0 < i ==> builder.aclist[i - 1] < |builder.budget|
        invariant done == if i == 0 then 0 else Start(builder.budget, builder.aclist[i - 1] + 1)
        invariant SameFrom(entry, columns, done) && done <= |columns|
        invariant Chosen(best, entry, sums, param, rows, list, numFeature, done)
        invariant SearchedTo(best.lossChg, sums, param, rows, list, builder.aclist, i)
      {
        var f := builder.aclist[i];
        assert f in builder.aclist;
        Behind(builder.budget, builder.aclist, i);
        ghost var loss := best.lossChg;
        best, entry, done := SearchFeature(builder, columns, list, sums, f, best, entry, done);
        SearchedNext(loss, best.lossChg, sums, param, rows, list, builder.aclist, i);
      }
      SearchedAll(best.lossChg, sums, param, rows, list, builder.aclist, numFeature);
      SameLength(entry, columns, done);
      ChosenStays(best, entry, entry, sums, param, rows, list, numFeature, done, |entry|);
    }

    /** The sums over the rows of a node */
    function SumsOf(list: seq<nat>, parentBaseWeight: real): Sums {
      var g, h := SumRow(grad, list, |list|), SumRow(hess, list, |list|);
      Sums(grad, hess, g, h, calcRootGain(g, h), calcWeight(g, h, parentBaseWeight))
    }

    /** The middle part of expand: sums, column storage and the search; tmp_rptr is all zero again. */
    method Search(tsk: Task, list: seq<nat>)
      returns (enough: bool, sumGrad: real, sumHess: real, best: Candidate, entry: seq<Entry>)
      requires Static() && Stacked(TreesOf(tree), start, rows, initial, idset[..], paramMaxDepth, taskStack + [tsk])
      requires tsk.lo + tsk.len <= idset.Length && list == idset[tsk.lo..tsk.lo + tsk.len]
      requires Increasing(list) && InRange(rows, list)
      modifies this`tmpRptr
      ensures tmpRptr == old(tmpRptr)
      ensures sumGrad == SumRow(grad, list, |list|) && sumHess == SumRow(hess, list, |list|)
      ensures enough <==> sumHess >= 2.0 * param.minChildWeight
      ensures enough ==> Chosen(best, entry, SumsOf(list, tsk.parentBaseWeight), param, rows, list, numFeature, |entry|)
      ensures enough ==> NoBetterSplit(best.lossChg, SumsOf(list, tsk.parentBaseWeight), param, rows, list, numFeature)
    {
      hide NodeOk, Consistent, Stacked, Counted, Reaching, Functional, Chosen, IsColumn, GoodSplit, Increasing, AllIn,
        AllDifferent, ColumnRows, NoBetter, NoBetterSplit;
      var builder := new Builder<Entry>(tmpRptr, true);
      builder.InitBudget(numFeature);
      sumGrad, sumHess := SumRows(tsk);
      CountEntries(builder, rows, list, numFeature);
      enough := sumHess >= 2.0 * param.minChildWeight;
      if !enough {
        builder.FinishEarly();
        tmpRptr := builder.rptr;
        best, entry := NoSplit, [];
      } else {
        var columns := BuildColumns(builder, rows, list, numFeature);
        best, entry := BestSplit(builder, columns, list, SumsOf(list, tsk.parentBaseWeight));
        builder.Finish();
        tmpRptr := builder.rptr;
      }
    }

    /** Not too deep, and heavy enough for two children. */
    ghost predicate MaySplit(tsk: Task)
      reads tree, idset
    {
      && tsk.nid < |tree.depth| && tsk.lo + tsk.len <= idset.Length && tree.depth[tsk.nid] < paramMaxDepth
      && SumRow(hess, idset[tsk.lo..tsk.lo + tsk.len], tsk.len) >= 2.0 * param.minChildWeight
    }

    /** expand: a task's node becomes a leaf or is split. */
    method Expand(tsk: Task)
      requires Holding(taskStack + [tsk])
      requires tsk.nid < |tree.depth| && tsk.lo + tsk.len <= idset.Length
        && InRange(rows, idset[tsk.lo..tsk.lo + tsk.len])
      modifies this`taskStack, this`maxDepth, this`numPruned, this`tmpRptr, idset, tree
      ensures Ready()
      ensures taskStack == old(taskStack) || (|taskStack| == old(|taskStack|) + 2
        && taskStack[..old(|taskStack|)] == old(taskStack))
      ensures var list := old(idset[tsk.lo..tsk.lo + tsk.len]);
        taskStack != old(taskStack) <==>
          old(MaySplit(tsk)) && Pays(SumsOf(list, tsk.parentBaseWeight), param, rows, list, numFeature)
      ensures taskStack != old(taskStack) ==> var list := old(idset[tsk.lo..tsk.lo + tsk.len]);
        && tsk.nid < |tree.nodes| && tsk.nid < |tree.stats|
        && BestCut(tree.nodes[tsk.nid], tree.stats[tsk.nid].lossChg, SumsOf(list, tsk.parentBaseWeight), param, rows,
           list, numFeature)
      ensures Remaining(tree.depth, paramMaxDepth, taskStack)
        < old(Remaining(tree.depth, paramMaxDepth, taskStack + [tsk]))
    {
      hide NodeOk, Consistent, Stacked, Counted, Reaching, Functional, Remaining, Chosen, Increasing, AllIn,
        AllDifferent, Takes, NoBetterSplit, MadeCut, Pays, AllWeighed, AllSettled;
      ghost var t := TreesOf(tree);
      LastTask(t, start, rows, initial, idset[..], paramMaxDepth, taskStack, tsk);
      OneLess(t, paramMaxDepth, taskStack, tsk);
      var depth := tree.GetDepth(tsk.nid);
      if depth > maxDepth { maxDepth := depth; }
      if depth >= paramMaxDepth {
        MakeLeaf(tsk, 0.0, 0.0, true);
        return;
      }
      var list := idset[tsk.lo..tsk.lo + tsk.len];
      RowsIncreasing(t, start, rows, initial, idset[..], paramMaxDepth, taskStack, tsk);
      RowsInRange(rows, list, initial);
      var enough, sumGrad, sumHess, best, entry := Search(tsk, list);
      if enough && best.lossChg > RT_EPS {
        ChosenTakes(best, entry, SumsOf(list, tsk.parentBaseWeight), param, rows, list, numFeature);
        var baseWeight := calcWeight(sumGrad, sumHess, tsk.parentBaseWeight);
        MakeSplit(tsk, best, entry[best.start..best.start + best.len], sumHess, baseWeight);
        BestPays(tree.nodes[tsk.nid], best.lossChg, SumsOf(list, tsk.parentBaseWeight), param, rows, list, numFeature);
      } else {
        if enough { NothingPays(best.lossChg, SumsOf(list, tsk.parentBaseWeight), param, rows, list, numFeature); }
        MakeLeaf(tsk, sumGrad, sumHess, false);
      }
    }

    /** do_boost: it ends, with no task left; every row is then led to a leaf. */
    method DoBoost() returns (depth: nat, pruned: nat)
      requires Ready()
      modifies this`taskStack, this`maxDepth, this`numPruned, this`tmpRptr, idset, tree
      ensures Ready() && taskStack == []
      ensures forall p: nat :: tree.IsLive(p) ==> !tree.nodes[p].kids.Pending?
      ensures forall r: nat :: r < |rows| && start[r] != -1 ==>
        exists leaf: nat :: LeadsTo(tree.nodes, start[r], rows[r], leaf)
      ensures forall p: nat :: tree.IsLive(p) && !Unreached(Data(), TreesOf(tree), p) ==>
        Weighed(Data(), TreesOf(tree), tree.stats, p) && Settled(Data(), Lim(), TreesOf(tree), tree.stats, p)
      ensures depth == maxDepth && pruned == numPruned
    {
      hide DataOk, Stacked, Counted, Remaining, Consistent, NodeOk, LeadsTo, AllWeighed, Weighed, Unreached, AllSettled,
        Settled;
      maxDepth := 0;
      numPruned := 0;
      while |taskStack| != 0
        invariant Ready()
        decreases Remaining(tree.depth, paramMaxDepth, taskStack)
      {
        var tsk := NextTask();
        Expand(tsk);
      }
      depth, pruned := maxDepth, numPruned;
      ghost var t := TreesOf(tree);
      NothingPending(t, start, rows, initial, idset[..], paramMaxDepth, taskStack);
      assert forall p: nat :: tree.IsLive(p) == t.Has(p);
      AllWalksEnd(t, start, rows, initial, idset[..], paramMaxDepth, taskStack);
      AllFinished(Data(), t, tree.stats, taskStack);
      AllSettledNow(Data(), Lim(), t, tree.stats, taskStack);
    }

    /** next_task */
    method NextTask() returns (tsk: Task)
      requires Ready() && taskStack != []
      modifies this`taskStack
      ensures Holding(taskStack + [tsk])
      ensures tsk.nid < |tree.depth| && tsk.lo + tsk.len <= idset.Length
        && InRange(rows, idset[tsk.lo..tsk.lo + tsk.len])
      ensures taskStack + [tsk] == old(taskStack)
    {
      hide Stacked, Counted, Consistent, NodeOk, InRange, AllWeighed, AllSettled;
      tsk := taskStack[|taskStack| - 1];
      assert taskStack == taskStack[..|taskStack| - 1] + [tsk];
      taskStack := taskStack[..|taskStack| - 1];
      TaskRows(TreesOf(tree), start, rows, initial, idset[..], paramMaxDepth, taskStack, tsk);
    }
  }

  lemma NothingPending(t: Trees, start: seq<int>, rows: seq<Row>, initial: seq<nat>, idx: seq<nat>, maxDepth: nat,
                       tasks: seq<Task>)
    requires Stacked(t, start, rows, initial, idx, maxDepth, tasks) && tasks == []
    ensures forall p: nat :: t.Has(p) ==> !t.nodes[p].kids.Pending?
  {
    forall p: nat | t.Has(p) ensures !t.nodes[p].kids.Pending? { assert t.nodes[p].kids.Pending? ==> IsTask(tasks, p); }
  }

  lemma AllWalksEnd(t: Trees, start: seq<int>, rows: seq<Row>, initial: seq<nat>, idx: seq<nat>, maxDepth: nat,
                    tasks: seq<Task>)
    requires Stacked(t, start, rows, initial, idx, maxDepth, tasks) && tasks == []
    ensures |start| == |rows|
    ensures forall r: nat :: r < |rows| && start[r] != -1 ==>
      exists leaf: nat :: LeadsTo(t.nodes, start[r], rows[r], leaf)
  {
    NothingPending(t, start, rows, initial, idx, maxDepth, tasks);
    forall r: nat | r < |rows| && start[r] != -1 ensures exists leaf: nat :: LeadsTo(t.nodes, start[r], rows[r], leaf) {
      EveryWalkEnds(t, start[r], rows[r]);
    }
  }

  /** Task i holds row r. */
  predicate Held(tasks: seq<Task>, idx: seq<nat>, i: nat, r: nat) {
    i < |tasks| && tasks[i].lo + tasks[i].len <= |idx| && r in idx[tasks[i].lo..tasks[i].lo + tasks[i].len]
  }

  /** Row r is led to a leaf that no task will still expand. */
  ghost predicate Finished(t: Trees, root: int, row: Row, tasks: seq<Task>) {
    exists leaf: nat :: LeadsTo(t.nodes, root, row, leaf) && !IsTask(tasks, leaf)
  }

  /** A task holds exactly the rows whose walk comes to its node. */
  lemma HeldRows(t: Trees, start: seq<int>, rows: seq<Row>, initial: seq<nat>, idx: seq<nat>, maxDepth: nat,
                 tasks: seq<Task>, i: nat, r: nat)
    requires Stacked(t, start, rows, initial, idx, maxDepth, tasks) && i < |tasks|
    requires r in initial && r < |rows| && start[r] != -1
    ensures t.Open(tasks[i].nid)
    ensures Held(tasks, idx, i, r) <==> exists d: nat :: WalkPos(t.nodes, start[r], rows[r], d) == tasks[i].nid
  {
    var p := tasks[i].nid;
    assert TaskOk(t, start, rows, initial, idx, maxDepth, tasks[i]);
    InReaching(t.nodes, start, rows, initial, p, t.depth[p], r);
    if d: nat :| WalkPos(t.nodes, start[r], rows[r], d) == p { WalkLevel(t, start[r], rows[r], d); }
  }

  /** A walk stops at one node only. */
  lemma OneStop(nodes: seq<Node>, root: int, row: Row, d: nat, e: nat)
    requires root >= -1 && 0 <= WalkPos(nodes, root, row, d) < |nodes| && 0 <= WalkPos(nodes, root, row, e) < |nodes|
    requires !nodes[WalkPos(nodes, root, row, d)].kids.Kids? && !nodes[WalkPos(nodes, root, row, e)].kids.Kids?
    ensures d == e
  {
    OverAfter(nodes, root, row, d, e);
    OverAfter(nodes, root, row, e, d);
  }

  lemma OverAfter(nodes: seq<Node>, root: int, row: Row, d: nat, e: nat)
    requires root >= -1 && 0 <= WalkPos(nodes, root, row, d) < |nodes|
      && !nodes[WalkPos(nodes, root, row, d)].kids.Kids?
    ensures d < e ==> WalkPos(nodes, root, row, e) == -1
  {
    assert WalkPos(nodes, root, row, d + 1) == -1;
    if d < e { WalkEnded(nodes, root, row, d + 1, e); }
  }

  /** A walk that is over by step d has stopped before, at a node that is not split. */
  lemma {:induction false} StopBefore(t: Trees, root: nat, row: Row, d: nat) returns (e: nat)
    requires t.Ok() && root < t.roots && WalkPos(t.nodes, root, row, d) == -1
    ensures t.Open(WalkPos(t.nodes, root, row, e))
  {
    e := 0;
    if d != 0 {
      WalkLevel(t, root, row, d - 1);
      if WalkPos(t.nodes, root, row, d - 1) == -1 { e := StopBefore(t, root, row, d - 1); } else { e := d - 1; }
    }
  }

  /** The ranges on the stack and the rows of the finished leaves make up the initial idset: every row is
      led to a finished leaf, or held by a task, never both, and never held by two. */
  lemma EveryRowOnce(t: Trees, start: seq<int>, rows: seq<Row>, initial: seq<nat>, idx: seq<nat>, maxDepth: nat,
                     tasks: seq<Task>, r: nat)
    requires Stacked(t, start, rows, initial, idx, maxDepth, tasks) && r in initial && r < |rows| && start[r] != -1
    ensures Finished(t, start[r], rows[r], tasks) <==> !exists i: nat :: Held(tasks, idx, i, r)
    ensures forall i: nat, j: nat :: Held(tasks, idx, i, r) && Held(tasks, idx, j, r) ==> i == j
  {
    var bound := DepthBounded(t.depth);
    WalkLevel(t, start[r], rows[r], bound);
    var e := StopBefore(t, start[r], rows[r], bound);
    var q: nat := WalkPos(t.nodes, start[r], rows[r], e);
    forall i: nat | i < |tasks| ensures Held(tasks, idx, i, r) <==> tasks[i].nid == q {
      HeldRows(t, start, rows, initial, idx, maxDepth, tasks, i, r);
      if d: nat :| WalkPos(t.nodes, start[r], rows[r], d) == tasks[i].nid { OneStop(t.nodes, start[r], rows[r], d, e); }
    }
    forall i: nat, j: nat | Held(tasks, idx, i, r) && Held(tasks, idx, j, r) ensures i == j {
      assert i < j ==> Disjoint(tasks[i], tasks[j]);
      assert j < i ==> Disjoint(tasks[j], tasks[i]);
    }
    FinishedAt(t, start[r], rows[r], tasks, e);
    if IsTask(tasks, q) {
      var i: nat :| i < |tasks| && tasks[i].nid == q;
      assert Held(tasks, idx, i, r);
    }
  }

  lemma FinishedAt(t: Trees, root: int, row: Row, tasks: seq<Task>, e: nat)
    requires root >= -1 && t.Open(WalkPos(t.nodes, root, row, e))
    requires forall p: nat :: t.Has(p) && t.nodes[p].kids.Pending? ==> IsTask(tasks, p)
    ensures Finished(t, root, row, tasks) <==> !IsTask(tasks, WalkPos(t.nodes, root, row, e))
  {
    var q: nat := WalkPos(t.nodes, root, row, e);
    if !IsTask(tasks, q) { assert LeadsTo(t.nodes, root, row, q); }
    if leaf: nat :| LeadsTo(t.nodes, root, row, leaf) && !IsTask(tasks, leaf) {
      var d: nat :| WalkPos(t.nodes, root, row, d) == leaf;
      OneStop(t.nodes, root, row, d, e);
    }
  }

  lemma OneLess(t: Trees, maxDepth: nat, rest: seq<Task>, k: Task)
    requires k.nid < |t.depth| && t.depth[k.nid] <= maxDepth
    ensures Remaining(t.depth, maxDepth, rest) < Remaining(t.depth, maxDepth, rest + [k])
  {
    RemainingPush(t.depth, maxDepth, rest, k);
  }

  lemma RowsInRange(rows: seq<Row>, list: seq<nat>, initial: seq<nat>)
    requires AllIn(list, initial) && InRange(rows, initial)
    ensures InRange(rows, list)
  {
    forall i | 0 <= i < |list| ensures list[i] < |rows| { assert list[i] in initial; }
  }

  lemma ChosenTakes(c: Candidate, entry: seq<Entry>, sums: Sums, param: Param, rows: seq<Row>, s: seq<nat>, n: nat)
    requires InRange(rows, s) && Chosen(c, entry, sums, param, rows, s, n, |entry|) && c.lossChg > RT_EPS
    ensures c.start + c.len <= |entry| && c.feature < n
    ensures var q := RowsOf(entry[c.start..c.start + c.len]);
      && AllDifferent(q) && AllIn(q, s)
      && Takes(Node(NoParent, NoKids, c.feature, c.defaultLeft, c.splitValue), rows, s, q)
    ensures MadeCut(c.feature, c.defaultLeft, c.splitValue, c.lossChg, sums, param, rows, s)
  {
    hide Takes, AllDifferent, AllIn, RowsOf, MadeCut;
    var lo, hi :| 0 <= lo <= hi <= |entry| && Picked(c, entry, lo, hi, sums, param, rows, s);
    IntervalTakes(c, entry, lo, hi, rows, s, Node(NoParent, NoKids, c.feature, c.defaultLeft, c.splitValue));
    PickedCut(c, entry, lo, hi, sums, param, rows, s);
  }

  /** The interval of a candidate is one side of a cut. */
  lemma PickedCut(c: Candidate, entry: seq<Entry>, lo: nat, hi: nat, sums: Sums, param: Param, rows: seq<Row>,
                  s: seq<nat>)
    requires InRange(rows, s) && Picked(c, entry, lo, hi, sums, param, rows, s)
    ensures MadeCut(c.feature, c.defaultLeft, c.splitValue, c.lossChg, sums, param, rows, s)
  {
    hide SortColumn, ColumnRows, IsColumn, CutAt;
    var col := SortColumn(ColumnRows(rows, s, c.feature, |s|));
    assert forall j :: 0 <= j < |col| ==> col[j] == entry[lo + j];
    assert CutAt(c.defaultLeft, CutOf(c, lo), c.lossChg, sums, param, col);
  }

  lemma LastTask(t: Trees, start: seq<int>, rows: seq<Row>, initial: seq<nat>, idx: seq<nat>, maxDepth: nat,
                 rest: seq<Task>, k: Task)
    requires Stacked(t, start, rows, initial, idx, maxDepth, rest + [k])
    ensures t.Open(k.nid) && k.nid < |t.depth| && t.depth[k.nid] <= maxDepth && k.lo + k.len <= |idx|
    ensures t.nodes[k.nid].kids.Pending? || k.nid < t.roots
    ensures idx[k.lo..k.lo + k.len] == Reaching(t.nodes, start, rows, initial, k.nid, t.depth[k.nid])
    ensures Stacked(t, start, rows, initial, idx, maxDepth, rest + [k])
  {
    assert (rest + [k])[|rest|] == k;
    assert TaskOk(t, start, rows, initial, idx, maxDepth, (rest + [k])[|rest|]);
  }

  lemma RowsIncreasing(t: Trees, start: seq<int>, rows: seq<Row>, initial: seq<nat>, idx: seq<nat>, maxDepth: nat,
                       rest: seq<Task>, k: Task)
    requires Stacked(t, start, rows, initial, idx, maxDepth, rest + [k]) && Increasing(initial) && k.lo + k.len <= |idx|
    ensures Increasing(idx[k.lo..k.lo + k.len]) && AllIn(idx[k.lo..k.lo + k.len], initial)
  {
    LastTask(t, start, rows, initial, idx, maxDepth, rest, k);
    ReachingIncreasing(t.nodes, start, rows, initial, k.nid, t.depth[k.nid]);
  }

  lemma TaskRows(t: Trees, start: seq<int>, rows: seq<Row>, initial: seq<nat>, idx: seq<nat>, maxDepth: nat,
                 rest: seq<Task>, k: Task)
    requires Stacked(t, start, rows, initial, idx, maxDepth, rest + [k]) && Increasing(initial)
      && InRange(rows, initial)
    ensures k.nid < |t.depth| && k.lo + k.len <= |idx| && InRange(rows, idx[k.lo..k.lo + k.len])
  {
    LastTask(t, start, rows, initial, idx, maxDepth, rest, k);
    RowsIncreasing(t, start, rows, initial, idx, maxDepth, rest, k);
    RowsInRange(rows, idx[k.lo..k.lo + k.len], initial);
  }

  lemma RowInRange(t: Trees, start: seq<int>, rows: seq<Row>, initial: seq<nat>, idx: seq<nat>, maxDepth: nat,
                   rest: seq<Task>, k: Task, i: nat)
    requires Stacked(t, start, rows, initial, idx, maxDepth, rest + [k]) && Increasing(initial)
      && InRange(rows, initial)
    requires i < k.len && k.lo + k.len <= |idx|
    ensures idx[k.lo + i] < |rows|
  {
    RowsIncreasing(t, start, rows, initial, idx, maxDepth, rest, k);
    assert idx[k.lo..k.lo + k.len][i] in initial;
  }

  /** Statistics other than the counts and gains do not matter. */
  lemma SameCounts(t: Trees, stats: seq<Stat>, after: seq<Stat>, min: real, hole: int)
    requires Counted(t, stats, min, hole) && |after| == |stats|
    requires forall p :: 0 <= p < |stats| ==>
      after[p].leafChildCnt == stats[p].leafChildCnt && after[p].lossChg == stats[p].lossChg
    ensures Counted(t, after, min, hole)
  {
    forall p: nat | t.Has(p)
      ensures CountOk(t.nodes, after, min, hole, p)
    {
      assert CountOk(t.nodes, stats, min, hole, p);
    }
  }

  lemma LeafSet(s: Trees, t: Trees, p: nat)
    requires s.Ok() && t.Ok() && s.Open(p) && t.roots == s.roots && t.deleted == s.deleted && t.depth == s.depth
    requires t.nodes == s.nodes[p := s.nodes[p].(kids := NoKids, info := t.nodes[p].info)]
    ensures Decided(s, t, p)
  {
  }

  lemma NewLeafCounts(s: Trees, t: Trees, stats: seq<Stat>, min: real, p: nat)
    requires Counted(s, stats, min, -1) && Decided(s, t, p) && IsLeaf(t.nodes[p]) && |t.nodes| == |s.nodes|
    requires s.nodes[p].kids.Pending? || p < s.roots
    ensures Counted(t, stats, min, p)
  {
    assert Good(s, p);
    forall x: nat | t.Has(x) ensures CountOk(t.nodes, stats, min, p, x) {
      assert s.Has(x) && CountOk(s.nodes, stats, min, -1, x) && Good(s, x);
    }
  }

  /** set_split and AddChilds together. */
  lemma NodeSplit(s: Trees, m: Trees, t: Trees, p: nat)
    requires s.Ok() && m.Ok() && t.Ok() && s.Open(p) && m.roots == s.roots && m.deleted == s.deleted
      && m.depth == s.depth
    requires m.nodes
      == s.nodes[p := s.nodes[p].(feature := m.nodes[p].feature, defaultLeft := m.nodes[p].defaultLeft,
      info := m.nodes[p].info)]
    requires t.roots == m.roots && |t.nodes| >= |m.nodes| && t.nodes[p].kids.Kids?
      && t.nodes[p] == m.nodes[p].(kids := t.nodes[p].kids)
    requires var l, r := t.nodes[p].kids.left, t.nodes[p].kids.right;
      && t.Has(l) && t.Has(r) && !m.Has(l) && !m.Has(r) && l != r && t.nodes[l].kids.Pending?
         && t.nodes[r].kids.Pending?
      && (forall i :: 0 <= i < |t.nodes| ==> (t.Has(i) <==> m.Has(i) || i == l || i == r))
      && (forall i :: 0 <= i < |t.nodes| && m.Has(i) && i != p ==> t.nodes[i] == m.nodes[i])
      && (forall i :: 0 <= i < |t.nodes| && m.Has(i) ==> t.depth[i] == m.depth[i])
    ensures Decided(s, t, p)
  {
  }

  lemma SplitCounts(s: Trees, t: Trees, stats: seq<Stat>, after: seq<Stat>, min: real, p: nat)
    requires Counted(s, stats, min, -1) && Decided(s, t, p) && t.nodes[p].kids.Kids? && |after| == |t.nodes|
    requires s.nodes[p].kids.Pending? || p < s.roots
    requires after[p].leafChildCnt == 0 && forall i :: s.Has(i) && i != p ==> after[i] == stats[i]
    ensures Counted(t, after, min, -1)
  {
    assert Good(s, p);
    forall x: nat | t.Has(x) ensures CountOk(t.nodes, after, min, -1, x) {
      if s.Has(x) && x != p {
        assert CountOk(s.nodes, stats, min, -1, x) && Good(s, x) && t.nodes[x] == s.nodes[x];
        if s.nodes[x].kids.Kids? { assert Good(s, s.nodes[x].kids.left) && Good(s, s.nodes[x].kids.right); }
      }
    }
  }

  lemma SameTakes(m: Node, n: Node, rows: seq<Row>, s: seq<nat>, q: seq<nat>)
    requires Takes(m, rows, s, q) && n.feature == m.feature && n.info == m.info && n.defaultLeft == m.defaultLeft
    ensures Takes(n, rows, s, q)
  {
    forall x | x in s ensures x < |rows| && (x in q <==> GoesLeft(n, rows[x]) != n.defaultLeft) {
      assert GoesLeft(n, rows[x]) == GoesLeft(m, rows[x]);
    }
  }

  lemma PartsOf(n: Node, rows: seq<Row>, s: seq<nat>, q: seq<nat>)
    requires Increasing(s) && Increasing(q) && AllIn(q, s) && Takes(n, rows, s, q)
    ensures Without(s, q) == Part(n, rows, s, n.defaultLeft) && q == Part(n, rows, s, !n.defaultLeft)
  {
    SplitRows(n, rows, s, q);
  }

  /** Two tasks one level down weigh less than the task they replace. */
  lemma LessRemains(s: Trees, t: Trees, start: seq<int>, rows: seq<Row>, initial: seq<nat>, idx: seq<nat>,
                    maxDepth: nat,
                    rest: seq<Task>, k: Task, def: Task, spl: Task)
    requires Stacked(s, start, rows, initial, idx, maxDepth, rest + [k]) && Decided(s, t, k.nid)
    requires k.nid < |s.depth| && s.depth[k.nid] < maxDepth
    requires var n := t.nodes[k.nid];
      n.kids.Kids? && ((def.nid == n.kids.left && spl.nid == n.kids.right) || (def.nid == n.kids.right
        && spl.nid == n.kids.left))
    ensures Remaining(t.depth, maxDepth, rest + [def, spl]) < Remaining(s.depth, maxDepth, rest + [k])
  {
    var all := rest + [k];
    forall i | 0 <= i < |rest|
      ensures rest[i].nid < |s.depth| && rest[i].nid < |t.depth| && t.depth[rest[i].nid] == s.depth[rest[i].nid]
    {
      assert all[i] == rest[i] && TaskOk(s, start, rows, initial, idx, maxDepth, all[i]);
    }
    RemainingSame(s.depth, t.depth, maxDepth, rest);
    ChildTasks(s, t, k.nid);
    RemainingPush(s.depth, maxDepth, rest, k);
    RemainingPush(t.depth, maxDepth, rest, def);
    RemainingPush(t.depth, maxDepth, rest + [def], spl);
    assert rest + [def] + [spl] == rest + [def, spl];
  }

  lemma NothingChosen(entry: seq<Entry>, sums: Sums, param: Param, rows: seq<Row>, s: seq<nat>, n: nat)
    requires InRange(rows, s)
    ensures Chosen(NoSplit, entry, sums, param, rows, s, n, 0)
  {
  }

  lemma ChosenNext(c: Candidate, next: Candidate, entry: seq<Entry>, lo: nat, hi: nat, sums: Sums, param: Param,
                   rows: seq<Row>, s: seq<nat>, f: nat, n: nat)
    requires InRange(rows, s) && Chosen(c, entry, sums, param, rows, s, n, lo) && lo <= hi <= |entry| && f < n
    requires entry[lo..hi] == SortColumn(ColumnRows(rows, s, f, |s|)) && IsColumn(rows, s, f, entry[lo..hi])
      && c.lossChg >= 0.0
    requires next == c || (next.lossChg > c.lossChg && next.feature == f && GoodSplit(next, entry, lo, hi)
      && Attained(next, sums, param, entry, lo, hi))
    ensures Chosen(next, entry, sums, param, rows, s, n, hi) && next.lossChg >= 0.0
  {
    if next == c {
      ChosenStays(c, entry, entry, sums, param, rows, s, n, lo, hi);
    } else {
      assert Picked(next, entry, lo, hi, sums, param, rows, s);
    }
  }

  lemma ColumnReady(entry: seq<Entry>, lo: nat, hi: nat, rows: seq<Row>, s: seq<nat>, f: nat)
    requires lo <= hi <= |entry| && SortedByValue(entry[lo..hi]) && IsColumn(rows, s, f, entry[lo..hi])
    ensures Sorted(entry, lo, hi) && forall j :: lo <= j < hi ==> entry[j].feature < |rows|
  {
    var col := entry[lo..hi];
    forall i, j | lo <= i < j < hi
      ensures entry[i].value <= entry[j].value
    {
      assert col[i - lo].value <= col[j - lo].value;
    }
    forall j | lo <= j < hi ensures entry[j].feature < |rows| { assert col[j - lo] == entry[j]; }
  }

  predicate GroupTask(k: Task, rptr: seq<nat>) {
    k.nid + 1 < |rptr| && k.lo == rptr[k.nid] && k.lo + k.len == rptr[k.nid + 1] && k.parentBaseWeight == 0.0
  }

  /** Every group that is not empty has its task. */
  lemma GroupsWeighed(w: Sample, t: Trees, stats: seq<Stat>, rptr: seq<nat>, idx: seq<nat>, tasks: seq<Task>)
    requires t.Ok() && t.roots == |t.nodes| && t.deleted == {} && |rptr| == t.roots + 1
    requires forall i, j :: 0 <= i <= j < |rptr| ==> rptr[i] <= rptr[j] <= |idx|
    requires forall g: nat :: g < t.roots ==>
      idx[rptr[g]..rptr[g + 1]] == Reaching(t.nodes, w.start, w.rows, w.taken, g, 0)
    requires forall k :: 0 <= k < |tasks| ==> GroupTask(tasks[k], rptr)
    requires forall i: nat :: i + 1 < |rptr| && rptr[i] < rptr[i + 1] ==> IsTask(tasks, i)
    ensures AllWeighed(w, t, stats, tasks)
    ensures forall p: nat :: t.Has(p) && !IsTask(tasks, p) ==> Unreached(w, t, p)
  {
    hide Reaching, IsTask;
    forall p: nat | p < t.roots && !IsTask(tasks, p) ensures RowsAt(w, t, p) == [] {
      assert Good(t, p);
      assert idx[rptr[p]..rptr[p + 1]] == Reaching(t.nodes, w.start, w.rows, w.taken, p, 0);
    }
    RootsWeighed(w, t, stats, tasks);
  }

  /** Tasks at roots of a fresh model, with the rows that start there. */
  lemma RootTasks(t: Trees, start: seq<int>, rows: seq<Row>, initial: seq<nat>, idx: seq<nat>, maxDepth: nat,
                  tasks: seq<Task>)
    requires t.Ok() && t.roots == |t.nodes| && t.deleted == {} && forall i :: 0 <= i < |t.nodes| ==> IsLeaf(t.nodes[i])
    requires |start| == |rows| && forall r :: 0 <= r < |start| ==> -1 <= start[r] < t.roots
    requires forall i :: 0 <= i < |tasks| ==>
      && tasks[i].nid < t.roots && tasks[i].lo + tasks[i].len <= |idx|
      && idx[tasks[i].lo..tasks[i].lo + tasks[i].len] == Reaching(t.nodes, start, rows, initial, tasks[i].nid, 0)
    requires forall i, j :: 0 <= i < j < |tasks| ==> Disjoint(tasks[i], tasks[j])
    ensures Stacked(t, start, rows, initial, idx, maxDepth, tasks)
  {
    hide Reaching;
    forall i | 0 <= i < |tasks| ensures TaskOk(t, start, rows, initial, idx, maxDepth, tasks[i]) {
      assert Good(t, tasks[i].nid);
    }
  }

  lemma FirstTask(t: Trees, start: seq<int>, rows: seq<Row>, initial: seq<nat>, idx: seq<nat>, maxDepth: nat, k: Task)
    requires t.Ok() && 1 <= t.roots == |t.nodes| && t.deleted == {}
      && forall i :: 0 <= i < |t.nodes| ==> IsLeaf(t.nodes[i])
    requires start == seq(|rows|, _ => 0) && idx == initial && InRange(rows, initial) && k == Task(0, 0, |initial|, 0.0)
    ensures Stacked(t, start, rows, initial, idx, maxDepth, [k])
  {
    assert Good(t, 0);
    AllAtRoot(t.nodes, start, rows, initial);
    assert idx[0..|idx|] == initial;
  }

  lemma NothingToCount(t: Trees, stats: seq<Stat>, min: real)
    requires t.Ok() && |t.nodes| == |stats| && forall p: nat :: t.Has(p) ==> IsLeaf(t.nodes[p])
    ensures Counted(t, stats, min, -1)
  {
  }

  lemma RootUncounted(t: Trees, stats: seq<Stat>, min: real, nid: nat)
    requires Counted(t, stats, min, nid) && t.Has(nid) && IsRoot(t.nodes[nid])
    ensures Counted(t, stats, min, -1)
  {
    forall p: nat | t.Has(p) ensures CountOk(t.nodes, stats, min, -1, p) {
      assert CountOk(t.nodes, stats, min, nid, p) && Good(t, p);
    }
  }

  lemma ParentIs(t: Trees, nid: nat)
    requires t.Ok() && t.Has(nid) && t.nodes[nid].link.ChildOf?
    ensures var p := t.nodes[nid].link.pid;
      && t.Has(p) && t.nodes[p].kids.Kids? && p < |t.depth| && nid < |t.depth| && t.depth[p] < t.depth[nid] && p != nid
      && t.Has(t.nodes[p].kids.left) && t.Has(t.nodes[p].kids.right) && t.nodes[p].kids.left != t.nodes[p].kids.right
      && (nid == t.nodes[p].kids.left || nid == t.nodes[p].kids.right)
      && t.nodes[t.nodes[p].kids.left].link == ChildOf(p, true)
         && t.nodes[t.nodes[p].kids.right].link == ChildOf(p, false)
  {
    assert Good(t, nid) && Good(t, t.nodes[nid].link.pid);
  }

  /** With two leaves counted, both children of the parent are leaves. */
  lemma BothAreLeaves(t: Trees, stats: seq<Stat>, min: real, nid: nat)
    requires Counted(t, stats, min, nid) && t.Has(nid) && IsLeaf(t.nodes[nid]) && t.nodes[nid].link.ChildOf?
    requires t.nodes[nid].link.pid < |stats| && stats[t.nodes[nid].link.pid].leafChildCnt + 1 >= 2
    ensures var p := t.nodes[nid].link.pid;
      && t.Has(p) && t.nodes[p].kids.Kids?
      && t.Has(t.nodes[p].kids.left) && IsLeaf(t.nodes[t.nodes[p].kids.left])
      && t.Has(t.nodes[p].kids.right) && IsLeaf(t.nodes[t.nodes[p].kids.right])
  {
    ParentIs(t, nid);
    assert CountOk(t.nodes, stats, min, nid, t.nodes[nid].link.pid);
  }

  lemma LeafCounted(t: Trees, stats: seq<Stat>, after: seq<Stat>, min: real, nid: nat)
    requires Counted(t, stats, min, nid) && t.Has(nid) && IsLeaf(t.nodes[nid]) && t.nodes[nid].link.ChildOf?
    requires var p := t.nodes[nid].link.pid;
      && p < |stats| && after == stats[p := stats[p].(leafChildCnt := stats[p].leafChildCnt + 1)]
      && (stats[p].leafChildCnt + 1 < 2 || stats[p].lossChg >= min)
    ensures Counted(t, after, min, -1)
  {
    ParentIs(t, nid);
    forall p: nat | t.Has(p) ensures CountOk(t.nodes, after, min, -1, p) {
      assert CountOk(t.nodes, stats, min, nid, p) && Good(t, p) && Good(t, nid);
    }
  }

  lemma CutCounts(s: Trees, t: Trees, stats: seq<Stat>, after: seq<Stat>, min: real, nid: nat, value: real)
    requires Counted(s, stats, min, nid) && s.Has(nid) && s.nodes[nid].link.ChildOf?
    requires var p := s.nodes[nid].link.pid;
      && Cut(s, t, p, value) && p < |stats| && after == stats[p := stats[p].(leafChildCnt := stats[p].leafChildCnt + 1)]
    ensures Counted(t, after, min, s.nodes[nid].link.pid) && t.Has(s.nodes[nid].link.pid)
      && IsLeaf(t.nodes[s.nodes[nid].link.pid])
  {
    var p := s.nodes[nid].link.pid;
    ParentIs(s, nid);
    forall x: nat | t.Has(x) ensures CountOk(t.nodes, after, min, p, x) {
      assert s.Has(x) && CountOk(s.nodes, stats, min, nid, x) && Good(s, x) && Good(s, p);
      if s.nodes[x].kids.Kids? { assert Good(s, s.nodes[x].kids.left) && Good(s, s.nodes[x].kids.right); }
    }
  }
}
