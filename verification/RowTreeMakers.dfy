/** RowTreeMaker of xgboost_row_treemaker.hpp: the rows of a node stand together in one array. */
module RowTreeMakers {
  import opened Csr
  import opened FMatrix
  import opened Forest
  import opened LeafWeights
  import opened LevelWeights
  import opened NodeColumns
  import opened NodeSplits
  import opened ReachingRows
  import opened Sorting
  import opened SplitCuts
  import opened SplitScans
  import opened TreeModels
  import opened TreeWalk
  import opened TreeGrowth
  import opened TreeLevels

  /** The rows of s that the split of n sends to the left, or to the right, in order. */
  function Part(n: Node, rows: seq<Row>, s: seq<nat>, left: bool): (r: seq<nat>)
    ensures |r| <= |s|
  {
    if s == [] then []
    else
      var front, last := Part(n, rows, s[..|s| - 1], left), s[|s| - 1];
      if last < |rows| && GoesLeft(n, rows[last]) == left then front + [last] else front
  }

  lemma PartNext(n: Node, rows: seq<Row>, s: seq<nat>, k: nat, left: bool)
    requires k < |s| && s[k] < |rows|
    ensures Part(n, rows, s[..k + 1], left)
      == Part(n, rows, s[..k], left) + if GoesLeft(n, rows[s[k]]) == left then [s[k]] else []
  {
    assert s[..k + 1][..k] == s[..k];
  }

  lemma NoParts(n: Node, rows: seq<Row>)
    ensures forall left :: Part(n, rows, [], left) == []
  {
  }

  lemma {:induction false} PartsAdd(n: Node, rows: seq<Row>, s: seq<nat>)
    requires forall k :: 0 <= k < |s| ==> s[k] < |rows|
    ensures |Part(n, rows, s, true)| + |Part(n, rows, s, false)| == |s|
    ensures forall left :: forall x :: x in Part(n, rows, s, left) ==> x in s
  {
    if s != [] { PartsAdd(n, rows, s[..|s| - 1]); }
  }

  /** The rows at a child are the part of the rows at its parent. */
  lemma {:induction false} ReachingChild(s: Trees, t: Trees, p: nat, start: seq<int>, rows: seq<Row>, list: seq<nat>,
                                         left: bool)
    requires Decided(s, t, p) && t.nodes[p].kids.Kids? && t.nodes[p].kids.left != t.nodes[p].kids.right
    requires |start| == |rows| && forall r :: 0 <= r < |start| ==> -1 <= start[r] < s.roots
    ensures var c := if left then t.nodes[p].kids.left else t.nodes[p].kids.right;
      Reaching(t.nodes, start, rows, list, c, s.depth[p] + 1)
      == Part(t.nodes[p], rows, Reaching(s.nodes, start, rows, list, p, s.depth[p]), left)
  {
    if list != [] {
      var n := |list| - 1;
      var last, front := list[n], Reaching(s.nodes, start, rows, list[..n], p, s.depth[p]);
      ReachingChild(s, t, p, start, rows, list[..n], left);
      if last < |rows| {
        WalkGrows(s, t, p, start[last], rows[last], s.depth[p] + 1);
        WalkLevel(s, start[last], rows[last], s.depth[p] + 1);
        assert (front + [last])[..|front|] == front;
      }
    }
  }

  /** lower and upper bound of a node's rows */
  datatype Bound = Bound(lo: nat, hi: nat)

  function BoundAt(rptr: seq<nat>, i: nat): Bound
    requires i + 1 < |rptr|
  {
    Bound(rptr[i], rptr[i + 1])
  }

  predicate Apart(a: Bound, b: Bound) { a.hi <= b.lo || b.hi <= a.lo }

  /** The rows of node p stand between its bounds. */
  predicate Holds(t: Trees, start: seq<int>, rows: seq<Row>, valid: seq<nat>, idx: seq<nat>, bound: map<nat, Bound>,
                  p: nat) {
    && p in bound && p < |t.depth| && bound[p].lo <= bound[p].hi <= |idx|
    && idx[bound[p].lo..bound[p].hi] == Reaching(t.nodes, start, rows, valid, p, t.depth[p])
  }

  /** Every open node holds exactly the rows whose walk has come to it, in their original order, and
      no two open nodes share a place of the array. */
  ghost predicate Partitioned(t: Trees, start: seq<int>, rows: seq<Row>, valid: seq<nat>, idx: seq<nat>,
                              bound: map<nat, Bound>) {
    && t.Ok() && |start| == |rows| && (forall r :: 0 <= r < |start| ==> -1 <= start[r] < t.roots)
    && (forall k :: 0 <= k < |idx| ==> idx[k] < |rows|)
    && (forall p: nat :: t.Open(p) ==> Holds(t, start, rows, valid, idx, bound, p))
    && (forall p: nat, q: nat :: t.Open(p) && t.Open(q) && p != q ==>
       p in bound && q in bound && Apart(bound[p], bound[q]))
  }

  /** A node that becomes a leaf keeps its rows. */
  lemma LeafKeeps(s: Trees, t: Trees, p: nat, start: seq<int>, rows: seq<Row>, valid: seq<nat>, idx: seq<nat>,
                  bound: map<nat, Bound>)
    requires Decided(s, t, p) && IsLeaf(t.nodes[p]) && Partitioned(s, start, rows, valid, idx, bound)
    ensures Partitioned(t, start, rows, valid, idx, bound)
  {
    forall q: nat | t.Open(q) ensures Holds(t, start, rows, valid, idx, bound, q) {
      assert Holds(s, start, rows, valid, idx, bound, q);
      ReachingStays(s, t, p, start, rows, valid, q);
    }
    assert forall q: nat :: t.Open(q) ==> s.Open(q);
  }

  /** Both parts hold rows of the range they were made from. */
  lemma RowsStayInRange(n: Node, rows: seq<Row>, idx: seq<nat>, now: seq<nat>, b: Bound, top: nat)
    requires b.lo <= top <= b.hi <= |idx| == |now| && forall k :: 0 <= k < |idx| ==> idx[k] < |rows|
    requires now[b.lo..top] == Part(n, rows, idx[b.lo..b.hi], true)
      && now[top..b.hi] == Part(n, rows, idx[b.lo..b.hi], false)
    requires forall k :: 0 <= k < |idx| && !(b.lo <= k < b.hi) ==> now[k] == idx[k]
    ensures forall k :: 0 <= k < |now| ==> now[k] < |rows|
  {
    hide Part;
    PartsAdd(n, rows, idx[b.lo..b.hi]);
    forall k | 0 <= k < |now| ensures now[k] < |rows| {
      if b.lo <= k < top { assert now[k] == now[b.lo..top][k - b.lo]; assert now[k] in idx[b.lo..b.hi]; }
      if top <= k < b.hi { assert now[k] == now[top..b.hi][k - top]; assert now[k] in idx[b.lo..b.hi]; }
    }
  }

  lemma SplitKeeps(s: Trees, t: Trees, p: nat, start: seq<int>, rows: seq<Row>, valid: seq<nat>,
                   idx: seq<nat>, bound: map<nat, Bound>, now: seq<nat>, next: map<nat, Bound>, top: nat)
    requires Decided(s, t, p) && t.nodes[p].kids.Kids? && Partitioned(s, start, rows, valid, idx, bound)
    requires var l, r := t.nodes[p].kids.left, t.nodes[p].kids.right;
      next == bound[l := Bound(bound[p].lo, top)][r := Bound(top, bound[p].hi)]
    requires var b := bound[p];
      && b.lo <= top <= b.hi && |now| == |idx|
      && now[b.lo..top] == Part(t.nodes[p], rows, idx[b.lo..b.hi], true)
      && now[top..b.hi] == Part(t.nodes[p], rows, idx[b.lo..b.hi], false)
      && (forall k :: 0 <= k < |idx| && !(b.lo <= k < b.hi) ==> now[k] == idx[k])
    ensures Partitioned(t, start, rows, valid, now, next)
  {
    hide Part, Reaching;
    var b, l, r := bound[p], t.nodes[p].kids.left, t.nodes[p].kids.right;
    assert Good(t, p) && Good(t, l) && Good(t, r) && Holds(s, start, rows, valid, idx, bound, p);
    ReachingChild(s, t, p, start, rows, valid, true);
    ReachingChild(s, t, p, start, rows, valid, false);
    PartsAdd(t.nodes[p], rows, idx[b.lo..b.hi]);
    RowsStayInRange(t.nodes[p], rows, idx, now, b, top);
    forall q: nat | t.Open(q) ensures Holds(t, start, rows, valid, now, next, q) {
      if q != l && q != r {
        assert s.Open(q) && q != p;
        assert Holds(s, start, rows, valid, idx, bound, q) && Apart(bound[p], bound[q]);
        ReachingStays(s, t, p, start, rows, valid, q);
        assert now[bound[q].lo..bound[q].hi] == idx[bound[q].lo..bound[q].hi];
      }
    }
    StillApart(s, t, p, start, rows, valid, idx, bound, next, top);
  }

  lemma StillApart(s: Trees, t: Trees, p: nat, start: seq<int>, rows: seq<Row>, valid: seq<nat>, idx: seq<nat>,
                   bound: map<nat, Bound>, next: map<nat, Bound>, top: nat)
    requires Decided(s, t, p) && t.nodes[p].kids.Kids? && Partitioned(s, start, rows, valid, idx, bound)
    requires var l, r := t.nodes[p].kids.left, t.nodes[p].kids.right;
      l != r && next == bound[l := Bound(bound[p].lo, top)][r := Bound(top, bound[p].hi)]
    requires p in bound && bound[p].lo <= top <= bound[p].hi
    ensures forall q: nat, x: nat :: t.Open(q) && t.Open(x) && q != x ==>
      q in next && x in next && Apart(next[q], next[x])
  {
    hide Reaching, NodeOk, Consistent;
    var l, r := t.nodes[p].kids.left, t.nodes[p].kids.right;
    forall q: nat, x: nat | t.Open(q) && t.Open(x) && q != x ensures q in next && x in next && Apart(next[q], next[x]) {
      assert Holds(s, start, rows, valid, idx, bound, p);
      if q != l && q != r { assert s.Open(q) && q != p && Apart(bound[p], bound[q])
        && Holds(s, start, rows, valid, idx, bound, q); }
      if x != l && x != r { assert s.Open(x) && x != p && Apart(bound[p], bound[x])
        && Holds(s, start, rows, valid, idx, bound, x); }
    }
  }

  /** Whether the rows of the level are in order: every leaf holds exactly the rows led to it. */
  lemma LeafRows(t: Trees, start: seq<int>, rows: seq<Row>, valid: seq<nat>, idx: seq<nat>, bound: map<nat, Bound>,
                 leaf: nat, r: nat)
    requires Partitioned(t, start, rows, valid, idx, bound) && t.Has(leaf) && IsLeaf(t.nodes[leaf])
    requires r in valid && r < |rows| && start[r] != -1
    ensures Holds(t, start, rows, valid, idx, bound, leaf)
    ensures r in idx[bound[leaf].lo..bound[leaf].hi] <==> LeadsTo(t.nodes, start[r], rows[r], leaf)
  {
    assert Holds(t, start, rows, valid, idx, bound, leaf);
    InReaching(t.nodes, start, rows, valid, leaf, t.depth[leaf], r);
    if LeadsTo(t.nodes, start[r], rows[r], leaf) {
      var d: nat :| WalkPos(t.nodes, start[r], rows[r], d) == leaf;
      WalkLevel(t, start[r], rows[r], d);
    }
  }

  /** Row r stands in the range of this leaf. */
  predicate InLeaf(t: Trees, idx: seq<nat>, bound: map<nat, Bound>, r: nat, leaf: nat) {
    && t.Has(leaf) && IsLeaf(t.nodes[leaf]) && leaf in bound && bound[leaf].lo <= bound[leaf].hi <= |idx|
    && r in idx[bound[leaf].lo..bound[leaf].hi]
  }

  /** With nothing pending every row that takes part stands in the range of the leaf its walk leads to, and in
      no other. */
  ghost predicate Covered(t: Trees, start: seq<int>, rows: seq<Row>, valid: seq<nat>, idx: seq<nat>,
                          bound: map<nat, Bound>) {
    |start| == |rows| && forall r: nat :: r in valid && r < |rows| && start[r] != -1 ==>
      && (exists leaf: nat :: InLeaf(t, idx, bound, r, leaf) && LeadsTo(t.nodes, start[r], rows[r], leaf))
      && forall x: nat, y: nat :: InLeaf(t, idx, bound, r, x) && InLeaf(t, idx, bound, r, y) ==> x == y
  }

  lemma RowsCovered(t: Trees, start: seq<int>, rows: seq<Row>, valid: seq<nat>, idx: seq<nat>, bound: map<nat, Bound>)
    requires Partitioned(t, start, rows, valid, idx, bound)
    requires forall p: nat :: t.Has(p) ==> !t.nodes[p].kids.Pending?
    ensures Covered(t, start, rows, valid, idx, bound)
  {
    hide Partitioned, Holds, LeadsTo, Reaching, NodeOk, Consistent;
    RowsStart(t, start, rows, valid, idx, bound);
    forall r: nat | r in valid && r < |rows| && start[r] != -1
      ensures exists leaf: nat :: InLeaf(t, idx, bound, r, leaf) && LeadsTo(t.nodes, start[r], rows[r], leaf)
      ensures forall x: nat, y: nat :: InLeaf(t, idx, bound, r, x) && InLeaf(t, idx, bound, r, y) ==> x == y
    {
      EveryWalkEnds(t, start[r], rows[r]);
      var leaf: nat :| LeadsTo(t.nodes, start[r], rows[r], leaf);
      LedIsLeaf(t, start[r], rows[r], leaf);
      LeafRows(t, start, rows, valid, idx, bound, leaf, r);
      HoldsIs(t, start, rows, valid, idx, bound, leaf);
      assert InLeaf(t, idx, bound, r, leaf);
      forall x: nat | InLeaf(t, idx, bound, r, x) ensures x == leaf {
        LeafRows(t, start, rows, valid, idx, bound, x, r);
        OneLeaf(t.nodes, start[r], rows[r], x, leaf);
      }
    }
  }

  lemma HoldsIs(t: Trees, start: seq<int>, rows: seq<Row>, valid: seq<nat>, idx: seq<nat>, bound: map<nat, Bound>,
                p: nat)
    requires Holds(t, start, rows, valid, idx, bound, p)
    ensures p in bound && bound[p].lo <= bound[p].hi <= |idx|
  {
  }

  lemma LedIsLeaf(t: Trees, root: int, row: Row, leaf: nat)
    requires t.Ok() && 0 <= root < t.roots && LeadsTo(t.nodes, root, row, leaf)
    ensures t.Has(leaf) && IsLeaf(t.nodes[leaf])
  {
    var d: nat :| WalkPos(t.nodes, root, row, d) == leaf;
    WalkLevel(t, root, row, d);
  }

  /** A single root holds all rows. */
  lemma OneRoot(t: Trees, start: seq<int>, rows: seq<Row>, valid: seq<nat>, bound: map<nat, Bound>)
    requires t.Ok() && t.roots == |t.nodes| == 1 && t.deleted == {} && IsLeaf(t.nodes[0])
    requires start == seq(|rows|, _ => 0) && bound == map[0 := Bound(0, |valid|)]
    requires forall k :: 0 <= k < |valid| ==> valid[k] < |rows|
    ensures Frontier(t, [0], 0) && Grown(t) && (forall p: nat :: t.Has(p) ==> p in [0])
    ensures Partitioned(t, start, rows, valid, valid, bound)
  {
    hide Reaching;
    assert Good(t, 0);
    AllAtRoot(t.nodes, start, rows, valid);
    assert valid[0..|valid|] == valid;
    assert Holds(t, start, rows, valid, valid, bound, 0);
    assert forall p: nat :: t.Has(p) ==> p == 0;
  }

  /** Every root holds its group. */
  lemma ManyRoots(t: Trees, start: seq<int>, rows: seq<Row>, valid: seq<nat>, rptr: seq<nat>, idx: seq<nat>,
                  bound: map<nat, Bound>, q: seq<nat>)
    requires t.Ok() && t.roots == |t.nodes| && t.deleted == {} && |start| == |rows|
    requires forall i :: 0 <= i < |t.nodes| ==> IsLeaf(t.nodes[i])
    requires forall r :: 0 <= r < |start| ==> -1 <= start[r] < t.roots
    requires q == seq(t.roots, i requires 0 <= i => i)
    requires |rptr| == t.roots + 1 && forall i, j :: 0 <= i <= j < |rptr| ==> rptr[i] <= rptr[j] <= |idx|
    requires forall g: nat :: g < t.roots ==>
      idx[rptr[g]..rptr[g + 1]] == Reaching(t.nodes, start, rows, valid, g, 0)
    requires forall k :: 0 <= k < |idx| ==> idx[k] < |rows|
    requires bound == map i: nat | i < t.roots :: BoundAt(rptr, i)
    ensures Frontier(t, q, 0) && Grown(t) && (forall p: nat :: t.Has(p) ==> p in q)
    ensures Partitioned(t, start, rows, valid, idx, bound)
  {
    hide Reaching;
    forall p: nat | t.Has(p) ensures p < t.roots && p in q && t.depth[p] == 0 {
      assert Good(t, p);
      assert q[p] == p;
    }
  }

  class RowTreeMaker {
    const tree: TreeModel
    const rows: seq<Row>
    const grad: seq<real>
    const hess: seq<real>
    const calcWeight: (real, real, real) -> real
    const calcRootGain: (real, real) -> real
    const param: Param
    const numFeature: nat
    const learningRate: real
    const rowIndexSet: array<nat>
    var snode: seq<NodeSums>
    var nodeBound: map<nat, Bound>
    var qexpand: seq<nat>
    var tmpRptr: seq<nat>
    ghost const start: seq<int>
    /** The rows that take part, in their original order. */
    ghost const valid: seq<nat>

    /** InitData with one root: rows with a negative hessian or left out by sampling take no part. */
    constructor (tree: TreeModel, rows: seq<Row>, numFeature: nat, grad: seq<real>, hess: seq<real>,
                 calcWeight: (real, real, real) -> real, calcRootGain: (real, real) -> real, param: Param,
                 learningRate: real, validIndex: seq<nat>)
      requires tree.Valid() && tree.numRoots == tree.numNodes == 1 && tree.deletedNodes == [] && IsLeaf(tree.nodes[0])
      requires |grad| == |hess| == |rows| && FeaturesBelow(rows, numFeature)
      requires forall k :: 0 <= k < |validIndex| ==> validIndex[k] < |rows|
      ensures this.tree == tree && fresh(rowIndexSet) && Fresh()
      ensures Data() == Sample(rows, seq(|rows|, _ => 0), validIndex, grad, hess, calcWeight, learningRate,
        calcRootGain,
        param, numFeature)
    {
      this.tree, this.rows, this.learningRate, this.valid := tree, rows, learningRate, validIndex;
      this.grad, this.hess, this.calcWeight, this.calcRootGain, this.snode := grad, hess, calcWeight, calcRootGain, [];
      this.param, this.numFeature, this.tmpRptr := param, numFeature, seq(numFeature + 1, _ => 0);
      start := seq(|rows|, _ => 0);
      rowIndexSet := new nat[|validIndex|](k requires 0 <= k < |validIndex| => validIndex[k]);
      nodeBound := map[0 := Bound(0, |validIndex|)];
      qexpand := [0];
      new;
      assert rowIndexSet[..] == validIndex;
      OneRoot(TreesOf(tree), start, rows, validIndex, nodeBound);
    }

    /** InitData with a root for every row: the builder groups the rows by root. */
    constructor WithRoots(tree: TreeModel, rows: seq<Row>, numFeature: nat, grad: seq<real>, hess: seq<real>,
                          calcWeight: (real, real, real) -> real, calcRootGain: (real, real) -> real, param: Param,
                          learningRate: real, validIndex: seq<nat>, rootIndex: seq<nat>)
      requires tree.Valid() && tree.numNodes == tree.numRoots && tree.deletedNodes == []
      requires forall i :: 0 <= i < tree.numNodes ==> IsLeaf(tree.nodes[i])
      requires |rootIndex| == |grad| == |hess| == |rows| && FeaturesBelow(rows, numFeature)
      requires forall r :: 0 <= r < |rows| ==> rootIndex[r] < tree.numRoots
      requires forall k :: 0 <= k < |validIndex| ==> validIndex[k] < |rows|
      ensures this.tree == tree && fresh(rowIndexSet) && Fresh()
      ensures Data() == Sample(rows, seq(|rows|, r requires 0 <= r < |rows| => rootIndex[r]), validIndex, grad, hess,
        calcWeight, learningRate, calcRootGain, param, numFeature)
    {
      this.tree, this.rows, this.learningRate, this.valid := tree, rows, learningRate, validIndex;
      this.grad, this.hess, this.calcWeight, this.calcRootGain, this.snode := grad, hess, calcWeight, calcRootGain, [];
      this.param, this.numFeature, this.tmpRptr := param, numFeature, seq(numFeature + 1, _ => 0);
      var roots := seq(|rows|, r requires 0 <= r < |rows| => rootIndex[r]);
      start := roots;
      var rptr, idx := GroupByRoot(tree, rows, validIndex, rootIndex, roots);
      rowIndexSet := new nat[|idx|](k requires 0 <= k < |idx| => idx[k]);
      nodeBound := map i: nat | i < tree.numRoots :: BoundAt(rptr, i);
      qexpand := seq(tree.numRoots, i requires 0 <= i => i);
      new;
      hide NodeOk, Consistent, Frontier, Partitioned, Grown, Reaching;
      assert rowIndexSet[..] == idx;
      ManyRoots(TreesOf(tree), start, rows, validIndex, rptr, idx, nodeBound, qexpand);
    }

    ghost function Data(): Sample {
      Sample(rows, start, valid, grad, hess, calcWeight, learningRate, calcRootGain, param, numFeature)
    }

    ghost predicate Static()
      reads this
    {
      |grad| == |hess| == |rows| && FeaturesBelow(rows, numFeature) && tmpRptr == seq(numFeature + 1, _ => 0)
    }

    /** Nothing has been decided yet. */
    ghost predicate Fresh()
      reads this, tree, rowIndexSet
    {
      AtLevel(0) && forall p: nat :: tree.IsLive(p) ==> p in qexpand
    }

    ghost predicate AtLevel(d: nat)
      reads this, tree, rowIndexSet
    {
      && Static() && tree.Valid() && Frontier(TreesOf(tree), qexpand, d) && Grown(TreesOf(tree))
      && Partitioned(TreesOf(tree), start, rows, valid, rowIndexSet[..], nodeBound)
    }

    /** Whether a row goes left: the first entry with the split feature decides. */
    method GoLeft(n: Node, row: Row) returns (goleft: bool)
      ensures goleft == GoesLeft(n, row)
    {
      goleft := n.defaultLeft;
      for k := 0 to |row|
        invariant Lookup(row[k..], n.feature) == Lookup(row, n.feature) && goleft == n.defaultLeft
      {
        assert row[k..][0] == row[k] && row[k..][1..] == row[k + 1..];
        if row[k].feature == n.feature {
          return row[k].value < n.info;
        }
      }
    }

    /** The rows that go left are moved to the front; the others are collected, and put back behind them. */
    method PartitionRows(n: Node, lo: nat, hi: nat) returns (middle: nat)
      requires lo <= hi <= rowIndexSet.Length && forall k :: lo <= k < hi ==> rowIndexSet[k] < |rows|
      modifies rowIndexSet
      ensures lo <= middle <= hi
      ensures rowIndexSet[lo..middle] == Part(n, rows, old(rowIndexSet[lo..hi]), true)
      ensures rowIndexSet[middle..hi] == Part(n, rows, old(rowIndexSet[lo..hi]), false)
      ensures forall k :: 0 <= k < rowIndexSet.Length && !(lo <= k < hi) ==> rowIndexSet[k] == old(rowIndexSet[k])
    {
      hide GoesLeft, Part;
      NoParts(n, rows);
      ghost var was, list := rowIndexSet[..], rowIndexSet[lo..hi];
      var right: seq<nat>, top: nat := [], lo;
      for i := lo to hi
        invariant lo <= top <= i && |right| == i - top
        invariant rowIndexSet[lo..top] == Part(n, rows, list[..i - lo], true)
          && right == Part(n, rows, list[..i - lo], false)
        invariant forall k :: 0 <= k < |was| && !(lo <= k < i) ==> rowIndexSet[k] == was[k]
      {
        var ridx := rowIndexSet[i];
        PartNext(n, rows, list, i - lo, true);
        PartNext(n, rows, list, i - lo, false);
        assert list[i - lo] == ridx;
        var goleft := GoLeft(n, rows[ridx]);
        if goleft {
          PutFront(ridx, top, lo);
          top := top + 1;
        } else {
          right := right + [ridx];
        }
      }
      assert list[..hi - lo] == list;
      middle := top;
      PutBack(right, middle, lo);
    }

    method PutFront(ridx: nat, top: nat, ghost lo: nat)
      requires lo <= top < rowIndexSet.Length
      modifies rowIndexSet
      ensures rowIndexSet[lo..top + 1] == old(rowIndexSet[lo..top]) + [ridx]
      ensures forall k :: 0 <= k < rowIndexSet.Length && k != top ==> rowIndexSet[k] == old(rowIndexSet[k])
    {
      rowIndexSet[top] := ridx;
    }

    method PutBack(right: seq<nat>, middle: nat, ghost lo: nat)
      requires lo <= middle && middle + |right| <= rowIndexSet.Length
      modifies rowIndexSet
      ensures rowIndexSet[middle..middle + |right|] == right && rowIndexSet[lo..middle] == old(rowIndexSet[lo..middle])
      ensures forall k :: 0 <= k < rowIndexSet.Length && !(middle <= k < middle + |right|) ==>
        rowIndexSet[k] == old(rowIndexSet[k])
    {
      var top := middle;
      for i := 0 to |right|
        invariant top == middle + i && forall k :: 0 <= k < i ==> rowIndexSet[middle + k] == right[k]
        invariant forall k :: 0 <= k < rowIndexSet.Length && !(middle <= k < top) ==>
          rowIndexSet[k] == old(rowIndexSet[k])
      {
        rowIndexSet[top] := right[i];
        top := top + 1;
      }
    }

    /** MakeSplit: the rows of a split node are divided between its children, in order. */
    method MakeSplit(nid: nat, ghost s: Trees)
      requires tree.Valid() && Decided(s, TreesOf(tree), nid) && tree.nodes[nid].kids.Kids?
      requires Partitioned(s, start, rows, valid, rowIndexSet[..], nodeBound)
      modifies this`nodeBound, rowIndexSet
      ensures Partitioned(TreesOf(tree), start, rows, valid, rowIndexSet[..], nodeBound)
    {
      hide Reaching, GoesLeft, NodeOk, Consistent, Part;
      ghost var was, bound := rowIndexSet[..], nodeBound;
      assert Holds(s, start, rows, valid, was, bound, nid);
      var n, lo, hi := tree.nodes[nid], nodeBound[nid].lo, nodeBound[nid].hi;
      assert forall k :: lo <= k < hi ==> was[k] < |rows|;
      var top := PartitionRows(n, lo, hi);
      nodeBound := nodeBound[n.kids.left := Bound(lo, top)];
      nodeBound := nodeBound[n.kids.right := Bound(top, hi)];
      SplitKeeps(s, TreesOf(tree), nid, start, rows, valid, was, bound, rowIndexSet[..], nodeBound, top);
    }

    /** EnumerateSplit over an iterator: the best split with what is met so far on one side. It returns early when
        the rest is too light. */
    method EnumerateSplit(it: seq<Entry>, best: SplitEntry, s: Sums, feature: nat, forward: bool)
      returns (r: SplitEntry)
      requires Known(s, it)
      ensures Passed(s, param, it, best, r, feature, forward)
    {
      var sumGrad, sumHess, lastValue := 0.0, 0.0, 0.0;
      r := best;
      ghost var e := ThreadEntry(0.0, 0.0, 0.0, best);
      hide Scan, Known;
      ScanStart(s, param, e, it, feature, forward);
      for k := 0 to |it|
        invariant Known(s, it[..k])
        invariant ThreadEntry(sumGrad, sumHess, lastValue, r) == Scan(s, param, e, it[..k], feature, forward)
      {
        ScanNext(s, param, e, it, k, feature, forward);
        var ridx, value := it[k].feature, it[k].value;
        if sumHess == 0.0 {
          sumGrad, sumHess, lastValue := s.grad[ridx], s.hess[ridx], value;
        } else {
          if Abs(value - lastValue) > 2.0 * RT_EPS && sumHess >= param.minChildWeight {
            var csumHess := s.rsumHess - sumHess;
            if csumHess >= param.minChildWeight {
              var lossChg := param.gain(sumGrad, sumHess, s.weight)
                + param.gain(s.rsumGrad - sumGrad, csumHess, s.weight) - s.rootGain;
              r := Update(r, SplitEntry(lossChg, feature, 0.5 * (value + lastValue), !forward));
            } else {
              assert Stops(s, param, it, k, best, feature, forward);
              return;
            }
          }
          sumGrad, sumHess, lastValue := sumGrad + s.grad[ridx], sumHess + s.hess[ridx], value;
        }
      }
      assert it[..|it|] == it;
      var csumHess := s.rsumHess - sumHess;
      if sumHess >= param.minChildWeight && csumHess >= param.minChildWeight {
        var lossChg := param.gain(sumGrad, sumHess, s.weight)
          + param.gain(s.rsumGrad - sumGrad, csumHess, s.weight) - s.rootGain;
        r := Update(r, SplitEntry(lossChg, feature, lastValue + (if forward then RT_EPS else -RT_EPS), !forward));
      }
    }

    /** One active feature: sort its column, and look for its best split in both directions. */
    method SearchFeature(builder: Builder<Entry>, columns: seq<Entry>, list: seq<nat>, s: Sums, f: nat,
                         tbest: SplitEntry, centry: seq<Entry>, ghost done: nat)
      returns (next: SplitEntry, after: seq<Entry>, ghost hi: nat)
      requires InRange(rows, list) && |s.grad| == |s.hess| == |rows|
      requires ColumnsAre(builder, columns, rows, list, numFeature) && Active(builder.budget, f) && f < numFeature
        && done <= Start(builder.budget, f)
      requires SameFrom(centry, columns, done)
      ensures hi == Start(builder.budget, f + 1) <= |columns| && SameFrom(after, columns, hi)
      ensures next.lossChg >= tbest.lossChg && (next == tbest || next.feature == f)
      ensures var col := SortColumn(ColumnRows(rows, list, f, |list|));
        Regular(s, param, col) ==> ColumnSearched(tbest, next, s, param, col, f)
    {
      hide ColumnRows, SortColumn, Start, SameFrom, SortedByValue, Known, Regular, Passed, Among, ColumnSearched;
      var lo, to := builder.rptr[f], builder.rptr[f + 1];
      hi := to;
      SameLength(centry, columns, done);
      SameSegment(centry, columns, done, lo, to);
      after := SortSegment(centry, lo, to);
      SameBehind(centry, after, columns, done, lo, to);
      ColumnKnown(s, rows, list, f);
      next := SearchColumn(after[lo..to], tbest, s, f);
    }

    /** Forward and backward over one sorted column */
    method SearchColumn(col: seq<Entry>, tbest: SplitEntry, s: Sums, f: nat) returns (next: SplitEntry)
      requires Known(s, col) && SortedByValue(col) && col != []
      ensures next.lossChg >= tbest.lossChg && (next == tbest || next.feature == f)
      ensures Regular(s, param, col) ==> ColumnSearched(tbest, next, s, param, col, f)
    {
      hide SortedByValue, Known, Regular, Passed, Among, ColumnSearched, Reverse;
      next := tbest;
      ReversedKnown(s, param, col);
      if param.forward {
        next := EnumerateSplit(col, next, s, f, true);
        PassedKeeps(s, param, col, tbest, next, f, true);
        if Regular(s, param, col) { PassedIsBest(s, param, col, tbest, next, f, true); }
      }
      ghost var mid := next;
      if param.backward {
        next := EnumerateSplit(Reverse(col), next, s, f, false);
        PassedKeeps(s, param, Reverse(col), mid, next, f, false);
        if Regular(s, param, col) { PassedIsBest(s, param, Reverse(col), mid, next, f, false); }
      }
      if Regular(s, param, col) { BothPasses(tbest, mid, next, s, param, col, f); }
    }

    /** The loop over the active features. */
    method BestSplit(builder: Builder<Entry>, columns: seq<Entry>, list: seq<nat>, s: Sums) returns (tbest: SplitEntry)
      requires builder.useAcList && builder.Pushing() && |builder.budget| == numFeature
      requires InRange(rows, list) && |s.grad| == |s.hess| == |rows|
      requires Increasing(builder.aclist) && ColumnsAre(builder, columns, rows, list, numFeature)
      requires forall f: nat :: f < numFeature && !Active(builder.budget, f) ==> ColumnRows(rows, list, f, |list|) == []
      ensures tbest.lossChg >= 0.0 && (tbest.lossChg > 0.0 ==> tbest.feature < numFeature)
      ensures RegularRows(s, param, list) ==> BestEntry(tbest, s, param, rows, list, numFeature)
    {
      hide ColumnRows, InRange, Increasing, SortColumn, Start, NoBetter, SearchedTo, SameFrom, ColumnsAre, Active;
      hide LowestTo, Lowest, FoundEntry, RegularRows, ColumnSearched, Regular, NoBetterSplit;
      NothingSearched(NoEntry.lossChg, s, param, rows, list, builder.aclist);
      NothingFound(s, param, rows, list, numFeature);
      var centry := columns;
      tbest := NoEntry;
      AllSame(columns);
      ghost var done: nat := 0;
      for i := 0 to |builder.aclist|
        invariant tbest.lossChg >= 0.0 && (tbest.lossChg > 0.0 ==> tbest.feature < numFeature)
        invariant 0 < i ==> builder.aclist[i - 1] < |builder.budget|
        invariant done == if i == 0 then 0 else Start(builder.budget, builder.aclist[i - 1] + 1)
        invariant SameFrom(centry, columns, done) && done <= |columns|
        invariant RegularRows(s, param, list) ==>
          FoundEntry(tbest, s, param, rows, list, numFeature)
          && SearchedTo(tbest.lossChg, s, param, rows, list, builder.aclist, i)
          && LowestTo(tbest, s, param, rows, list, builder.aclist, i)
      {
        var f := builder.aclist[i];
        assert f in builder.aclist;
        Behind(builder.budget, builder.aclist, i);
        ghost var was := tbest;
        tbest, centry, done := SearchFeature(builder, columns, list, s, f, tbest, centry, done);
        if RegularRows(s, param, list) {
          ColumnRegular(s, param, rows, list, f);
          EntryNext(was, tbest, s, param, rows, list, builder.aclist, i, numFeature);
        }
      }
      if RegularRows(s, param, list) {
        SearchedAll(tbest.lossChg, s, param, rows, list, builder.aclist, numFeature);
        LowestAll(tbest, s, param, rows, list, builder.aclist, numFeature);
      }
    }

    /** The first part of FindSplit: the columns of the rows of the node, and the best of all their cuts. */
    method SearchSplit(nid: nat) returns (best: SplitEntry)
      requires Static() && tree.Valid() && TreesOf(tree).Open(nid) && nid < |snode|
      requires Partitioned(TreesOf(tree), start, rows, valid, rowIndexSet[..], nodeBound)
      requires Summed(Data(), TreesOf(tree), tree.stats, snode, nid)
      modifies this`tmpRptr
      ensures Static() && (best.lossChg > RT_EPS ==> best.feature < numFeature)
      ensures Sought(Data(), TreesOf(tree), tree.stats, best, nid)
    {
      hide NodeOk, Consistent, Reaching, ColumnRows, BestEntry, FeaturesBelow, ParentWeight;
      assert Holds(TreesOf(tree), start, rows, valid, rowIndexSet[..], nodeBound, nid);
      var begin, end := nodeBound[nid].lo, nodeBound[nid].hi;
      var list := rowIndexSet[begin..end];
      assert InRange(rows, list);
      var builder := new Builder<Entry>(tmpRptr, true);
      builder.InitBudget(numFeature);
      CountEntries(builder, rows, list, numFeature);
      var columns := BuildColumns(builder, rows, list, numFeature);
      var s := SumsIn(grad, hess, snode[nid]);
      var nbest := BestSplit(builder, columns, list, s);
      HandedOn(nbest, s, param, rows, list, numFeature);
      best := Update(NoEntry, nbest);
      HandedOn(best, s, param, rows, list, numFeature);
      best := Update(NoEntry, best);
      builder.Finish();
      tmpRptr := builder.rptr;
    }

    /** The second part of FindSplit: the node follows the best split, and its rows are divided. */
    method FollowSplit(nid: nat, e: SplitEntry, value: real)
      requires tree.Valid() && TreesOf(tree).Open(nid)
      requires Partitioned(TreesOf(tree), start, rows, valid, rowIndexSet[..], nodeBound)
      modifies this`nodeBound, rowIndexSet, tree
      ensures tree.Valid() && Decided(old(TreesOf(tree)), TreesOf(tree), nid) && DecidedAs(TreesOf(tree), nid, e)
      ensures IsLeaf(tree.nodes[nid]) ==> tree.nodes[nid].info == value
      ensures KeepsWeights(old(TreesOf(tree)), old(tree.stats), tree.stats, -1) && tree.numRoots == old(tree.numRoots)
      ensures Partitioned(TreesOf(tree), start, rows, valid, rowIndexSet[..], nodeBound)
      ensures old(Grown(TreesOf(tree))) ==> Grown(TreesOf(tree))
    {
      hide NodeOk, Consistent, Partitioned, Grown, KeepsWeights;
      ghost var s := TreesOf(tree);
      DecideNode(tree, nid, e, value);
      ghost var t := TreesOf(tree);
      DecidedOnce(s, t, nid, e);
      if tree.nodes[nid].kids.Kids? {
        MakeSplit(nid, s);
      } else {
        LeafKeeps(s, t, nid, start, rows, valid, rowIndexSet[..], nodeBound);
      }
    }

    /** FindSplit of one node */
    method FindSplit(nid: nat) returns (e: SplitEntry)
      requires Static() && tree.Valid() && TreesOf(tree).Open(nid) && nid < |snode|
      requires Partitioned(TreesOf(tree), start, rows, valid, rowIndexSet[..], nodeBound)
      requires Summed(Data(), TreesOf(tree), tree.stats, snode, nid)
      modifies this`nodeBound, this`tmpRptr, rowIndexSet, tree
      ensures Static() && Sought(Data(), old(TreesOf(tree)), old(tree.stats), e, nid)
      ensures tree.Valid() && Decided(old(TreesOf(tree)), TreesOf(tree), nid) && DecidedAs(TreesOf(tree), nid, e)
      ensures IsLeaf(tree.nodes[nid]) ==> tree.nodes[nid].info == learningRate * snode[nid].weight
      ensures KeepsWeights(old(TreesOf(tree)), old(tree.stats), tree.stats, -1) && tree.numRoots == old(tree.numRoots)
      ensures Partitioned(TreesOf(tree), start, rows, valid, rowIndexSet[..], nodeBound)
      ensures old(Grown(TreesOf(tree))) ==> Grown(TreesOf(tree))
    {
      hide NodeOk, Consistent, Partitioned, Grown, KeepsWeights, Sought, Summed, Decided, DecidedAs;
      e := SearchSplit(nid);
      FollowSplit(nid, e, snode[nid].weight * learningRate);
    }

    /** In the middle of level d, which began with the forest s, the first i nodes have been decided. */
    ghost predicate Splitting(s: Trees, best: nat -> SplitEntry, i: nat, d: nat)
      reads this, tree, rowIndexSet
    {
      && i <= |qexpand| && Static() && tree.Valid() && Grown(TreesOf(tree)) && tree.numRoots == s.roots
      && StartsAtRoots(Data(), s.roots)
      && MidLevel(s, TreesOf(tree), qexpand, Entries(best, qexpand), i, d)
      && MidGrowth(Data(), TreesOf(tree), tree.stats, snode, best, qexpand[i..], d)
      && Partitioned(TreesOf(tree), start, rows, valid, rowIndexSet[..], nodeBound)
    }

    /** FindSplit of the next node of the level */
    method SplitNext(i: nat, before: nat -> SplitEntry, ghost s: Trees, ghost d: nat) returns (best: nat -> SplitEntry)
      requires i < |qexpand| && Splitting(s, before, i, d)
      modifies this`nodeBound, this`tmpRptr, rowIndexSet, tree
      ensures Splitting(s, best, i + 1, d)
    {
      hide NodeOk, Consistent, Partitioned, MidLevel, Decided, Grown, MidGrowth, KeepsWeights, Sought, Summed, Follows,
        StartsAtRoots, DecidedAs, With;
      ghost var t, stats := TreesOf(tree), tree.stats;
      var nid := qexpand[i];
      NextIsOpen(s, t, qexpand, Entries(before, qexpand), i, d);
      NextIsSummed(Data(), t, stats, snode, before, qexpand, i, d);
      var e := FindSplit(nid);
      best := With(before, nid, e);
      LevelGoesOn(Data(), s, t, TreesOf(tree), stats, tree.stats, snode, before, e, qexpand, i, d);
    }

    /** One level: FindSplit of all its nodes, then UpdateQueueExpand. */
    method GrowLevel(before: nat -> SplitEntry, ghost d: nat) returns (best: nat -> SplitEntry)
      requires AtLevel(d) && AllSummed(Data(), TreesOf(tree), tree.stats, snode, qexpand)
      requires AllGrew(Data(), TreesOf(tree), tree.stats, before, qexpand, d)
      modifies this`nodeBound, this`qexpand, this`tmpRptr, rowIndexSet, tree
      ensures AtLevel(d + 1) && AllGrew(Data(), TreesOf(tree), tree.stats, best, qexpand, d + 1)
    {
      hide NodeOk, Consistent, Partitioned, MidLevel, Grown, MidGrowth, AllSummed, AllGrew, Frontier;
      best := before;
      ghost var s, q := TreesOf(tree), qexpand;
      RowsStart(s, start, rows, valid, rowIndexSet[..], nodeBound);
      StartLevel(s, q, Entries(best, q), d);
      GrowthStarts(Data(), s, tree.stats, snode, best, q, d);
      assert q[0..] == q;
      for i := 0 to |qexpand|
        invariant qexpand == q && Splitting(s, best, i, d)
      {
        best := SplitNext(i, best, s, d);
      }
      NextLevel(s, TreesOf(tree), q, Entries(best, q), d);
      assert q[|q|..] == [];
      GrowthEnds(Data(), TreesOf(tree), tree.stats, snode, best, ChildrenOf(tree.nodes, q), d);
      InForest(s, TreesOf(tree), q, Entries(best, q), d);
      qexpand := Children(tree.nodes, qexpand);
    }

    method Children(nodes: seq<Node>, q: seq<nat>) returns (newnodes: seq<nat>)
      requires forall j :: 0 <= j < |q| ==> q[j] < |nodes|
      ensures newnodes == ChildrenOf(nodes, q)
    {
      newnodes := [];
      for i := 0 to |q|
        invariant newnodes == ChildrenOf(nodes, q[..i])
      {
        assert q[..i + 1][..i] == q[..i];
        if nodes[q[i]].kids.Kids? {
          newnodes := newnodes + [nodes[q[i]].kids.left, nodes[q[i]].kids.right];
        }
      }
      assert q[..|q|] == q;
    }

    /** InitNewNode: the gradients of the rows of every node of the level are added up, which gives its weight. */
    method InitNewNode(ghost d: nat, ghost best: nat -> SplitEntry)
      requires AtLevel(d) && AllGrew(Data(), TreesOf(tree), tree.stats, best, qexpand, d)
      modifies this`snode, tree`stats
      ensures AtLevel(d) && |snode| == |tree.nodes| && TreesOf(tree) == old(TreesOf(tree))
      ensures AllSummed(Data(), TreesOf(tree), tree.stats, snode, qexpand)
      ensures AllGrew(Data(), TreesOf(tree), tree.stats, best, qexpand, d)
    {
      hide NodeOk, Consistent, Partitioned, Grown, AllSummed, AllGrew, RowsAt, SumRow, Frontier;
      ghost var t := TreesOf(tree);
      FrontierIs(t, qexpand, d);
      var before := snode;
      snode := seq(|tree.nodes|, i requires 0 <= i => if i < |before| then before[i] else NoSums);
      NothingSummed(Data(), t, tree.stats, snode, qexpand);
      for j := 0 to |qexpand|
        invariant AtLevel(d) && |snode| == |tree.nodes| && TreesOf(tree) == t
        invariant OnlyOpen(t, old(tree.stats), tree.stats)
        invariant AllSummed(Data(), t, tree.stats, snode, qexpand[..j])
      {
        var nid := qexpand[j];
        ghost var stats, was := tree.stats, snode;
        var sumGrad, sumHess := SumsAt(nid);
        snode := StoreSums(tree, snode, nid, sumGrad, sumHess, calcWeight, calcRootGain);
        SumsStored(Data(), t, stats, tree.stats, was, snode, qexpand, j);
      }
      assert qexpand[..|qexpand|] == qexpand;
      StillGrew(Data(), t, old(tree.stats), tree.stats, best, qexpand, d);
    }

    /** The loop of InitNewNode over the rows of a node */
    method SumsAt(nid: nat) returns (sumGrad: real, sumHess: real)
      requires |grad| == |hess| == |rows| && TreesOf(tree).Open(nid)
      requires Partitioned(TreesOf(tree), start, rows, valid, rowIndexSet[..], nodeBound)
      ensures var list := RowsAt(Data(), TreesOf(tree), nid);
        sumGrad == SumRow(grad, list, |list|) && sumHess == SumRow(hess, list, |list|)
    {
      hide NodeOk, Consistent, Reaching;
      assert Holds(TreesOf(tree), start, rows, valid, rowIndexSet[..], nodeBound, nid);
      var lo, hi := nodeBound[nid].lo, nodeBound[nid].hi;
      ghost var list := rowIndexSet[..][lo..hi];
      sumGrad, sumHess := 0.0, 0.0;
      for i := lo to hi
        invariant sumGrad == SumRow(grad, list, i - lo) && sumHess == SumRow(hess, list, i - lo)
      {
        var ridx := rowIndexSet[i];
        assert list[i - lo] == ridx == rowIndexSet[..][i] < |rows|;
        sumGrad, sumHess := sumGrad + grad[ridx], sumHess + hess[ridx];
      }
    }

    /** Make up to the pruning: afterwards every node above the deepest level is split exactly when its best
        split gains enough; the rows of every leaf stand together, in order; they are exactly the rows that
        GetLeafIndex leads to it, and the leaf holds their weight. */
    method Make(maxDepth: nat) returns (best: nat -> SplitEntry)
      requires Fresh()
      modifies this`nodeBound, this`qexpand, this`snode, this`tmpRptr, rowIndexSet, tree
      ensures tree.Valid() && Grown(TreesOf(tree)) && |snode| == |tree.nodes|
      ensures AllMade(Data(), TreesOf(tree), tree.stats, best, maxDepth, [])
      ensures Partitioned(TreesOf(tree), start, rows, valid, rowIndexSet[..], nodeBound)
      ensures Covered(TreesOf(tree), start, rows, valid, rowIndexSet[..], nodeBound)
    {
      hide NodeOk, Consistent, Partitioned, Covered, Grown, AllSummed, Summed, Grew, Weighed, AllMade;
      best := (n: nat) => NoEntry;
      ghost var d: nat := 0;
      InitNewNode(d, best);
      for depth := 0 to maxDepth
        invariant AtLevel(d) && d == depth && |snode| == |tree.nodes|
        invariant AllSummed(Data(), TreesOf(tree), tree.stats, snode, qexpand)
        invariant AllGrew(Data(), TreesOf(tree), tree.stats, best, qexpand, d)
      {
        best := GrowLevel(best, d);
        d := d + 1;
        InitNewNode(d, best);
        if |qexpand| == 0 { break; }
      }
      FinishLeaves(best, maxDepth, d);
      MadeIsClosed(Data(), TreesOf(tree), tree.stats, best, maxDepth);
      RowsCovered(TreesOf(tree), start, rows, valid, rowIndexSet[..], nodeBound);
    }

    /** The nodes left over become leaves. */
    method FinishLeaves(ghost best: nat -> SplitEntry, ghost maxDepth: nat, ghost d: nat)
      requires AtLevel(d) && d <= maxDepth && (d == maxDepth || qexpand == [])
      requires AllSummed(Data(), TreesOf(tree), tree.stats, snode, qexpand)
      requires AllGrew(Data(), TreesOf(tree), tree.stats, best, qexpand, d)
      modifies tree
      ensures tree.Valid() && Grown(TreesOf(tree)) && |tree.nodes| == old(|tree.nodes|)
      ensures AllMade(Data(), TreesOf(tree), tree.stats, best, maxDepth, [])
      ensures Partitioned(TreesOf(tree), start, rows, valid, rowIndexSet[..], nodeBound)
    {
      hide NodeOk, Consistent, Partitioned, Grown, AllSummed, AllGrew, AllMade, Frontier, Finishing, Decided;
      ghost var roots := tree.numRoots;
      RowsStart(TreesOf(tree), start, rows, valid, rowIndexSet[..], nodeBound);
      NearlyMade(Data(), TreesOf(tree), tree.stats, best, maxDepth, qexpand, d);
      FinishingStarts(TreesOf(tree), qexpand, d);
      assert qexpand[0..] == qexpand;
      for i := 0 to |qexpand|
        invariant tree.Valid() && tree.numRoots == roots && Grown(TreesOf(tree)) && |tree.nodes| == old(|tree.nodes|)
        invariant Partitioned(TreesOf(tree), start, rows, valid, rowIndexSet[..], nodeBound)
        invariant Finishing(TreesOf(tree), qexpand, i, d)
        invariant AllMade(Data(), TreesOf(tree), tree.stats, best, maxDepth, qexpand[i..])
        invariant AllSummed(Data(), TreesOf(tree), tree.stats, snode, qexpand[i..])
      {
        ghost var s, stats := TreesOf(tree), tree.stats;
        var nid := qexpand[i];
        assert qexpand[i..] == [nid] + qexpand[i + 1..];
        FirstIsSummed(Data(), s, stats, snode, nid, qexpand[i + 1..]);
        FinishingIs(s, qexpand, i, d);
        MakeLeaf(tree, nid, snode[nid].weight * learningRate);
        LeafKeeps(s, TreesOf(tree), nid, start, rows, valid, rowIndexSet[..], nodeBound);
        OneMoreMade(Data(), s, TreesOf(tree), stats, tree.stats, snode, best, maxDepth, nid, qexpand[i + 1..]);
        FinishingNext(s, TreesOf(tree), qexpand, i, d);
        RowsStart(TreesOf(tree), start, rows, valid, rowIndexSet[..], nodeBound);
      }
    }
  }

  /** The next node of the level follows the split e that was found for it. */
  lemma LevelGoesOn(w: Sample, s: Trees, t: Trees, u: Trees, stats: seq<Stat>, after: seq<Stat>, snode: seq<NodeSums>,
                    before: nat -> SplitEntry, e: SplitEntry, q: seq<nat>, i: nat, d: nat)
    requires i < |q| && MidLevel(s, t, q, Entries(before, q), i, d) && MidGrowth(w, t, stats, snode, before, q[i..], d)
    requires StartsAtRoots(w, t.roots) && LevelOf(t, q[i]) == d && q[i] < |snode|
    requires Sought(w, t, stats, e, q[i]) && Decided(t, u, q[i]) && DecidedAs(u, q[i], e)
    requires KeepsWeights(t, stats, after, -1) && |after| == |u.nodes|
    requires IsLeaf(u.nodes[q[i]]) ==> u.nodes[q[i]].info == w.rate * snode[q[i]].weight
    ensures var best := With(before, q[i], e);
      MidLevel(s, u, q, Entries(best, q), i + 1, d) && MidGrowth(w, u, after, snode, best, q[i + 1..], d)
  {
    hide NodeOk, Consistent, MidLevel, Decided, MidGrowth, KeepsWeights, Sought, Follows, StartsAtRoots;
    var best := With(before, q[i], e);
    assert q[i..] == [q[i]] + q[i + 1..] && q[i] in q[i..];
    OneMoreEntry(s, t, q, before, best, i, d);
    OtherMidEntries(w, t, stats, snode, before, best, q[i..], d);
    NextInLevel(s, t, u, q, Entries(best, q), i, d);
    GrowthGoesOn(w, t, u, stats, after, snode, best, q[i], q[i + 1..], d);
  }

  lemma RowsStart(t: Trees, start: seq<int>, rows: seq<Row>, valid: seq<nat>, idx: seq<nat>, bound: map<nat, Bound>)
    requires Partitioned(t, start, rows, valid, idx, bound)
    ensures t.Ok() && |start| == |rows| && forall r :: 0 <= r < |start| ==> -1 <= start[r] < t.roots
  {
  }

  lemma InForest(s: Trees, t: Trees, q: seq<nat>, best: seq<SplitEntry>, d: nat)
    requires |q| == |best| && MidLevel(s, t, q, best, |q|, d)
    ensures forall j :: 0 <= j < |q| ==> q[j] < |t.nodes|
  {
  }

  lemma {:induction false} AllAtRoot(nodes: seq<Node>, start: seq<int>, rows: seq<Row>, s: seq<nat>)
    requires |start| == |rows| && (forall r :: 0 <= r < |start| ==> start[r] == 0)
      && forall k :: 0 <= k < |s| ==> s[k] < |rows|
    ensures Reaching(nodes, start, rows, s, 0, 0) == s
  {
    if s != [] { AllAtRoot(nodes, start, rows, s[..|s| - 1]); }
  }

  /** The grouping of the rows by root that InitData asks of the builder. */
  method GroupByRoot(tree: TreeModel, rows: seq<Row>, validIndex: seq<nat>, rootIndex: seq<nat>, ghost start: seq<int>)
    returns (rptr: seq<nat>, idx: seq<nat>)
    requires tree.Valid() && |rootIndex| == |rows| == |start|
    requires forall r :: 0 <= r < |rows| ==> rootIndex[r] < tree.numRoots && start[r] == rootIndex[r]
    requires forall k :: 0 <= k < |validIndex| ==> validIndex[k] < |rows|
    ensures |rptr| == tree.numRoots + 1 && forall i, j :: 0 <= i <= j < |rptr| ==> rptr[i] <= rptr[j] <= |idx|
    ensures forall g: nat :: g < tree.numRoots ==>
      idx[rptr[g]..rptr[g + 1]] == Reaching(tree.nodes, start, rows, validIndex, g, 0)
    ensures forall k :: 0 <= k < |idx| ==> idx[k] < |rows|
  {
    var builder := new Builder<nat>([], false);
    builder.InitBudget(tree.numRoots);
    for k := 0 to |validIndex|
      invariant builder.Budgeting() && |builder.budget| == tree.numRoots
      invariant forall g: nat :: g < tree.numRoots ==>
        builder.budget[g] == |Reaching(tree.nodes, start, rows, validIndex[..k], g, 0)|
    {
      assert validIndex[..k + 1][..k] == validIndex[..k];
      builder.AddBudget(rootIndex[validIndex[k]], 1);
    }
    assert validIndex[..|validIndex|] == validIndex;
    builder.InitStorage(if validIndex == [] then 0 else validIndex[0]);
    if validIndex == [] { StartGrows(builder.budget, 0, |builder.budget|); }
    PushByRoot(tree, rows, validIndex, rootIndex, start, builder);
    rptr, idx := builder.rptr, builder.findex;
    forall i, j | 0 <= i <= j < |rptr| ensures rptr[i] <= rptr[j] <= |idx| {
      builder.EndOf(i);
      builder.EndOf(j);
      StartGrows(builder.budget, i, j);
      StartGrows(builder.budget, j, |builder.budget|);
    }
    forall g: nat | g < tree.numRoots
      ensures idx[rptr[g]..rptr[g + 1]] == Reaching(tree.nodes, start, rows, validIndex, g, 0)
    {
      builder.SegmentIs(g);
    }
  }

  method PushByRoot(tree: TreeModel, rows: seq<Row>, validIndex: seq<nat>, rootIndex: seq<nat>, ghost start: seq<int>,
                    builder: Builder<nat>)
    requires |rootIndex| == |rows| == |start| && builder.Pushing() && |builder.budget| == tree.numRoots
    requires forall r :: 0 <= r < |rows| ==> rootIndex[r] < tree.numRoots && start[r] == rootIndex[r]
    requires forall k :: 0 <= k < |validIndex| ==> validIndex[k] < |rows|
    requires forall g: nat :: g < tree.numRoots ==>
      builder.budget[g] == |Reaching(tree.nodes, start, rows, validIndex, g, 0)| && builder.pushed[g] == []
    requires forall k :: 0 <= k < |builder.findex| ==> builder.findex[k] < |rows|
    modifies builder
    ensures builder.Pushing() && builder.budget == old(builder.budget)
    ensures forall g: nat :: g < tree.numRoots ==>
      builder.pushed[g] == Reaching(tree.nodes, start, rows, validIndex, g, 0)
    ensures forall k :: 0 <= k < |builder.findex| ==> builder.findex[k] < |rows|
  {
    for k := 0 to |validIndex|
      invariant builder.Pushing() && builder.budget == old(builder.budget)
      invariant forall g: nat :: g < tree.numRoots ==>
        builder.pushed[g] == Reaching(tree.nodes, start, rows, validIndex[..k], g, 0)
      invariant forall k :: 0 <= k < |builder.findex| ==> builder.findex[k] < |rows|
    {
      assert validIndex[..k + 1][..k] == validIndex[..k];
      ReachingGrows(tree.nodes, start, rows, validIndex, k + 1, rootIndex[validIndex[k]]);
      builder.PushElem(rootIndex[validIndex[k]], validIndex[k]);
    }
    assert validIndex[..|validIndex|] == validIndex;
  }

  lemma {:induction false} ReachingGrows(nodes: seq<Node>, start: seq<int>, rows: seq<Row>, s: seq<nat>, k: nat, p: nat)
    requires k <= |s|
    ensures |Reaching(nodes, start, rows, s[..k], p, 0)| <= |Reaching(nodes, start, rows, s, p, 0)|
    decreases |s| - k
  {
    if k < |s| {
      ReachingGrows(nodes, start, rows, s, k + 1, p);
      assert s[..k + 1][..k] == s[..k];
    } else {
      assert s[..k] == s;
    }
  }
}
