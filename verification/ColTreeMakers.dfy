/** ColTreeMaker of xgboost_col_treemaker.hpp: every row has a position, moved down level by level. */
module ColTreeMakers {
  import opened FMatrix
  import opened Forest
  import opened LeafWeights
  import opened LevelWeights
  import opened NodeColumns
  import opened Options
  import opened OwnColumns
  import opened ReachingRows
  import opened Sorting
  import opened SplitCuts
  import opened SplitScans
  import opened TreeGrowth
  import opened TreeLevels
  import opened TreeModels
  import opened TreeWalk

  /** Row r is where its walk has taken it in d steps. */
  predicate Placed(nodes: seq<Node>, start: seq<int>, rows: seq<Row>, position: seq<int>, d: nat, r: nat)
    requires r < |rows| == |start| == |position|
  {
    position[r] == WalkPos(nodes, start[r], rows[r], d)
  }

  ghost predicate AllPlaced(nodes: seq<Node>, start: seq<int>, rows: seq<Row>, position: seq<int>, d: nat) {
    |rows| == |start| == |position| && forall r: nat :: r < |rows| ==> Placed(nodes, start, rows, position, d, r)
  }

  /** Deciding a node of level d moves no row yet. */
  lemma StillPlaced(s: Trees, t: Trees, p: nat, start: seq<int>, rows: seq<Row>, position: seq<int>, d: nat)
    requires Decided(s, t, p) && LevelOf(s, p) == d && AllPlaced(s.nodes, start, rows, position, d)
    requires forall r :: 0 <= r < |start| ==> -1 <= start[r] < s.roots
    ensures AllPlaced(t.nodes, start, rows, position, d)
  {
    forall r: nat | r < |rows| ensures Placed(t.nodes, start, rows, position, d, r) {
      assert Placed(s.nodes, start, rows, position, d, r);
      WalkGrows(s, t, p, start[r], rows[r], d);
    }
  }

  /** cdefault() */
  function Default(n: Node): nat
    requires n.kids.Kids?
  {
    if n.defaultLeft then n.kids.left else n.kids.right
  }

  /** Where a row from node p stands once the splits on the features fs have been looked at. */
  function Moved(nodes: seq<Node>, p: int, row: Row, fs: seq<nat>): int {
    if !(0 <= p < |nodes|) || !nodes[p].kids.Kids? then -1
    else if nodes[p].feature in fs then Next(nodes[p], row)
    else Default(nodes[p])
  }

  /** The features the nodes of q are split on. */
  predicate Features(nodes: seq<Node>, q: seq<nat>, fs: seq<nat>) {
    forall j :: 0 <= j < |q| && q[j] < |nodes| && nodes[q[j]].kids.Kids? ==> nodes[q[j]].feature in fs
  }

  /** One step of the walk. */
  function StepOf(nodes: seq<Node>, p: int, row: Row): int {
    if 0 <= p < |nodes| && nodes[p].kids.Kids? then Next(nodes[p], row) else -1
  }

  /** A row moved from a split node stands on a child of that node. */
  lemma MovedIsChild(t: Trees, p: int, row: Row, fs: seq<nat>)
    requires t.Ok() && (p == -1 || t.Has(p))
    ensures var m := Moved(t.nodes, p, row, fs);
      m == -1 || (t.Has(m) && t.nodes[m].link.ChildOf? && t.nodes[m].link.pid == p)
  {
    if p != -1 {
      assert Good(t, p);
      if t.nodes[p].kids.Kids? { assert Good(t, t.nodes[p].kids.left) && Good(t, t.nodes[p].kids.right); }
    }
  }

  /** A missing value leaves a row on the default branch. */
  lemma MissingValue(nodes: seq<Node>, p: int, row: Row, fs: seq<nat>, f: nat)
    requires Lookup(row, f) == None
    ensures Moved(nodes, p, row, fs + [f]) == Moved(nodes, p, row, fs)
  {
  }

  /** The entry of the column is the value the walk compares. */
  lemma PresentValue(nodes: seq<Node>, p: int, row: Row, fs: seq<nat>, f: nat, v: real)
    requires Lookup(row, f) == Some(v)
    ensures Moved(nodes, p, row, fs + [f])
      == if 0 <= p < |nodes| && nodes[p].kids.Kids? && nodes[p].feature == f
         then (if v < nodes[p].info then nodes[p].kids.left else nodes[p].kids.right)
         else Moved(nodes, p, row, fs)
  {
  }

  /** Among the first k entries of the column there is one for row r. */
  predicate Met(col: seq<Entry>, k: nat, r: nat)
    requires k <= |col|
  {
    exists j :: 0 <= j < k && col[j].feature == r
  }

  class ColTreeMaker {
    const tree: TreeModel
    const rows: seq<Row>
    const cols: seq<seq<Entry>>
    const grad: seq<real>
    const hess: seq<real>
    const calcWeight: (real, real, real) -> real
    const calcRootGain: (real, real) -> real
    const param: Param
    const learningRate: real
    /** The features that have entries, in the order they were shuffled into */
    const featIndex: seq<nat>
    const position: array<int>
    var snode: seq<NodeSums>
    var qexpand: seq<nat>
    /** Where every row starts: its root, or -1 for a row that takes no part. */
    ghost const start: seq<int>

    /** InitData: rows with a negative hessian or left out by sampling take no part. */
    constructor (tree: TreeModel, rows: seq<Row>, cols: seq<seq<Entry>>, grad: seq<real>, hess: seq<real>,
                 calcWeight: (real, real, real) -> real, calcRootGain: (real, real) -> real, param: Param,
                 learningRate: real, featIndex: seq<nat>, roots: seq<int>)
      requires tree.Valid() && |roots| == |grad| == |hess| == |rows|
      requires forall r :: 0 <= r < |rows| ==> -1 <= roots[r] < tree.numRoots
      requires tree.numNodes == tree.numRoots && tree.deletedNodes == []
        && forall i :: 0 <= i < tree.numNodes ==> IsLeaf(tree.nodes[i])
      requires forall r :: 0 <= r < |rows| ==> Functional(rows[r])
      requires forall f: nat :: f < |cols| ==> ColumnOk(cols, rows, f) && Ordered(cols[f])
      requires forall f: nat :: f in featIndex <==> f < |cols| && cols[f] != []
      ensures this.tree == tree && this.cols == cols && fresh(position) && Fresh()
      ensures Data() == Sample(rows, roots, First(|rows|), grad, hess, calcWeight, learningRate, calcRootGain, param,
        |cols|)
    {
      this.tree, this.rows, this.cols, this.learningRate, this.start := tree, rows, cols, learningRate, roots;
      this.grad, this.hess, this.calcWeight, this.calcRootGain, this.snode := grad, hess, calcWeight, calcRootGain, [];
      this.param, this.featIndex := param, featIndex;
      position := new int[|rows|](r requires 0 <= r < |roots| => roots[r]);
      qexpand := seq(tree.numRoots, i requires 0 <= i => i);
      new;
      ghost var t := TreesOf(tree);
      forall p: nat | t.Has(p) ensures p in qexpand && t.depth[p] == 0 {
        assert Good(t, p);
        assert qexpand[p] == p;
      }
    }

    ghost predicate Valid()
      reads tree
    {
      && tree.Valid() && position.Length == |rows| == |start| == |grad| == |hess|
      && (forall r :: 0 <= r < |rows| ==> -1 <= start[r] < tree.numRoots)
      && (forall r :: 0 <= r < |rows| ==> Functional(rows[r]))
      && (forall f: nat :: f < |cols| ==> ColumnOk(cols, rows, f) && Ordered(cols[f]))
      && (forall f: nat :: f in featIndex <==> f < |cols| && cols[f] != [])
    }

    ghost function Data(): Sample {
      Sample(rows, start, First(|rows|), grad, hess, calcWeight, learningRate, calcRootGain, param, |cols|)
    }

    /** Nothing has been decided yet. */
    ghost predicate Fresh()
      reads this, tree, position
    {
      AtLevel(0) && forall p: nat :: tree.IsLive(p) ==> p in qexpand
    }

    ghost predicate AtLevel(d: nat)
      reads this, tree, position
    {
      && Valid() && Frontier(TreesOf(tree), qexpand, d) && Grown(TreesOf(tree))
      && AllPlaced(tree.nodes, start, rows, position[..], d)
      && (forall r :: 0 <= r < |rows| && position[r] != -1 ==> position[r] in qexpand)
    }

    /** InitNewNode: one pass over the rows adds up the gradients at every node, then the nodes of the level get
        their weights. */
    method InitNewNode(ghost d: nat, ghost best: nat -> SplitEntry)
      requires AtLevel(d) && AllGrew(Data(), TreesOf(tree), tree.stats, best, qexpand, d)
      modifies this`snode, tree`stats
      ensures AtLevel(d) && |snode| == |tree.nodes| && TreesOf(tree) == old(TreesOf(tree))
      ensures AllSummed(Data(), TreesOf(tree), tree.stats, snode, qexpand)
      ensures AllGrew(Data(), TreesOf(tree), tree.stats, best, qexpand, d)
    {
      hide NodeOk, Consistent, ColumnOk, Ordered, Functional, AllPlaced, Lookup, GoesLeft, Grown, AllSummed, AllGrew,
        RowsAt, SumRow, Frontier;
      ghost var t := TreesOf(tree);
      FrontierIs(t, qexpand, d);
      var sumGrad, sumHess := AddUp(d);
      var before := snode;
      snode := seq(|tree.nodes|, i requires 0 <= i => if i < |before| then before[i] else NoSums);
      NothingSummed(Data(), t, tree.stats, snode, qexpand);
      for j := 0 to |qexpand|
        invariant AtLevel(d) && |snode| == |tree.nodes| && TreesOf(tree) == t
        invariant OnlyOpen(t, old(tree.stats), tree.stats)
        invariant AllSummed(Data(), t, tree.stats, snode, qexpand[..j])
      {
        var nid := qexpand[j];
        ghost var stats, was := tree.stats, snode;
        snode := StoreSums(tree, snode, nid, sumGrad[nid], sumHess[nid], calcWeight, calcRootGain);
        SumsStored(Data(), t, stats, tree.stats, was, snode, qexpand, j);
      }
      assert qexpand[..|qexpand|] == qexpand;
      StillGrew(Data(), t, old(tree.stats), tree.stats, best, qexpand, d);
    }

    /** The first loop of InitNewNode */
    method AddUp(ghost d: nat) returns (sumGrad: seq<real>, sumHess: seq<real>)
      requires AtLevel(d)
      ensures |sumGrad| == |sumHess| == |tree.nodes|
      ensures forall j :: 0 <= j < |qexpand| ==>
        var p, list := qexpand[j], RowsAt(Data(), TreesOf(tree), qexpand[j]);
        p < |tree.nodes| && sumGrad[p] == SumRow(grad, list, |list|) && sumHess[p] == SumRow(hess, list, |list|)
    {
      hide NodeOk, Consistent, ColumnOk, Ordered, Functional, Lookup, GoesLeft, Grown, Frontier;
      sumGrad, sumHess := seq(|tree.nodes|, _ => 0.0), seq(|tree.nodes|, _ => 0.0);
      for i := 0 to |rows|
        invariant |sumGrad| == |sumHess| == |tree.nodes|
        invariant forall p: nat :: p < |tree.nodes| ==>
          var list := Reaching(tree.nodes, start, rows, First(i), p, d);
          sumGrad[p] == SumRow(grad, list, |list|) && sumHess[p] == SumRow(hess, list, |list|)
      {
        var p := position[i];
        PlacedAt(tree.nodes, start, rows, position[..], d, i);
        forall x: nat | x < |tree.nodes|
          ensures Reaching(tree.nodes, start, rows, First(i + 1), x, d)
            == if p == x then Reaching(tree.nodes, start, rows, First(i), x, d) + [i]
               else Reaching(tree.nodes, start, rows, First(i), x, d)
        {
          assert First(i + 1)[..i] == First(i);
        }
        if p >= 0 {
          WalkLevel(TreesOf(tree), start[i], rows[i], d);
          SumAdds(grad, Reaching(tree.nodes, start, rows, First(i), p, d), i);
          SumAdds(hess, Reaching(tree.nodes, start, rows, First(i), p, d), i);
          sumGrad := sumGrad[p := sumGrad[p] + grad[i]];
          sumHess := sumHess[p := sumHess[p] + hess[i]];
        }
      }
      FrontierIs(TreesOf(tree), qexpand, d);
    }

    // ----- the search -----

    /** Every row stands on a node of the level, or takes part no more. */
    ghost predicate Standing()
      reads this, tree, position
    {
      && Valid() && |snode| == |tree.nodes| && (forall j :: 0 <= j < |qexpand| ==> qexpand[j] < |snode|)
      && forall r :: 0 <= r < |rows| && position[r] != -1 ==> position[r] in qexpand
    }

    /** EnumerateSplit: one pass over a column serves all nodes of the level, each with its own entry. */
    method EnumerateSplit(it: seq<Entry>, fid: nat, temp: seq<ThreadEntry>, forward: bool)
      returns (next: seq<ThreadEntry>)
      requires Standing() && Distinct(qexpand) && |temp| == |snode|
        && forall k :: 0 <= k < |it| ==> it[k].feature < |rows|
      ensures |next| == |temp|
      ensures forall p: nat :: p in qexpand ==>
        var s := SumsIn(grad, hess, snode[p]);
        next[p] == Last(s, param, Scan(s, param, temp[p], Own(position[..], p, it), fid, forward), fid, forward)
    {
      next := ClearAll(temp);
      next := Pass(it, fid, temp, next, forward);
      next := Finish(next, fid, forward);
    }

    /** The first loop: clear all statistics. */
    method ClearAll(temp: seq<ThreadEntry>) returns (next: seq<ThreadEntry>)
      requires Standing() && |temp| == |snode|
      ensures |next| == |temp| && forall p: nat :: p in qexpand ==> next[p] == Cleared(temp[p])
    {
      next := temp;
      for j := 0 to |qexpand|
        invariant |next| == |temp| && forall p: nat :: p in qexpand[..j] ==> next[p] == Cleared(temp[p])
        invariant forall p: nat :: p < |next| && p !in qexpand[..j] ==> next[p] == temp[p]
      {
        assert qexpand[..j + 1] == qexpand[..j] + [qexpand[j]];
        next := next[qexpand[j] := next[qexpand[j]].(sumGrad := 0.0, sumHess := 0.0)];
      }
      assert qexpand[..|qexpand|] == qexpand;
    }

    /** The loop over the column */
    method Pass(it: seq<Entry>, fid: nat, ghost temp: seq<ThreadEntry>, cleared: seq<ThreadEntry>, forward: bool)
      returns (next: seq<ThreadEntry>)
      requires Standing() && |temp| == |snode| == |cleared|
      requires forall k :: 0 <= k < |it| ==> it[k].feature < |rows|
      requires forall p: nat :: p in qexpand ==> cleared[p] == Cleared(temp[p])
      ensures |next| == |temp|
      ensures forall p: nat :: p in qexpand ==>
        next[p] == Scan(SumsIn(grad, hess, snode[p]), param, temp[p], Own(position[..], p, it), fid, forward)
    {
      hide ColumnOk, Ordered, Functional;
      next := cleared;
      for k := 0 to |it|
        invariant |next| == |temp|
        invariant forall p: nat :: p in qexpand ==>
          next[p] == Scan(SumsIn(grad, hess, snode[p]), param, temp[p], Own(position[..], p, it[..k]), fid, forward)
      {
        assert it[..k + 1][..k] == it[..k];
        ghost var before := next;
        var ridx := it[k].feature;
        var nid := position[ridx];
        if nid >= 0 {
          var e := HitNode(next[nid], SumsIn(grad, hess, snode[nid]), it[k], fid, forward);
          next := next[nid := e];
        }
      }
      assert it[..|it|] == it;
    }

    /** What one entry of the column does to the entry of its node */
    method HitNode(e: ThreadEntry, s: Sums, x: Entry, fid: nat, forward: bool) returns (r: ThreadEntry)
      requires x.feature < |s.grad| == |s.hess|
      ensures r == Hit(s, param, e, x, fid, forward)
    {
      var g, h := s.grad[x.feature], s.hess[x.feature];
      if e.sumHess == 0.0 {
        return e.(sumGrad := g, sumHess := h, lastValue := x.value);
      }
      r := e;
      if Abs(x.value - e.lastValue) > 2.0 * RT_EPS && e.sumHess >= param.minChildWeight {
        var csumHess := s.rsumHess - e.sumHess;
        if csumHess >= param.minChildWeight {
          var lossChg := param.gain(e.sumGrad, e.sumHess, s.weight)
            + param.gain(s.rsumGrad - e.sumGrad, csumHess, s.weight) - s.rootGain;
          r := r.(best := Update(e.best, SplitEntry(lossChg, fid, 0.5 * (x.value + e.lastValue), !forward)));
        }
      }
      r := r.(sumGrad := e.sumGrad + g, sumHess := e.sumHess + h, lastValue := x.value);
    }

    /** The loop behind it: the split that takes all entries */
    method Finish(scanned: seq<ThreadEntry>, fid: nat, forward: bool) returns (next: seq<ThreadEntry>)
      requires Standing() && Distinct(qexpand) && |scanned| == |snode|
      ensures |next| == |scanned|
      ensures forall p: nat :: p in qexpand ==>
        next[p] == Last(SumsIn(grad, hess, snode[p]), param, scanned[p], fid, forward)
    {
      hide ColumnOk, Ordered, Functional, Last;
      next := scanned;
      for i := 0 to |qexpand|
        invariant |next| == |scanned|
        invariant forall j :: 0 <= j < i ==>
          next[qexpand[j]] == Last(SumsIn(grad, hess, snode[qexpand[j]]), param, scanned[qexpand[j]], fid, forward)
        invariant forall j :: i <= j < |qexpand| ==> next[qexpand[j]] == scanned[qexpand[j]]
      {
        var nid := qexpand[i];
        var e := LastOfNode(next[nid], SumsIn(grad, hess, snode[nid]), fid, forward);
        next := next[nid := e];
      }
    }

    method LastOfNode(e: ThreadEntry, s: Sums, fid: nat, forward: bool) returns (r: ThreadEntry)
      ensures r == Last(s, param, e, fid, forward)
    {
      r := e;
      var csumHess := s.rsumHess - e.sumHess;
      if e.sumHess >= param.minChildWeight && csumHess >= param.minChildWeight {
        var lossChg := param.gain(e.sumGrad, e.sumHess, s.weight)
          + param.gain(s.rsumGrad - e.sumGrad, csumHess, s.weight) - s.rootGain;
        var delta := if forward then RT_EPS else -RT_EPS;
        r := r.(best := Update(e.best, SplitEntry(lossChg, fid, e.lastValue + delta, !forward)));
      }
    }

    /** The first i features have been searched for every node of the level. */
    ghost predicate AllSeeking(stemp: seq<ThreadEntry>, i: nat)
      reads this, tree
    {
      |stemp| == |snode| && forall p: nat :: p in qexpand ==>
        p < |stemp| && Seeking(Data(), RowsAt(Data(), TreesOf(tree), p), ParentWeight(tree.nodes, tree.stats, p),
          stemp[p].best, featIndex, i)
    }

    /** Forward and backward over the column of one feature */
    method SearchFeature(i: nat, stemp: seq<ThreadEntry>, ghost d: nat) returns (next: seq<ThreadEntry>)
      requires AtLevel(d) && |snode| == |tree.nodes| && AllSummed(Data(), TreesOf(tree), tree.stats, snode, qexpand)
      requires i < |featIndex| && AllSeeking(stemp, i)
      ensures AllSeeking(next, i + 1)
    {
      hide NodeOk, Consistent, ColumnOk, Ordered, Functional, Lookup, GoesLeft, Grown, AllSummed, Seeking, RowsAt, Own,
        Scan, Last, SumsIn, AllPlaced, ParentWeight, Reverse;
      assert featIndex[i] in featIndex;
      var fid := featIndex[i];
      StandsAtLevel(d);
      ColumnInRange(cols, rows, fid);
      next := stemp;
      if param.forward {
        next := EnumerateSplit(cols[fid], fid, next, true);
      }
      ghost var mid := next;
      if param.backward {
        next := EnumerateSplit(Reverse(cols[fid]), fid, next, false);
      }
      forall p: nat | p in qexpand
        ensures Seeking(Data(), RowsAt(Data(), TreesOf(tree), p), ParentWeight(tree.nodes, tree.stats, p), next[p].best,
          featIndex, i + 1)
      {
        RowsStandThere(d, p);
        NodeIsSummed(Data(), TreesOf(tree), tree.stats, snode, qexpand, p);
        NodeSearched(Data(), RowsAt(Data(), TreesOf(tree), p), ParentWeight(tree.nodes, tree.stats, p), cols,
          position[..], p, stemp[p], mid[p], next[p], featIndex, i);
      }
    }

    lemma StandsAtLevel(d: nat)
      requires AtLevel(d) && |snode| == |tree.nodes|
      ensures Standing() && Distinct(qexpand)
    {
      FrontierIs(TreesOf(tree), qexpand, d);
    }

    /** The rows whose walk has come to a node of the level are those that stand there. */
    lemma RowsStandThere(d: nat, p: nat)
      requires AtLevel(d) && p in qexpand
      ensures var list := RowsAt(Data(), TreesOf(tree), p);
        && InRange(rows, list) && AllDifferent(list)
        && forall r: nat :: r in list <==> r < |rows| && position[..][r] == p
    {
      FrontierIs(TreesOf(tree), qexpand, d);
      hide NodeOk, Consistent, ColumnOk, Ordered, Functional, Lookup, GoesLeft, Grown, Reaching, AllPlaced;
      var list := RowsAt(Data(), TreesOf(tree), p);
      ReachingDifferent(tree.nodes, start, rows, |rows|, p, d);
      forall r: nat ensures r in list <==> r < |rows| && position[..][r] == p {
        InReaching(tree.nodes, start, rows, First(|rows|), p, d, r);
        if r < |rows| {
          assert First(|rows|)[r] == r;
          PlacedAt(tree.nodes, start, rows, position[..], d, r);
        }
      }
    }

    /** The search of FindSplit: all features for all nodes of the level, then the best split of every node. */
    method SearchLevel(before: nat -> SplitEntry, ghost d: nat) returns (best: nat -> SplitEntry)
      requires AtLevel(d) && |snode| == |tree.nodes| && AllSummed(Data(), TreesOf(tree), tree.stats, snode, qexpand)
      ensures forall p: nat :: p !in qexpand ==> best(p) == before(p)
      ensures forall p: nat :: p in qexpand && best(p).lossChg > RT_EPS ==> best(p).feature < |cols|
      ensures AllSought(Data(), TreesOf(tree), tree.stats, best, qexpand)
    {
      hide NodeOk, Consistent, ColumnOk, Ordered, Functional, Lookup, GoesLeft, Grown, AllSummed, Seeking, RowsAt,
        AllPlaced, ParentWeight, SoughtOn;
      var unset: real := *;
      var stemp := seq(|tree.nodes|, _ => ThreadEntry(0.0, 0.0, unset, NoEntry));
      StandsAtLevel(d);
      forall p: nat | p in qexpand
        ensures Seeking(Data(), RowsAt(Data(), TreesOf(tree), p), ParentWeight(tree.nodes, tree.stats, p), NoEntry,
          featIndex, 0)
      {
        RowsStandThere(d, p);
        NothingSought(Data(), RowsAt(Data(), TreesOf(tree), p), ParentWeight(tree.nodes, tree.stats, p), featIndex);
      }
      for i := 0 to |featIndex|
        invariant AllSeeking(stemp, i)
      {
        stemp := SearchFeature(i, stemp, d);
      }
      var q := qexpand;
      best := (n: nat) => if n in q && n < |stemp| then Update(NoEntry, stemp[n].best) else before(n);
      forall p: nat | p in qexpand
        ensures Sought(Data(), TreesOf(tree), tree.stats, best(p), p)
        ensures best(p).lossChg > RT_EPS ==> best(p).feature < |cols|
      {
        SeekingEnds(Data(), RowsAt(Data(), TreesOf(tree), p), ParentWeight(tree.nodes, tree.stats, p), cols,
          stemp[p].best, featIndex);
      }
    }

    /** The first part of FindSplit: every node of the level is split or becomes a leaf. */
    method DecideLevel(best: nat -> SplitEntry, ghost d: nat)
      requires AtLevel(d) && AllSummed(Data(), TreesOf(tree), tree.stats, snode, qexpand)
      requires AllGrew(Data(), TreesOf(tree), tree.stats, best, qexpand, d)
      requires AllSought(Data(), TreesOf(tree), tree.stats, best, qexpand)
      modifies tree
      ensures Valid() && MidLevel(old(TreesOf(tree)), TreesOf(tree), qexpand, Entries(best, qexpand), |qexpand|, d)
      ensures MidGrowth(Data(), TreesOf(tree), tree.stats, snode, best, [], d)
      ensures AllPlaced(tree.nodes, start, rows, position[..], d) && Grown(TreesOf(tree))
    {
      hide NodeOk, Consistent, ColumnOk, MidLevel, AllPlaced, Decided, Grown, MidGrowth, AllSummed, AllGrew,
        KeepsWeights, Ordered, Functional, Sought, AllSought, Summed;
      ghost var s, entries := TreesOf(tree), Entries(best, qexpand);
      StartLevel(s, qexpand, entries, d);
      GrowthStarts(Data(), s, tree.stats, snode, best, qexpand, d);
      assert qexpand[0..] == qexpand;
      for i := 0 to |qexpand|
        invariant Valid() && tree.numRoots == s.roots && MidLevel(s, TreesOf(tree), qexpand, entries, i, d)
        invariant MidGrowth(Data(), TreesOf(tree), tree.stats, snode, best, qexpand[i..], d)
        invariant AllSought(Data(), TreesOf(tree), tree.stats, best, qexpand[i..])
        invariant AllPlaced(tree.nodes, start, rows, position[..], d) && Grown(TreesOf(tree))
      {
        ghost var t, stats := TreesOf(tree), tree.stats;
        var nid := qexpand[i];
        NextIsOpen(s, t, qexpand, entries, i, d);
        NextIsSummed(Data(), t, stats, snode, best, qexpand, i, d);
        NextIsSought(Data(), t, stats, best, qexpand, i);
        DecideNode(tree, nid, best(nid), snode[nid].weight * learningRate);
        DecidedOnce(t, TreesOf(tree), nid, best(nid));
        NextInLevel(s, t, TreesOf(tree), qexpand, entries, i, d);
        GrowthGoesOn(Data(), t, TreesOf(tree), stats, tree.stats, snode, best, nid, qexpand[i + 1..], d);
        SoughtGoesOn(Data(), t, TreesOf(tree), stats, tree.stats, snode, best, nid, qexpand[i + 1..], d);
        StillPlaced(t, TreesOf(tree), nid, start, rows, position[..], d);
      }
    }

    /** The search, and what it decides */
    method SplitLevel(before: nat -> SplitEntry, ghost d: nat) returns (best: nat -> SplitEntry)
      requires AtLevel(d) && |snode| == |tree.nodes| && AllSummed(Data(), TreesOf(tree), tree.stats, snode, qexpand)
      requires AllGrew(Data(), TreesOf(tree), tree.stats, before, qexpand, d)
      modifies tree
      ensures Valid() && MidLevel(old(TreesOf(tree)), TreesOf(tree), qexpand, Entries(best, qexpand), |qexpand|, d)
      ensures MidGrowth(Data(), TreesOf(tree), tree.stats, snode, best, [], d)
      ensures AllPlaced(tree.nodes, start, rows, position[..], d) && Grown(TreesOf(tree))
      ensures forall j :: 0 <= j < |qexpand| ==> tree.IsLive(qexpand[j]) && !tree.nodes[qexpand[j]].kids.Pending?
      ensures FeaturesInRange(tree.nodes, qexpand, |cols|)
    {
      hide NodeOk, Consistent, ColumnOk, Ordered, Functional, MidLevel, AllPlaced, Grown, MidGrowth, AllSummed, AllGrew,
        AllSought;
      ghost var s := TreesOf(tree);
      best := SearchLevel(before, d);
      OtherEntries(Data(), s, tree.stats, before, best, qexpand, d);
      DecideLevel(best, d);
      LevelDecided(s, TreesOf(tree), qexpand, Entries(best, qexpand), |cols|, d);
    }

    /** The nodes a row may be at in this level: all of them are decided. */
    ghost predicate Settled(p: int)
      reads this, tree
    {
      p == -1 || (tree.IsLive(p) && p in qexpand)
    }

    /** Step 1 of the reset: rows at split nodes go to the default branch, rows at leaves stop. */
    method PushToDefault(ghost was: seq<int>)
      requires tree.Valid() && position.Length == |rows| && position[..] == was
      requires forall r :: 0 <= r < |rows| ==> Settled(was[r])
      requires forall j :: 0 <= j < |qexpand| ==> tree.IsLive(qexpand[j]) && !tree.nodes[qexpand[j]].kids.Pending?
      modifies position
      ensures forall r :: 0 <= r < |rows| ==> position[r] == Moved(tree.nodes, was[r], rows[r], [])
    {
      for i := 0 to position.Length
        invariant forall r :: 0 <= r < i ==> position[r] == Moved(tree.nodes, was[r], rows[r], [])
        invariant forall r :: i <= r < |rows| ==> position[r] == was[r]
      {
        assert Settled(was[i]);
        var nid := position[i];
        if nid >= 0 {
          if IsLeaf(tree.nodes[nid]) {
            position[i] := -1;
          } else {
            position[i] := if tree.nodes[nid].defaultLeft then tree.nodes[nid].kids.left
              else tree.nodes[nid].kids.right;
          }
        }
      }
    }

    /** The split features of the level, each once; their order does not matter. */
    method SplitFeatures() returns (fsplits: seq<nat>)
      requires forall j :: 0 <= j < |qexpand| ==> tree.IsLive(qexpand[j])
      requires FeaturesInRange(tree.nodes, qexpand, |cols|)
      ensures Distinct(fsplits) && Features(tree.nodes, qexpand, fsplits)
        && forall i :: 0 <= i < |fsplits| ==> fsplits[i] < |cols|
    {
      fsplits := [];
      for i := 0 to |qexpand|
        invariant Distinct(fsplits) && forall i :: 0 <= i < |fsplits| ==> fsplits[i] < |cols|
        invariant Features(tree.nodes, qexpand[..i], fsplits)
      {
        assert tree.IsLive(qexpand[i]);
        assert qexpand[..i + 1] == qexpand[..i] + [qexpand[i]];
        var n := tree.nodes[qexpand[i]];
        if n.kids.Kids? && n.feature !in fsplits {
          fsplits := fsplits + [n.feature];
        }
      }
      assert qexpand[..|qexpand|] == qexpand;
    }

    /** Step 2 for one feature: rows with a value go back to the parent and to the side of the value. */
    method CorrectColumn(fid: nat, ghost was: seq<int>, ghost fs: seq<nat>)
      requires tree.Valid() && position.Length == |rows| == |was| && fid < |cols| && ColumnOk(cols, rows, fid)
      requires forall r :: 0 <= r < |rows| ==> Settled(was[r])
      requires forall r :: 0 <= r < |rows| ==> position[r] == Moved(tree.nodes, was[r], rows[r], fs)
      modifies position
      ensures forall r :: 0 <= r < |rows| ==> position[r] == Moved(tree.nodes, was[r], rows[r], fs + [fid])
    {
      hide Moved, Lookup, NodeOk, Consistent;
      var col := cols[fid];
      for k := 0 to |col|
        invariant forall r :: 0 <= r < |rows| ==>
          position[r] == Moved(tree.nodes, was[r], rows[r], if Met(col, k, r) then fs + [fid] else fs)
      {
        var ridx := col[k].feature;
        var nid := position[ridx];
        ghost var before := position[..];
        assert Settled(was[ridx]);
        MovedIsChild(TreesOf(tree), was[ridx], rows[ridx], if Met(col, k, ridx) then fs + [fid] else fs);
        MovedIsChild(TreesOf(tree), was[ridx], rows[ridx], fs + [fid]);
        PresentValue(tree.nodes, was[ridx], rows[ridx], fs, fid, col[k].value);
        StaysOut(tree.nodes, was[ridx], rows[ridx], fs, fs + [fid]);
        if nid != -1 {
          nid := tree.nodes[nid].link.pid;
          if tree.nodes[nid].kids.Kids? && tree.nodes[nid].feature == fid {
            if col[k].value < tree.nodes[nid].info {
              position[ridx] := tree.nodes[nid].kids.left;
            } else {
              position[ridx] := tree.nodes[nid].kids.right;
            }
          }
        }
        forall r: nat | r < |rows|
          ensures position[r] == Moved(tree.nodes, was[r], rows[r], if Met(col, k + 1, r) then fs + [fid] else fs)
        {
          if r != ridx {
            assert Met(col, k + 1, r) == Met(col, k, r) && position[r] == before[r];
          } else {
            assert Met(col, k + 1, r);
          }
        }
      }
      forall r: nat | r < |rows| ensures position[r] == Moved(tree.nodes, was[r], rows[r], fs + [fid]) {
        if !Met(col, |col|, r) {
          NotMet(cols, rows, fid, r);
          MissingValue(tree.nodes, was[r], rows[r], fs, fid);
        }
      }
    }

    /** The second part of FindSplit: the positions follow the splits. */
    method ResetPosition()
      requires Valid() && (forall r :: 0 <= r < |rows| ==> Settled(position[r]))
      requires forall j :: 0 <= j < |qexpand| ==> tree.IsLive(qexpand[j]) && !tree.nodes[qexpand[j]].kids.Pending?
      requires FeaturesInRange(tree.nodes, qexpand, |cols|)
      modifies position
      ensures forall r: nat :: r < |rows| ==>
        position[r] == StepOf(tree.nodes, old(position[r]), rows[r])
    {
      hide Moved, Lookup, GoesLeft, ColumnOk, NodeOk, Consistent;
      ghost var was := position[..];
      PushToDefault(was);
      var fsplits := SplitFeatures();
      assert fsplits[..0] == [];
      for i := 0 to |fsplits|
        invariant forall r :: 0 <= r < |rows| ==> position[r] == Moved(tree.nodes, was[r], rows[r], fsplits[..i])
      {
        CorrectColumn(fsplits[i], was, fsplits[..i]);
        assert fsplits[..i + 1] == fsplits[..i] + [fsplits[i]];
      }
      assert fsplits[..|fsplits|] == fsplits;
      forall r: nat | r < |rows|
        ensures position[r] == StepOf(tree.nodes, was[r], rows[r])
      {
        assert Settled(was[r]);
        FullyMoved(tree.nodes, was[r], rows[r], qexpand, fsplits);
      }
    }

    /** UpdateQueueExpand */
    method UpdateQueueExpand()
      requires forall j :: 0 <= j < |qexpand| ==> qexpand[j] < |tree.nodes|
      modifies this`qexpand
      ensures qexpand == ChildrenOf(tree.nodes, old(qexpand))
    {
      var newnodes := [];
      for i := 0 to |qexpand|
        invariant newnodes == ChildrenOf(tree.nodes, qexpand[..i]) && qexpand == old(qexpand)
      {
        assert qexpand[..i + 1][..i] == qexpand[..i];
        var n := tree.nodes[qexpand[i]];
        if n.kids.Kids? {
          newnodes := newnodes + [n.kids.left, n.kids.right];
        }
      }
      assert qexpand[..|qexpand|] == qexpand;
      qexpand := newnodes;
    }

    /** FindSplit and UpdateQueueExpand: every row is one step further on its walk. */
    method GrowLevel(before: nat -> SplitEntry, ghost d: nat) returns (best: nat -> SplitEntry)
      requires AtLevel(d) && |snode| == |tree.nodes| && AllSummed(Data(), TreesOf(tree), tree.stats, snode, qexpand)
      requires AllGrew(Data(), TreesOf(tree), tree.stats, before, qexpand, d)
      modifies this`qexpand, position, tree
      ensures AtLevel(d + 1) && AllGrew(Data(), TreesOf(tree), tree.stats, best, qexpand, d + 1)
    {
      hide NodeOk, Consistent, ColumnOk, Ordered, Functional, MidLevel, AllPlaced, Lookup, GoesLeft, Grown, MidGrowth,
        AllSummed, AllGrew;
      ghost var s, q := TreesOf(tree), qexpand;
      best := SplitLevel(before, d);
      ghost var was := position[..];
      forall r | 0 <= r < |rows| ensures Settled(position[r]) { }
      ResetPosition();
      NextLevel(s, TreesOf(tree), q, Entries(best, q), d);
      ghost var next := ChildrenOf(tree.nodes, q);
      OneStepFurther(tree.nodes, start, rows, was, position[..], q, d);
      GrowthEnds(Data(), TreesOf(tree), tree.stats, snode, best, next, d);
      UpdateQueueExpand();
      assert AllPlaced(tree.nodes, start, rows, position[..], d + 1);
    }

    /** Make up to the pruning. Afterwards every node above the deepest level is split exactly when its best split
        gains enough, and every leaf holds the weight of exactly the rows led to it; every row that takes part is led
        to a leaf by its walk, and its position is that leaf unless the walk ended at an earlier level. */
    method Make(maxDepth: nat) returns (best: nat -> SplitEntry)
      requires Fresh()
      modifies this`qexpand, this`snode, position, tree
      ensures Valid() && Grown(TreesOf(tree)) && |snode| == |tree.nodes|
      ensures AllMade(Data(), TreesOf(tree), tree.stats, best, maxDepth, [])
      ensures forall r: nat :: r < |rows| && start[r] != -1 ==> exists leaf: nat ::
        LeadsTo(tree.nodes, start[r], rows[r], leaf) && (position[r] != -1 ==> position[r] == leaf)
    {
      hide NodeOk, Consistent, ColumnOk, Ordered, Functional, MidLevel, AllPlaced, Lookup, GoesLeft, Grown, AllSummed,
        Summed, Grew;
      best := (n: nat) => NoEntry;
      ghost var d: nat := 0;
      InitNewNode(d, best);
      for depth := 0 to maxDepth
        invariant AtLevel(d) && d == depth && |snode| == |tree.nodes|
        invariant AllSummed(Data(), TreesOf(tree), tree.stats, snode, qexpand)
        invariant AllGrew(Data(), TreesOf(tree), tree.stats, best, qexpand, d)
      {
        best := GrowLevel(best, d);
        d := d + 1;
        InitNewNode(d, best);
        if |qexpand| == 0 { break; }
      }
      FinishLeaves(best, maxDepth, d);
      ghost var t := TreesOf(tree);
      forall r: nat | r < |rows| && start[r] != -1
        ensures exists leaf: nat ::
          LeadsTo(tree.nodes, start[r], rows[r], leaf) && (position[r] != -1 ==> position[r] == leaf)
      {
        PlacedAt(tree.nodes, start, rows, position[..], d, r);
        if position[r] == -1 {
          StoppedAtLeaf(t, start[r], rows[r], d);
        } else {
          WalkLevel(t, start[r], rows[r], d);
          assert LeadsTo(tree.nodes, start[r], rows[r], position[r]);
        }
      }
    }

    /** The nodes left over become leaves. */
    method FinishLeaves(ghost best: nat -> SplitEntry, ghost maxDepth: nat, ghost d: nat)
      requires AtLevel(d) && d <= maxDepth && (d == maxDepth || qexpand == [])
      requires AllSummed(Data(), TreesOf(tree), tree.stats, snode, qexpand)
      requires AllGrew(Data(), TreesOf(tree), tree.stats, best, qexpand, d)
      modifies tree
      ensures AllMade(Data(), TreesOf(tree), tree.stats, best, maxDepth, [])
      ensures |tree.nodes| == old(|tree.nodes|)
      ensures Valid() && AllPlaced(tree.nodes, start, rows, position[..], d) && Grown(TreesOf(tree))
      ensures forall p: nat :: tree.IsLive(p) ==> !tree.nodes[p].kids.Pending?
      ensures forall j :: 0 <= j < |qexpand| ==> tree.IsLive(qexpand[j]) && IsLeaf(tree.nodes[qexpand[j]])
      ensures forall r :: 0 <= r < |rows| && position[r] != -1 ==> position[r] in qexpand
    {
      hide NodeOk, ColumnOk, Ordered, Functional, AllPlaced, Lookup, GoesLeft, Grown, AllSummed, AllGrew, AllMade,
        Frontier, Consistent,
        Finishing, Decided;
      NearlyMade(Data(), TreesOf(tree), tree.stats, best, maxDepth, qexpand, d);
      FinishingStarts(TreesOf(tree), qexpand, d);
      assert qexpand[0..] == qexpand;
      for i := 0 to |qexpand|
        invariant Grown(TreesOf(tree)) && |tree.nodes| == old(|tree.nodes|)
        invariant AllMade(Data(), TreesOf(tree), tree.stats, best, maxDepth, qexpand[i..])
        invariant AllSummed(Data(), TreesOf(tree), tree.stats, snode, qexpand[i..])
        invariant Valid() && tree.numRoots == old(tree.numRoots) && AllPlaced(tree.nodes, start, rows, position[..], d)
        invariant Finishing(TreesOf(tree), qexpand, i, d)
      {
        ghost var s, stats := TreesOf(tree), tree.stats;
        var nid := qexpand[i];
        assert qexpand[i..] == [nid] + qexpand[i + 1..];
        FirstIsSummed(Data(), s, stats, snode, nid, qexpand[i + 1..]);
        FinishingIs(s, qexpand, i, d);
        MakeLeaf(tree, nid, snode[nid].weight * learningRate);
        StillPlaced(s, TreesOf(tree), nid, start, rows, position[..], d);
        OneMoreMade(Data(), s, TreesOf(tree), stats, tree.stats, snode, best, maxDepth, nid, qexpand[i + 1..]);
        FinishingNext(s, TreesOf(tree), qexpand, i, d);
      }
      FinishingIs(TreesOf(tree), qexpand, |qexpand|, d);
    }
  }

  lemma PlacedAt(nodes: seq<Node>, start: seq<int>, rows: seq<Row>, position: seq<int>, d: nat, r: nat)
    requires AllPlaced(nodes, start, rows, position, d) && r < |rows|
    ensures position[r] == WalkPos(nodes, start[r], rows[r], d)
  {
    assert Placed(nodes, start, rows, position, d, r);
  }

  lemma OneStepFurther(nodes: seq<Node>, start: seq<int>, rows: seq<Row>, was: seq<int>, now: seq<int>, q: seq<nat>,
                       d: nat)
    requires AllPlaced(nodes, start, rows, was, d) && |now| == |rows|
    requires forall r :: 0 <= r < |rows| ==> now[r] == StepOf(nodes, was[r], rows[r]) && (was[r] == -1 || was[r] in q)
    ensures AllPlaced(nodes, start, rows, now, d + 1)
    ensures forall r :: 0 <= r < |rows| && now[r] != -1 ==> now[r] in ChildrenOf(nodes, q)
  {
    var e: nat := d + 1;
    forall r: nat | r < |rows|
      ensures Placed(nodes, start, rows, now, e, r)
    {
      assert Placed(nodes, start, rows, was, d, r);
    }
    forall r | 0 <= r < |rows| && now[r] != -1 ensures now[r] in ChildrenOf(nodes, q) {
      InChildren(nodes, q, now[r]);
      var j :| 0 <= j < |q| && q[j] == was[r];
      assert IsChild(nodes, q[j], now[r]);
    }
  }

  lemma StaysOut(nodes: seq<Node>, p: int, row: Row, fs: seq<nat>, gs: seq<nat>)
    ensures Moved(nodes, p, row, fs) == -1 <==> Moved(nodes, p, row, gs) == -1
  {
  }

  lemma NotMet(cols: seq<seq<Entry>>, rows: seq<Row>, f: nat, r: nat)
    requires f < |cols| && r < |rows| && ColumnOk(cols, rows, f) && !Met(cols[f], |cols[f]|, r)
    ensures Lookup(rows[r], f) == None
  {
  }

  lemma FullyMoved(nodes: seq<Node>, p: int, row: Row, q: seq<nat>, fs: seq<nat>)
    requires Features(nodes, q, fs) && (p == -1 || (0 <= p < |nodes| && p in q))
    ensures Moved(nodes, p, row, fs) == StepOf(nodes, p, row)
  {
  }
}
