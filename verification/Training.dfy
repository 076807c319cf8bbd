/** Make of the tree makers as a whole: growing, then DoPrune, and where the rows end up. */
module Training {
  import opened ColTreeMakers
  import opened Forest
  import opened LeafWeights
  import opened LevelWeights
  import opened Pruner
  import opened PruneSpec
  import opened TreeGrowth
  import opened TreeLevels
  import opened TreeModels
  import opened TreeWalk
  import opened ReachingRows
  import opened RowTreeMakers

  function GrownTrees(t: Input): Trees { Trees(t.nodes, t.roots, t.deleted, t.depth) }

  /** The first node on the walk of a row that collapses, after e steps */
  predicate CollapsesFirst(t: Input, root: int, row: Row, e: nat)
    requires ChildrenAfter(t.nodes) && |t.loss| == |t.nodes|
  {
    && 0 <= WalkPos(t.nodes, root, row, e) < |t.nodes|
       && Collapses(t.nodes, t.loss, t.min, WalkPos(t.nodes, root, row, e))
    && forall d: nat :: d < e ==>
      0 <= WalkPos(t.nodes, root, row, d) < |t.nodes|
        && !Collapses(t.nodes, t.loss, t.min, WalkPos(t.nodes, root, row, d))
  }

  lemma {:induction false} FirstCollapse(t: Input, root: int, row: Row, d: nat) returns (e: nat)
    requires ChildrenAfter(t.nodes) && |t.loss| == |t.nodes|
    requires forall x: nat :: x <= d ==> 0 <= WalkPos(t.nodes, root, row, x) < |t.nodes|
    requires Collapses(t.nodes, t.loss, t.min, WalkPos(t.nodes, root, row, d))
      || exists x: nat :: x < d && Collapses(t.nodes, t.loss, t.min, WalkPos(t.nodes, root, row, x))
    ensures CollapsesFirst(t, root, row, e)
  {
    hide Collapses;
    if x: nat :| x < d && Collapses(t.nodes, t.loss, t.min, WalkPos(t.nodes, root, row, x)) {
      e := FirstCollapse(t, root, row, x);
    } else {
      e := d;
    }
  }

  /** Every step of a walk but the first comes from the parent. */
  lemma CameFromParent(t: Trees, root: nat, row: Row, d: nat)
    requires t.Ok() && root < t.roots && WalkPos(t.nodes, root, row, d) >= 0
    ensures t.Has(WalkPos(t.nodes, root, row, d))
    ensures var n := t.nodes[WalkPos(t.nodes, root, row, d)];
      if d == 0 then IsRoot(n) else n.link.ChildOf? && n.link.pid == WalkPos(t.nodes, root, row, d - 1)
  {
    WalkLevel(t, root, row, d);
    assert TreeGrowth.Good(t, root);
    if d > 0 {
      WalkLevel(t, root, row, d - 1);
      assert TreeGrowth.Good(t, WalkPos(t.nodes, root, row, d - 1));
    }
  }

  /** Nodes of the walk before the first that collapses are still there, as they were; that one is a leaf. */
  lemma WalkSurvives(t: Input, now: seq<Node>, gone: set<nat>, stats: seq<Stat>, root: nat, row: Row, e: nat, d: nat)
    requires Pruned(t, now, gone, stats) && root < t.roots && CollapsesFirst(t, root, row, e) && d <= e
    ensures var p := WalkPos(t.nodes, root, row, d); 0 <= p < |t.nodes| && if d < e then now[p] == t.nodes[p]
      else IsLeaf(now[p])
  {
    hide Collapses;
    CameFromParent(GrownTrees(t), root, row, d);
    var p := WalkPos(t.nodes, root, row, d);
    assert GrownTrees(t).Has(p) == t.Has(p);
    assert PrunedNode(t, now, gone, stats, p);
  }

  /** After pruning a row is led to the first node of its walk that collapses: the nearest ancestor of its
      leaf, or the leaf itself, that is still there. */
  lemma PrunedWalk(t: Input, now: seq<Node>, gone: set<nat>, stats: seq<Stat>, root: nat, row: Row, leaf: nat)
    returns (e: nat)
    requires Pruned(t, now, gone, stats) && root < t.roots && LeadsTo(t.nodes, root, row, leaf)
    ensures CollapsesFirst(t, root, row, e) && LeadsTo(now, root, row, WalkPos(t.nodes, root, row, e))
  {
    hide Consistent, NodeOk, PrunedNode;
    var d: nat :| WalkPos(t.nodes, root, row, d) == leaf;
    forall x: nat | x <= d ensures 0 <= WalkPos(t.nodes, root, row, x) < |t.nodes| {
      if WalkPos(t.nodes, root, row, x) < 0 { WalkEnded(t.nodes, root, row, x, d); }
      WalkLevel(GrownTrees(t), root, row, x);
    }
    e := FirstCollapse(t, root, row, d);
    forall x: nat | x < e
      ensures 0 <= WalkPos(t.nodes, root, row, x) < |t.nodes|
        && now[WalkPos(t.nodes, root, row, x)] == t.nodes[WalkPos(t.nodes, root, row, x)]
    {
      WalkSurvives(t, now, gone, stats, root, row, e, x);
    }
    WalkStays(t.nodes, now, root, row, e);
    WalkSurvives(t, now, gone, stats, root, row, e, e);
  }

  /** Where a row is led after pruning */
  ghost predicate LedToSurvivor(t: Input, now: seq<Node>, root: int, row: Row)
    requires ChildrenAfter(t.nodes) && |t.loss| == |t.nodes|
  {
    exists e: nat :: CollapsesFirst(t, root, row, e) && LeadsTo(now, root, row, WalkPos(t.nodes, root, row, e))
  }

  // ----- the weights after pruning -----

  /** A walk ends where the grown forest has been cut. */
  lemma {:induction false} PrunedPos(t: Input, now: seq<Node>, gone: set<nat>, stats: seq<Stat>, root: int, row: Row,
                                     d: nat)
    requires Pruned(t, now, gone, stats) && -1 <= root < t.roots
    ensures var q := WalkPos(t.nodes, root, row, d);
      WalkPos(now, root, row, d) == if q >= 0 && q in gone then -1 else q
  {
    hide Consistent, NodeOk, Collapses, GoesLeft;
    if d == 0 {
      WalkLevel(GrownTrees(t), root, row, d);
      if root >= 0 { Stands(t, now, gone, stats, root); }
    } else {
      PrunedPos(t, now, gone, stats, root, row, d - 1);
      WalkLevel(GrownTrees(t), root, row, d - 1);
      var q := WalkPos(t.nodes, root, row, d - 1);
      if q >= 0 { Stands(t, now, gone, stats, q); }
    }
  }

  /** What has become of a node and of its children */
  lemma Stands(t: Input, now: seq<Node>, gone: set<nat>, stats: seq<Stat>, p: nat)
    requires Pruned(t, now, gone, stats) && t.Has(p)
    ensures IsRoot(t.nodes[p]) || p < t.roots ==> p !in gone
    ensures t.nodes[p].kids.Kids? ==>
      var n := t.nodes[p];
      && (p in gone || !now[p].kids.Kids? ==> n.kids.left in gone && n.kids.right in gone)
      && (p !in gone && now[p].kids.Kids? ==> now[p] == n && n.kids.left !in gone && n.kids.right !in gone)
    ensures p !in gone && !t.nodes[p].kids.Kids? ==> !now[p].kids.Kids?
  {
    assert PruneSpec.Good(t, p) && PrunedNode(t, now, gone, stats, p);
    if t.nodes[p].link.ChildOf? { assert PruneSpec.Good(t, t.nodes[p].link.pid); }
    if t.nodes[p].kids.Kids? {
      var l, r := t.nodes[p].kids.left, t.nodes[p].kids.right;
      assert PruneSpec.Good(t, l) && PrunedNode(t, now, gone, stats, l);
      assert PruneSpec.Good(t, r) && PrunedNode(t, now, gone, stats, r);
    }
  }

  lemma {:induction false} PrunedRows(t: Input, now: seq<Node>, gone: set<nat>, stats: seq<Stat>, start: seq<int>,
                                      rows: seq<Row>, list: seq<nat>, p: nat, d: nat)
    requires Pruned(t, now, gone, stats) && p !in gone
    requires |start| == |rows| && forall r :: 0 <= r < |start| ==> -1 <= start[r] < t.roots
    ensures Reaching(now, start, rows, list, p, d) == Reaching(t.nodes, start, rows, list, p, d)
  {
    hide Pruned;
    if list != [] {
      var last := list[|list| - 1];
      PrunedRows(t, now, gone, stats, start, rows, list[..|list| - 1], p, d);
      if last < |rows| { PrunedPos(t, now, gone, stats, start[last], rows[last], d); }
    }
  }

  /** A node that is left has its rows and the weight of its parent. */
  lemma SamePlace(w: Sample, t: Input, before: seq<Stat>, now: seq<Node>, gone: set<nat>, stats: seq<Stat>, p: nat)
    requires Pruned(t, now, gone, stats) && t.weight == BaseWeights(before)
    requires StartsAtRoots(w, t.roots) && t.Has(p) && p !in gone
    ensures RowsAt(w, Trees(now, t.roots, gone, t.depth), p) == RowsAt(w, GrownTrees(t), p)
    ensures ParentWeight(now, stats, p) == ParentWeight(t.nodes, before, p)
  {
    hide Consistent, NodeOk, Collapses, Reaching;
    PrunedRows(t, now, gone, stats, w.start, w.rows, w.taken, p, t.depth[p]) by { InDepth(t, p); }
    assert PrunedNode(t, now, gone, stats, p);
    ParentStands(t, now, gone, stats, p);
  }

  lemma StillSought(w: Sample, s: Trees, t: Trees, stats: seq<Stat>, after: seq<Stat>, e: SplitEntry, p: nat)
    requires RowsAt(w, t, p) == RowsAt(w, s, p) && ParentWeight(t.nodes, after, p) == ParentWeight(s.nodes, stats, p)
    ensures Sought(w, s, stats, e, p) ==> Sought(w, t, after, e, p)
  {
    hide SoughtOn, RowsAt, ParentWeight;
  }

  /** A node that is left holds its weight: also a split that has become a leaf. */
  lemma PrunedWeighed(w: Sample, t: Input, before: seq<Stat>, now: seq<Node>, gone: set<nat>, stats: seq<Stat>, p: nat)
    requires Pruned(t, now, gone, stats) && t.weight == BaseWeights(before) && t.rate == w.rate
    requires StartsAtRoots(w, t.roots) && t.Has(p) && p !in gone && Weighed(w, GrownTrees(t), before, p)
    ensures Weighed(w, Trees(now, t.roots, gone, t.depth), stats, p)
  {
    hide Consistent, NodeOk, Collapses, RowsAt, ParentWeight, WeightOn;
    SamePlace(w, t, before, now, gone, stats, p);
    assert PrunedNode(t, now, gone, stats, p);
  }

  lemma InDepth(t: Input, p: nat)
    requires t.Ok() && t.Has(p)
    ensures p < |t.depth| == |t.nodes|
  {
  }

  lemma ParentStands(t: Input, now: seq<Node>, gone: set<nat>, stats: seq<Stat>, p: nat)
    requires Pruned(t, now, gone, stats) && t.Has(p) && p !in gone
    ensures now[p].link == t.nodes[p].link
    ensures t.nodes[p].link.ChildOf? ==>
      t.nodes[p].link.pid < |stats| && stats[t.nodes[p].link.pid].baseWeight == t.weight[t.nodes[p].link.pid]
  {
    hide Collapses;
    assert PruneSpec.Good(t, p) && PrunedNode(t, now, gone, stats, p);
    if t.nodes[p].link.ChildOf? { assert PrunedNode(t, now, gone, stats, t.nodes[p].link.pid); }
  }

  // ----- growing and pruning -----

  /** DoPrune, with what the split search and InitNewNode have stored for every node */
  method Prune(tree: TreeModel, pruner: BaseTreeMaker, best: nat -> SplitEntry, snode: seq<NodeSums>)
    returns (pruned: nat, ghost t: Input)
    requires tree.Valid() && Grown(TreesOf(tree)) && pruner.tree == tree && |snode| == |tree.nodes|
    modifies pruner`snode, pruner`statNumPruned, tree
    ensures tree.Valid() && pruned == tree.numDeleted
    ensures GrownTrees(t) == old(TreesOf(tree)) && t.min == pruner.minSplitLoss && ChildrenAfter(t.nodes)
    ensures t.weight == BaseWeights(old(tree.stats)) && t.rate == pruner.learningRate
    ensures |t.loss| == |t.nodes| && forall n: nat :: n < |t.loss| ==> t.loss[n] == best(n).lossChg
    ensures Pruned(t, tree.nodes, Elements(tree.deletedNodes), tree.stats)
    ensures TreesOf(tree) == Trees(tree.nodes, t.roots, Elements(tree.deletedNodes), t.depth)
  {
    hide Pruned, NodeOk, Consistent;
    NothingDeleted(tree.deletedNodes);
    pruner.snode := seq(tree.numNodes, n requires 0 <= n < |snode| => NodeEntry(snode[n].sumHess, best(n).lossChg));
    t := Input(tree.nodes, tree.numRoots, Elements(tree.deletedNodes), tree.depth, Gains(pruner.snode, tree.numNodes),
      pruner.minSplitLoss, BaseWeights(tree.stats), pruner.learningRate);
    pruned := pruner.DoPrune();
  }

  /** What Make of either maker ends with: t is the forest before pruning, in which every node above the deepest
      level is split exactly when its best split gains enough; t was pruned; every node that is left holds the
      weight of exactly the rows that come to it, and its best split is what a search among them finds. */
  ghost predicate Trained(w: Sample, best: nat -> SplitEntry, maxDepth: nat, t: Input, after: Trees, stats: seq<Stat>) {
    && t.deleted == {} && (forall p: nat :: t.Has(p) ==> Shaped(GrownTrees(t), best, maxDepth, p))
    && |t.loss| == |t.nodes| && (forall n: nat :: n < |t.loss| ==> t.loss[n] == best(n).lossChg)
    && Pruned(t, after.nodes, after.deleted, stats)
    && (forall p: nat :: after.Has(p) ==> Weighed(w, after, stats, p))
    && forall p: nat :: after.Has(p) && LevelOf(after, p) < maxDepth ==> Sought(w, after, stats, best(p), p)
  }

  lemma TrainingEnds(w: Sample, best: nat -> SplitEntry, maxDepth: nat, t: Input, before: seq<Stat>, after: Trees,
                     stats: seq<Stat>)
    requires Grown(GrownTrees(t)) && AllMade(w, GrownTrees(t), before, best, maxDepth, [])
    requires t.weight == BaseWeights(before) && t.rate == w.rate && StartsAtRoots(w, t.roots)
    requires |t.loss| == |t.nodes| && forall n: nat :: n < |t.loss| ==> t.loss[n] == best(n).lossChg
    requires Pruned(t, after.nodes, after.deleted, stats) && after.roots == t.roots && after.depth == t.depth
    ensures Trained(w, best, maxDepth, t, after, stats)
  {
    hide Pruned, Weighed, Shaped, BaseWeights, Sought;
    var grown := GrownTrees(t);
    forall p: nat | t.Has(p)
      ensures Shaped(grown, best, maxDepth, p) && Weighed(w, grown, before, p)
      ensures LevelOf(grown, p) < maxDepth ==> Sought(w, grown, before, best(p), p)
    {
      assert grown.Has(p) && p !in [];
      assert Made(w, grown, before, best, maxDepth, p);
    }
    forall p: nat | after.Has(p)
      ensures Weighed(w, after, stats, p)
      ensures LevelOf(after, p) < maxDepth ==> Sought(w, after, stats, best(p), p)
    {
      SizeAfter(t, after.nodes, after.deleted, stats);
      assert t.Has(p);
      PrunedWeighed(w, t, before, after.nodes, after.deleted, stats, p);
      SamePlace(w, t, before, after.nodes, after.deleted, stats, p);
      StillSought(w, grown, after, before, stats, best(p), p);
    }
  }

  lemma SizeAfter(t: Input, now: seq<Node>, gone: set<nat>, stats: seq<Stat>)
    requires Pruned(t, now, gone, stats)
    ensures |now| == |t.nodes| == |stats|
  {
  }

  /** With nothing pending every row is led to a survivor. */
  lemma AllLed(t: Input, now: seq<Node>, gone: set<nat>, stats: seq<Stat>, best: nat -> SplitEntry, maxDepth: nat,
               root: int, row: Row)
    requires Pruned(t, now, gone, stats) && 0 <= root < t.roots && GrownTrees(t).Ok()
    requires forall p: nat :: t.Has(p) ==> Shaped(GrownTrees(t), best, maxDepth, p)
    ensures LedToSurvivor(t, now, root, row)
  {
    hide Pruned, NodeOk, Consistent, LeadsTo;
    forall p: nat | GrownTrees(t).Has(p) ensures !t.nodes[p].kids.Pending? {
      assert t.Has(p) && Shaped(GrownTrees(t), best, maxDepth, p);
    }
    EveryWalkEnds(GrownTrees(t), root, row);
    var leaf: nat :| LeadsTo(t.nodes, root, row, leaf);
    var e := PrunedWalk(t, now, gone, stats, root, row, leaf);
  }

  /** Make of ColTreeMaker */
  method MakeByColumn(maker: ColTreeMaker, pruner: BaseTreeMaker, maxDepth: nat)
    returns (best: nat -> SplitEntry, pruned: nat, ghost t: Input)
    requires maker.Fresh()
    requires pruner.tree == maker.tree && pruner.learningRate == maker.learningRate
    modifies maker`qexpand, maker`snode, maker.position, maker.tree, pruner`snode, pruner`statNumPruned
    ensures maker.tree.Valid() && pruned == maker.tree.numDeleted && t.min == pruner.minSplitLoss
    ensures Trained(maker.Data(), best, maxDepth, t, TreesOf(maker.tree), maker.tree.stats)
    ensures forall r: nat :: r < |maker.rows| && r < |maker.start| && maker.start[r] != -1 ==>
      LedToSurvivor(t, maker.tree.nodes, maker.start[r], maker.rows[r])
  {
    hide Pruned, NodeOk, Consistent, LeadsTo, AllMade, Shaped, Weighed, LedToSurvivor, Sought;
    best := maker.Make(maxDepth);
    ghost var grown, before := TreesOf(maker.tree), maker.tree.stats;
    pruned, t := Prune(maker.tree, pruner, best, maker.snode);
    ghost var after, stats := TreesOf(maker.tree), maker.tree.stats;
    TrainingEnds(maker.Data(), best, maxDepth, t, before, after, stats);
    forall r: nat | r < |maker.rows| && r < |maker.start| && maker.start[r] != -1
      ensures LedToSurvivor(t, after.nodes, maker.start[r], maker.rows[r])
    {
      AllLed(t, after.nodes, after.deleted, stats, best, maxDepth, maker.start[r], maker.rows[r]);
    }
  }

  /** Make of RowTreeMaker; before pruning the rows of every leaf stood together. */
  method MakeByRow(maker: RowTreeMaker, pruner: BaseTreeMaker, maxDepth: nat)
    returns (best: nat -> SplitEntry, pruned: nat, ghost t: Input)
    requires maker.Fresh() && pruner.tree == maker.tree && pruner.learningRate == maker.learningRate
    modifies maker`nodeBound, maker`qexpand, maker`snode, maker`tmpRptr, maker.rowIndexSet, maker.tree
    modifies pruner`snode, pruner`statNumPruned
    ensures maker.tree.Valid() && pruned == maker.tree.numDeleted && t.min == pruner.minSplitLoss
    ensures Trained(maker.Data(), best, maxDepth, t, TreesOf(maker.tree), maker.tree.stats)
    ensures Partitioned(GrownTrees(t), maker.start, maker.rows, maker.valid, maker.rowIndexSet[..], maker.nodeBound)
    ensures Covered(GrownTrees(t), maker.start, maker.rows, maker.valid, maker.rowIndexSet[..], maker.nodeBound)
    ensures forall r: nat :: r < |maker.rows| && r < |maker.start| && 0 <= maker.start[r] < t.roots ==>
      LedToSurvivor(t, maker.tree.nodes, maker.start[r], maker.rows[r])
  {
    hide Pruned, NodeOk, Consistent, LeadsTo, Partitioned, Covered, AllMade, Shaped, Weighed, LedToSurvivor, Sought;
    best := maker.Make(maxDepth);
    ghost var grown, before := TreesOf(maker.tree), maker.tree.stats;
    RowsStart(grown, maker.start, maker.rows, maker.valid, maker.rowIndexSet[..], maker.nodeBound);
    pruned, t := Prune(maker.tree, pruner, best, maker.snode);
    ghost var after, stats := TreesOf(maker.tree), maker.tree.stats;
    TrainingEnds(maker.Data(), best, maxDepth, t, before, after, stats);
    forall r: nat | r < |maker.rows| && r < |maker.start| && 0 <= maker.start[r] < t.roots
      ensures LedToSurvivor(t, after.nodes, maker.start[r], maker.rows[r])
    {
      AllLed(t, after.nodes, after.deleted, stats, best, maxDepth, maker.start[r], maker.rows[r]);
    }
  }
}
