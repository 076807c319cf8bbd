/** The pruning part of BaseTreeMaker. */
module Pruner {
  import opened Forest
  import opened TreeModels
  import opened PruneSpec

  /** NodeEntry: the statistics kept for every node. */
  datatype NodeEntry = NodeEntry(sumHess: real, bestLossChg: real)

  function Gains(snode: seq<NodeEntry>, n: nat): (g: seq<real>)
    requires n <= |snode|
    ensures |g| == n && forall i :: 0 <= i < n ==> g[i] == snode[i].bestLossChg
  {
    seq(n, i requires 0 <= i < n => snode[i].bestLossChg)
  }

  function BaseWeights(stats: seq<Stat>): (w: seq<real>)
    ensures |w| == |stats| && forall i :: 0 <= i < |stats| ==> w[i] == stats[i].baseWeight
  {
    seq(|stats|, i requires 0 <= i < |stats| => stats[i].baseWeight)
  }

  class BaseTreeMaker {
    const tree: TreeModel
    const minSplitLoss: real
    const learningRate: real
    var snode: seq<NodeEntry>
    var statNumPruned: nat

    constructor (tree: TreeModel, minSplitLoss: real, learningRate: real)
      ensures this.tree == tree && this.minSplitLoss == minSplitLoss && this.learningRate == learningRate
    {
      this.tree, this.minSplitLoss, this.learningRate := tree, minSplitLoss, learningRate;
    }

    /** param.need_prune: the depth does not matter. */
    predicate NeedPrune(lossChg: real, depth: int) { lossChg < minSplitLoss }

    /** The state of the tree seen as progress of pruning. */
    ghost predicate InState(t: Input, s: Progress)
      reads this, tree
    {
      && tree.Valid() && Pruning(t, s) && t.min == minSplitLoss && t.rate == learningRate
      && tree.nodes == s.now && Elements(tree.deletedNodes) == s.gone && tree.stats == s.stats
      && tree.numRoots == t.roots && tree.depth == t.depth
    }

    /** The parent, which has counted two leaves, becomes a leaf. */
    method Collapse(pid: nat, ghost t: Input, ghost s: Progress) returns (ghost next: Progress)
      requires tree.Valid() && Pruning(t, s) && t.min == minSplitLoss && t.rate == learningRate
      requires tree.nodes == s.now && Elements(tree.deletedNodes) == s.gone && tree.numRoots == t.roots
        && tree.depth == t.depth
      requires s.hole in s.done && t.nodes[s.hole].link.ChildOf? && t.nodes[s.hole].link.pid == pid && pid !in s.done
      requires pid < |s.stats| && tree.stats == OneMore(s.stats, pid) && s.stats[pid].leafChildCnt + 1 >= 2
        && t.loss[pid] < t.min && s.stats[pid].baseWeight == t.weight[pid]
      modifies this`statNumPruned, tree
      ensures InState(t, next) && next.hole == pid && next.done == s.done + {pid} && pid !in next.gone
      ensures t.Has(pid) && !IsLeaf(t.nodes[pid])
        && (t.nodes[pid].link.ChildOf? ==> t.nodes[pid].link.pid !in next.done)
      ensures statNumPruned - old(statNumPruned) == tree.numDeleted - old(tree.numDeleted)
      ensures tree.numNodes == old(tree.numNodes)
    {
      hide Treated, NodeOk, Consistent, Collapses;
      var value := learningRate * tree.stats[pid].baseWeight;
      SecondLeaf(t, s);
      ParentOfHole(t, s);
      ParentCollapses(t, s, value);
      statNumPruned := statNumPruned + 2;
      tree.ChangeToLeaf(pid, value);
      next := Progress(s.done + {pid}, pid, tree.nodes, Elements(tree.deletedNodes), tree.stats);
      assert next == Progress(s.done + {pid}, pid, WithoutChilds(s.now, pid, value),
        s.gone + {t.nodes[pid].kids.left, t.nodes[pid].kids.right}, OneMore(s.stats, pid));
    }

    /** TryPruneLeaf: the parent counts the leaf; with two leaves and too little gain it becomes a leaf,
        and its own parent is next. */
    method TryPruneLeaf(nid: nat, depth: int, ghost t: Input, ghost s: Progress) returns (ghost e: Progress)
      requires InState(t, s) && ChildrenAfter(t.nodes) && nid < |t.nodes|
      requires if t.Has(nid) then
          s.hole == nid && nid in s.done && nid !in s.gone
            && (t.nodes[nid].link.ChildOf? ==> t.nodes[nid].link.pid !in s.done)
        else s.hole == -1
      modifies this`statNumPruned, tree
      decreases nid
      ensures InState(t, e) && e.hole == -1 && s.done <= e.done
      ensures forall p: nat :: p in e.done && IsLeaf(t.nodes[p]) ==> p in s.done
      ensures statNumPruned - old(statNumPruned) == tree.numDeleted - old(tree.numDeleted)
      ensures tree.numNodes == old(tree.numNodes)
    {
      HoleIs(t, s, nid);
      Sizes(t, s);
      hide Treated, NodeOk, Consistent, Collapses, Pruning, ChildrenAfter, Live;
      if IsRoot(tree.nodes[nid]) {
        if t.Has(nid) { RootCounted(t, s); }
        e := s.(hole := -1);
        return;
      }
      var pid := tree.nodes[nid].link.pid;
      ParentOfHole(t, s);
      tree.stats := tree.stats[pid := tree.stats[pid].(leafChildCnt := tree.stats[pid].leafChildCnt + 1)];
      if tree.stats[pid].leafChildCnt >= 2 && NeedPrune(tree.stats[pid].lossChg, depth - 1) {
        ghost var next := Collapse(pid, t, s);
        e := TryPruneLeaf(pid, depth - 1, t, next);
      } else {
        Counted(t, s);
        e := s.(hole := -1, stats := tree.stats);
      }
    }

    /** DoPrune: afterwards the nodes left are those without a collapsing ancestor, the leaves among
        them are those that collapse, and every split left has counted its leaves. */
    method DoPrune() returns (pruned: nat)
      requires tree.Valid() && |snode| >= tree.numNodes && ChildrenAfter(tree.nodes)
      modifies this`statNumPruned, tree
      ensures tree.Valid() && tree.numNodes == old(tree.numNodes) && tree.numRoots == old(tree.numRoots)
      ensures pruned == tree.numDeleted - old(tree.numDeleted)
      ensures var t := Input(old(tree.nodes), old(tree.numRoots), old(Elements(tree.deletedNodes)), old(tree.depth),
          Gains(snode, old(tree.numNodes)), minSplitLoss, BaseWeights(old(tree.stats)), learningRate);
        tree.depth == t.depth && Pruned(t, tree.nodes, Elements(tree.deletedNodes), tree.stats)
    {
      hide Treated, NodeOk, Consistent, Collapses, Pruned;
      statNumPruned := 0;
      ghost var t := Input(tree.nodes, tree.numRoots, Elements(tree.deletedNodes), tree.depth,
        Gains(snode, tree.numNodes), minSplitLoss, BaseWeights(tree.stats), learningRate);
      for nid := 0 to tree.numNodes
        invariant tree.Valid() && tree.nodes == t.nodes && tree.deletedNodes == old(tree.deletedNodes)
        invariant tree.numRoots == t.roots && tree.depth == t.depth && tree.numNodes == old(tree.numNodes)
        invariant tree.numDeleted == old(tree.numDeleted) && statNumPruned == 0
        invariant forall i :: 0 <= i < nid ==>
          tree.stats[i].leafChildCnt == 0 && tree.stats[i].lossChg == snode[i].bestLossChg
        invariant BaseWeights(tree.stats) == t.weight
      {
        tree.stats := tree.stats[nid := tree.stats[nid].(leafChildCnt := 0, lossChg := snode[nid].bestLossChg,
          sumHess := snode[nid].sumHess)];
      }
      ghost var s := Progress({}, -1, tree.nodes, Elements(tree.deletedNodes), tree.stats);
      PruningStarts(t, s);
      for nid: nat := 0 to tree.numNodes
        invariant tree.numNodes == |t.nodes| == old(tree.numNodes)
        invariant InState(t, s) && s.hole == -1
        invariant forall q: nat :: q in s.done && IsLeaf(t.nodes[q]) ==> q < nid
        invariant forall q: nat :: t.Has(q) && q < nid && IsLeaf(t.nodes[q]) ==> q in s.done
        invariant statNumPruned == tree.numDeleted - old(tree.numDeleted)
      {
        ReachedLeaf(t, s, nid);
        if IsLeaf(tree.nodes[nid]) {
          if t.Has(nid) {
            NewLeaf(t, s, nid);
            s := s.(done := s.done + {nid}, hole := nid);
          }
          var depth := tree.GetDepth(nid);
          s := TryPruneLeaf(nid, depth, t, s);
        }
      }
      PruningEnds(t, s);
      pruned := statNumPruned;
    }
  }
}
