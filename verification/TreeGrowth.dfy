/** What deciding one node, to split it or to make it a leaf, does to the walks of all rows. */
module TreeGrowth {
  import opened Forest
  import opened TreeModels
  import opened TreeWalk

  /** 1e-5f */
  const RT_EPS: real := 0.00001

  /** SplitEntry: the best split found for a node. */
  datatype SplitEntry = SplitEntry(lossChg: real, feature: nat, cond: real, defaultLeft: bool)

  /** The nodes of a model with the levels that make them a forest. */
  datatype Trees = Trees(nodes: seq<Node>, roots: nat, deleted: set<nat>, depth: seq<nat>) {
    ghost predicate Ok() { Consistent(nodes, roots, deleted, depth) }
    predicate Has(p: int) { Live(nodes, deleted, p) }
    /** In the forest and not split. */
    predicate Open(p: int) { Has(p) && !nodes[p].kids.Kids? }
  }

  ghost function TreesOf(tree: TreeModel): Trees
    reads tree
  {
    Trees(tree.nodes, tree.numRoots, Elements(tree.deletedNodes), tree.depth)
  }

  /** From s to t the open node p has been decided, and nothing else has changed. */
  ghost predicate Decided(s: Trees, t: Trees, p: nat) {
    && s.Ok() && t.Ok() && s.Open(p) && t.roots == s.roots && |t.nodes| >= |s.nodes|
    && t.Has(p) && !t.nodes[p].kids.Pending? && t.nodes[p].link == s.nodes[p].link
    && (forall i :: s.Has(i) && i != p ==> t.nodes[i] == s.nodes[i])
    && (forall i :: s.Has(i) ==> t.depth[i] == s.depth[i])
    && (forall i :: t.Has(i) <==>
       s.Has(i) || (t.nodes[p].kids.Kids? && (i == t.nodes[p].kids.left || i == t.nodes[p].kids.right)))
    && (t.nodes[p].kids.Kids? ==>
      && !s.Has(t.nodes[p].kids.left) && !s.Has(t.nodes[p].kids.right)
      && t.nodes[t.nodes[p].kids.left].kids.Pending? && t.nodes[t.nodes[p].kids.right].kids.Pending?)
  }

  /** A forest that has only grown: nothing deleted, children behind their parents. */
  ghost predicate Grown(t: Trees) { t.deleted == {} && ChildrenAfter(t.nodes) }

  lemma StillGrown(s: Trees, t: Trees, p: nat)
    requires Decided(s, t, p) && Grown(s) && t.deleted == {}
    requires t.nodes[p].kids.Kids? ==> t.nodes[p].kids.left >= |s.nodes| && t.nodes[p].kids.right >= |s.nodes|
    ensures Grown(t)
  {
    forall x | 0 <= x < |t.nodes| && t.nodes[x].kids.Kids?
      ensures x < t.nodes[x].kids.left < |t.nodes| && x < t.nodes[x].kids.right < |t.nodes|
    {
      assert t.Has(x);
      if x != p { assert s.Has(x) && t.nodes[x] == s.nodes[x]; }
      if x == p { assert t.Has(t.nodes[p].kids.left) && t.Has(t.nodes[p].kids.right); }
    }
  }

  ghost predicate Good(t: Trees, p: nat) { t.Ok() && p < |t.nodes| && NodeOk(t.nodes, t.roots, t.deleted, t.depth, p) }

  /** A walk from a root is at level d after d steps. */
  lemma {:induction false} WalkLevel(t: Trees, root: int, row: Row, d: nat)
    requires t.Ok() && -1 <= root < t.roots
    ensures var q := WalkPos(t.nodes, root, row, d); q == -1 || (t.Has(q) && t.depth[q] == d)
  {
    if d == 0 {
      if root != -1 { assert Good(t, root); }
    } else {
      WalkLevel(t, root, row, d - 1);
      var q := WalkPos(t.nodes, root, row, d - 1);
      if 0 <= q < |t.nodes| && t.nodes[q].kids.Kids? {
        assert Good(t, q) && Good(t, t.nodes[q].kids.left) && Good(t, t.nodes[q].kids.right);
      }
    }
  }

  /** Only walks that end at the decided node go on, by one step. */
  lemma {:induction false} WalkGrows(s: Trees, t: Trees, p: nat, root: int, row: Row, d: nat)
    requires Decided(s, t, p) && -1 <= root < s.roots
    ensures WalkPos(t.nodes, root, row, d)
      == if d > s.depth[p] && WalkPos(s.nodes, root, row, s.depth[p]) == p
         then (if d == s.depth[p] + 1 && t.nodes[p].kids.Kids? then Next(t.nodes[p], row) else -1)
         else WalkPos(s.nodes, root, row, d)
    ensures d > s.depth[p] && WalkPos(s.nodes, root, row, s.depth[p]) == p ==> WalkPos(s.nodes, root, row, d) == -1
  {
    if d != 0 {
      WalkGrows(s, t, p, root, row, d - 1);
      WalkLevel(s, root, row, d - 1);
    }
  }

  /** The nodes there are, but for p, have kept their weights among the statistics. */
  ghost predicate KeepsWeights(s: Trees, stats: seq<Stat>, after: seq<Stat>, p: int) {
    forall i: nat :: s.Has(i) && i != p ==> i < |stats| && i < |after| && after[i].baseWeight == stats[i].baseWeight
  }

  /** An open node becomes a leaf. */
  method MakeLeaf(tree: TreeModel, nid: nat, value: real)
    requires tree.Valid() && TreesOf(tree).Open(nid)
    modifies tree
    ensures tree.Valid() && Decided(old(TreesOf(tree)), TreesOf(tree), nid)
    ensures IsLeaf(tree.nodes[nid]) && tree.nodes[nid].info == value && tree.stats == old(tree.stats)
    ensures tree.numDeleted == old(tree.numDeleted) && |tree.nodes| == old(|tree.nodes|)
    ensures old(Grown(TreesOf(tree))) ==> Grown(TreesOf(tree))
  {
    ghost var s := TreesOf(tree);
    tree.SetLeaf(nid, value);
    if Grown(s) { StillGrown(s, TreesOf(tree), nid); }
  }

  lemma NothingDeleted(list: seq<nat>)
    ensures Elements(list) == {} <==> |list| == 0
  {
    assert |list| > 0 ==> list[0] in Elements(list);
  }

  /** The node is split as e says, the best split that was found, or becomes a leaf with this value. */
  method DecideNode(tree: TreeModel, nid: nat, e: SplitEntry, value: real)
    requires tree.Valid() && TreesOf(tree).Open(nid)
    modifies tree
    ensures tree.Valid() && Decided(old(TreesOf(tree)), TreesOf(tree), nid)
    ensures if e.lossChg > RT_EPS
      then tree.nodes[nid].kids.Kids? && tree.nodes[nid].feature == e.feature && tree.nodes[nid].info == e.cond
        && tree.nodes[nid].defaultLeft == e.defaultLeft
      else IsLeaf(tree.nodes[nid]) && tree.nodes[nid].info == value
    ensures KeepsWeights(old(TreesOf(tree)), old(tree.stats), tree.stats, -1)
    ensures old(Grown(TreesOf(tree))) ==> Grown(TreesOf(tree))
  {
    ghost var s := TreesOf(tree);
    NothingDeleted(tree.deletedNodes);
    if e.lossChg > RT_EPS {
      tree.AddChilds(nid);
      ghost var t := TreesOf(tree);
      forall i | 0 <= i < |t.nodes|
        ensures t.Has(i) <==> s.Has(i) || i == t.nodes[nid].kids.left || i == t.nodes[nid].kids.right
      {
        assert tree.IsLive(i) == t.Has(i) && old(tree.IsLive(i)) == s.Has(i);
      }
      tree.SetSplit(nid, e.feature, e.cond, e.defaultLeft);
      NothingDeleted(tree.deletedNodes);
      if Grown(s) { StillGrown(s, TreesOf(tree), nid); }
    } else {
      MakeLeaf(tree, nid, value);
    }
  }

  /** A walk that has stopped has stopped at a leaf, when nothing is pending. */
  lemma {:induction false} StoppedAtLeaf(t: Trees, root: nat, row: Row, d: nat)
    requires t.Ok() && root < t.roots && WalkPos(t.nodes, root, row, d) == -1
    requires forall p: nat :: t.Has(p) ==> !t.nodes[p].kids.Pending?
    ensures exists leaf: nat :: LeadsTo(t.nodes, root, row, leaf)
  {
    if d != 0 {
      WalkLevel(t, root, row, d - 1);
      var q := WalkPos(t.nodes, root, row, d - 1);
      if q == -1 { StoppedAtLeaf(t, root, row, d - 1); } else { assert LeadsTo(t.nodes, root, row, q); }
    }
  }

  lemma {:induction false} DepthBounded(depth: seq<nat>) returns (bound: nat)
    ensures forall p :: 0 <= p < |depth| ==> depth[p] < bound
  {
    bound := 0;
    if depth != [] {
      var front := depth[..|depth| - 1];
      bound := DepthBounded(front);
      var last := depth[|depth| - 1];
      bound := if last < bound then bound else last + 1;
      forall p | 0 <= p < |depth| ensures depth[p] < bound { assert p < |front| ==> front[p] == depth[p]; }
    }
  }

  /** With nothing pending every walk from a root ends in a leaf. */
  lemma EveryWalkEnds(t: Trees, root: nat, row: Row)
    requires t.Ok() && root < t.roots && forall p: nat :: t.Has(p) ==> !t.nodes[p].kids.Pending?
    ensures exists leaf: nat :: LeadsTo(t.nodes, root, row, leaf)
  {
    var bound := DepthBounded(t.depth);
    WalkLevel(t, root, row, bound);
    StoppedAtLeaf(t, root, row, bound);
  }
}
