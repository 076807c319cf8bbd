/** TreeModel of xgboost_tree_model.h: a pool of nodes with a list of the deleted ones. */
module TreeModels {
  import opened Forest

  datatype Stat = Stat(lossChg: real, sumHess: real, baseWeight: real, leafChildCnt: int)

  /** What SaveModel writes. */
  datatype Saved = Saved(numRoots: nat, numNodes: nat, numDeleted: nat, nodes: seq<Node>, stats: seq<Stat>)

  function Elements(s: seq<nat>): set<nat> { set x | x in s }

  predicate Distinct(s: seq<nat>) { forall i, j :: 0 <= i < j < |s| ==> s[i] != s[j] }

  class TreeModel {
    var nodes: seq<Node>
    var stats: seq<Stat>
    var deletedNodes: seq<nat>
    var numRoots: nat
    var numNodes: nat
    var numDeleted: nat
    /** The level of every node; it shows that following the parents ends. */
    ghost var depth: seq<nat>

    ghost predicate Valid()
      reads this
    {
      && numNodes == |nodes| == |stats| && 1 <= numRoots <= numNodes
      && numDeleted == |deletedNodes| && Distinct(deletedNodes)
      && Consistent(nodes, numRoots, Elements(deletedNodes), depth)
    }

    ghost predicate IsLive(nid: int)
      reads this
    {
      Live(nodes, Elements(deletedNodes), nid)
    }

    /** InitModel on a model without deleted nodes: the roots, all of them leaves. */
    method InitModel()
      requires 1 <= numRoots && numDeleted == 0 && deletedNodes == []
      modifies this
      ensures Valid() && numRoots == old(numRoots) == numNodes && deletedNodes == []
      ensures forall i :: 0 <= i < numNodes ==> IsLeaf(nodes[i]) && nodes[i].info == 0.0
    {
      numNodes := numRoots;
      nodes := seq(numNodes, _ => Node(NoParent, NoKids, 0, false, 0.0));
      stats := seq(numNodes, _ => Stat(0.0, 0.0, 0.0, 0));
      depth := seq(numNodes, _ => 0);
    }

    /** A node for use: the last one deleted, or a new one at the end. */
    method AllocNode(ghost free: set<nat>) returns (nd: nat)
      requires numNodes == |nodes| == |stats| && numDeleted == |deletedNodes| && Distinct(deletedNodes)
      requires Consistent(nodes, numRoots, Elements(deletedNodes) + free, depth) && Elements(deletedNodes) !! free
      modifies this
      ensures numNodes == |nodes| == |stats| && numDeleted == |deletedNodes| && Distinct(deletedNodes)
      ensures Consistent(nodes, numRoots, Elements(deletedNodes) + free + {nd}, depth)
        && Elements(deletedNodes) !! free + {nd}
      ensures nd !in free && numRoots == old(numRoots)
      ensures old(numDeleted) != 0 ==> nodes == old(nodes) && stats == old(stats) && nd in old(deletedNodes)
      ensures old(numDeleted) == 0 ==>
        numDeleted == 0 && nd == old(|nodes|) == |nodes| - 1 && old(nodes) == nodes[..nd] && old(stats) == stats[..nd]
      ensures old(depth) <= depth
      ensures Elements(deletedNodes) + {nd} == old(Elements(deletedNodes)) + {nd}
      ensures nd in old(Elements(deletedNodes)) || nd == old(|nodes|)
    {
      if numDeleted != 0 {
        nd := deletedNodes[|deletedNodes| - 1];
        assert deletedNodes == deletedNodes[..|deletedNodes| - 1] + [nd];
        assert Elements(deletedNodes) == Elements(deletedNodes[..|deletedNodes| - 1]) + {nd};
        deletedNodes := deletedNodes[..|deletedNodes| - 1];
        numDeleted := numDeleted - 1;
        assert Elements(deletedNodes) + free + {nd} == old(Elements(deletedNodes)) + free;
      } else {
        nd := numNodes;
        AppendKeeps(nodes, numRoots, Elements(deletedNodes) + free, depth, Node(NoParent, NoKids, 0, false, 0.0));
        numNodes := numNodes + 1;
        nodes := nodes + [Node(NoParent, NoKids, 0, false, 0.0)];
        stats := stats + [Stat(0.0, 0.0, 0.0, 0)];
        depth := depth + [0];
      }
    }

    /** AddChilds: two nodes not in use become the pending children of a node without children. */
    method AddChilds(nid: nat)
      requires Valid() && IsLive(nid) && !nodes[nid].kids.Kids?
      modifies this
      ensures Valid() && numRoots == old(numRoots) && |nodes| >= old(|nodes|)
      ensures nodes[nid].kids.Kids? && nodes[nid] == old(nodes[nid]).(kids := nodes[nid].kids)
      ensures var l, r := nodes[nid].kids.left, nodes[nid].kids.right;
        && IsLive(l) && IsLive(r) && !old(IsLive(l)) && !old(IsLive(r)) && l != r
        && nodes[l].kids.Pending? && nodes[r].kids.Pending?
        && (forall i :: 0 <= i < |nodes| ==> (IsLive(i) <==> old(IsLive(i)) || i == l || i == r))
        && (forall i :: 0 <= i < |nodes| && old(IsLive(i)) && i != nid ==> nodes[i] == old(nodes[i]))
        && (forall i :: 0 <= i < |nodes| && old(IsLive(i)) ==> stats[i] == old(stats[i]) && depth[i] == old(depth[i]))
        && (old(numDeleted) == 0 ==> numDeleted == 0 && l >= old(|nodes|) && r >= old(|nodes|))
    {
      hide NodeOk;
      ghost var before := Elements(deletedNodes);
      assert before + {} == before;
      var pleft := AllocNode({});
      assert Elements(deletedNodes) + {} + {pleft} == Elements(deletedNodes) + {pleft};
      var pright := AllocNode({pleft});
      assert Elements(deletedNodes) + {pleft} + {pright} == Elements(deletedNodes) + {pleft, pright};
      assert before + {pleft, pright} == Elements(deletedNodes) + {pleft, pright};
      AddChildsKeeps(nodes, numRoots, Elements(deletedNodes) + {pleft, pright}, depth, nid, pleft, pright);
      nodes := WithChilds(nodes, nid, pleft, pright);
      assert Elements(deletedNodes) + {pleft, pright} - {pleft, pright} == Elements(deletedNodes);
      depth := depth[pleft := depth[nid] + 1][pright := depth[nid] + 1];
    }

    /** set_split of a node that has children. */
    method SetSplit(nid: nat, feature: nat, cond: real, defaultLeft: bool)
      requires Valid() && IsLive(nid)
      modifies this`nodes
      ensures Valid()
      ensures nodes == old(nodes)[nid := old(nodes)[nid].(feature := feature, defaultLeft := defaultLeft, info := cond)]
    {
      ghost var n := nodes[nid].(feature := feature, defaultLeft := defaultLeft, info := cond);
      PayloadKeeps(nodes, numRoots, Elements(deletedNodes), depth, nid, n);
      nodes := nodes[nid := nodes[nid].(feature := feature, defaultLeft := defaultLeft, info := cond)];
    }

    /** set_leaf of a node that has no children. */
    method SetLeaf(nid: nat, value: real)
      requires Valid() && IsLive(nid) && !nodes[nid].kids.Kids?
      modifies this`nodes
      ensures Valid() && nodes == old(nodes)[nid := old(nodes)[nid].(kids := NoKids, info := value)]
    {
      PayloadKeeps(nodes, numRoots, Elements(deletedNodes), depth, nid, nodes[nid].(kids := NoKids, info := value));
      nodes := nodes[nid := nodes[nid].(kids := NoKids, info := value)];
    }

    /** DeleteNode: the node goes to the list and loses its parent. */
    method DeleteNode(nid: nat)
      requires numRoots <= nid < |nodes|
      modifies this`deletedNodes, this`nodes, this`numDeleted
      ensures deletedNodes == old(deletedNodes) + [nid] && numDeleted == old(numDeleted) + 1
      ensures nodes == old(nodes)[nid := old(nodes)[nid].(link := NoParent)]
    {
      deletedNodes := deletedNodes + [nid];
      nodes := nodes[nid := nodes[nid].(link := NoParent)];
      numDeleted := numDeleted + 1;
    }

    /** ChangeToLeaf of a node with two leaves below it. */
    method ChangeToLeaf(rid: nat, value: real)
      requires Valid() && IsLive(rid) && nodes[rid].kids.Kids?
      requires IsLive(nodes[rid].kids.left) && IsLeaf(nodes[nodes[rid].kids.left])
      requires IsLive(nodes[rid].kids.right) && IsLeaf(nodes[nodes[rid].kids.right])
      modifies this`deletedNodes, this`nodes, this`numDeleted
      ensures Valid() && nodes == WithoutChilds(old(nodes), rid, value)
      ensures deletedNodes == old(deletedNodes) + [old(nodes)[rid].kids.left, old(nodes)[rid].kids.right]
      ensures Elements(deletedNodes) == old(Elements(deletedNodes)) + {old(nodes)[rid].kids.left,
        old(nodes)[rid].kids.right}
      ensures numDeleted == old(numDeleted) + 2
    {
      var l, r := nodes[rid].kids.left, nodes[rid].kids.right;
      ChangeToLeafKeeps(nodes, numRoots, Elements(deletedNodes), depth, rid, value);
      assert NodeOk(nodes, numRoots, Elements(deletedNodes), depth, l);
      assert NodeOk(nodes, numRoots, Elements(deletedNodes), depth, r);
      assert NodeOk(nodes, numRoots, Elements(deletedNodes), depth, rid);
      DeleteNode(l);
      DeleteNode(r);
      nodes := nodes[rid := nodes[rid].(kids := NoKids, info := value)];
      assert nodes == WithoutChilds(old(nodes), rid, value);
      assert Elements(deletedNodes) == old(Elements(deletedNodes)) + {l, r};
    }

    /** Nothing below rid is pending, and no level is deeper than `deepest`. */
    ghost predicate Collapsible(rid: nat, deepest: nat)
      reads this
    {
      && NonePending(nodes, Elements(deletedNodes), depth, rid)
      && forall i: nat :: IsLive(i) && i < |depth| ==> depth[i] <= deepest
    }

    /** CollapseToLeaf: the subtrees of the children are collapsed first. */
    method CollapseToLeaf(rid: nat, value: real, ghost deepest: nat)
      requires Valid() && IsLive(rid) && Collapsible(rid, deepest)
      modifies this`deletedNodes, this`nodes, this`numDeleted
      decreases deepest - depth[rid]
      ensures Valid()
      ensures Collapsed(old(nodes), old(Elements(deletedNodes)), nodes, Elements(deletedNodes), depth, rid)
      ensures if old(IsLeaf(nodes[rid])) then nodes == old(nodes) else nodes[rid].info == value
    {
      hide Under, Collapsed;
      ghost var before, deleted := nodes, Elements(deletedNodes);
      NotPending(before, numRoots, deleted, depth, rid);
      if IsLeaf(nodes[rid]) {
        LeafIsCollapsed(before, numRoots, deleted, depth, rid);
        return;
      }
      var l, r := nodes[rid].kids.left, nodes[rid].kids.right;
      ChildrenApart(before, numRoots, deleted, depth, rid);
      if !IsLeaf(nodes[l]) {
        CollapseToLeaf(l, 0.0, deepest);
      } else {
        LeafIsCollapsed(before, numRoots, deleted, depth, l);
      }
      ghost var middle, gone := nodes, Elements(deletedNodes);
      LeftIsCollapsed(before, middle, numRoots, deleted, gone, depth, rid);
      if !IsLeaf(nodes[r]) {
        CollapseToLeaf(r, 0.0, deepest);
      } else {
        LeafIsCollapsed(middle, numRoots, gone, depth, r);
      }
      BothAreCollapsed(before, middle, nodes, numRoots, deleted, gone, Elements(deletedNodes), depth, rid, value);
      ChangeToLeaf(rid, value);
    }

    /** GetDepth: the number of steps up to the root; a deleted node has no parent. */
    method GetDepth(nid: nat) returns (d: nat)
      requires Valid() && nid < |nodes|
      ensures IsLive(nid) ==> d == depth[nid]
    {
      d := 0;
      var n: nat := nid;
      assert NodeOk(nodes, numRoots, Elements(deletedNodes), depth, n);
      while !IsRoot(nodes[n])
        invariant n < |nodes| && NodeOk(nodes, numRoots, Elements(deletedNodes), depth, n)
        invariant IsLive(nid) ==> IsLive(n) && d + depth[n] == depth[nid]
        decreases depth[n]
      {
        d := d + 1;
        n := nodes[n].link.pid;
        assert NodeOk(nodes, numRoots, Elements(deletedNodes), depth, n);
      }
    }

    /** SaveModel */
    method SaveModel() returns (file: Saved)
      requires Valid()
      ensures file == Saved(numRoots, numNodes, numDeleted, nodes, stats)
    {
      file := Saved(numRoots, numNodes, numDeleted, nodes, stats);
    }

    /** LoadModel: the list of deleted nodes is rebuilt from the parent links, and its length is
        compared with the number stored. */
    method LoadModel(file: Saved, ghost levels: seq<nat>) returns (ok: bool)
      requires file.numNodes == |file.nodes| == |file.stats|
      modifies this
      ensures nodes == file.nodes && stats == file.stats
      ensures numRoots == file.numRoots && numNodes == file.numNodes && numDeleted == file.numDeleted
      ensures Distinct(deletedNodes)
      ensures forall i: nat :: i in deletedNodes <==> file.numRoots <= i < file.numNodes && IsRoot(file.nodes[i])
      ensures ok <==> |deletedNodes| == file.numDeleted
      ensures depth == levels
    {
      numRoots, numNodes, numDeleted := file.numRoots, file.numNodes, file.numDeleted;
      nodes, stats, depth := file.nodes, file.stats, levels;
      deletedNodes := [];
      var i := numRoots;
      while i < numNodes
        invariant nodes == file.nodes && stats == file.stats && depth == levels
        invariant numRoots == file.numRoots && numNodes == file.numNodes && numDeleted == file.numDeleted
        invariant numRoots <= i && (i <= numNodes || i == numRoots) && Distinct(deletedNodes)
        invariant forall j: nat :: j in deletedNodes <==> numRoots <= j < i && j < numNodes && IsRoot(nodes[j])
        decreases numNodes - i
      {
        if IsRoot(nodes[i]) {
          deletedNodes := deletedNodes + [i];
        }
        i := i + 1;
      }
      ok := |deletedNodes| == numDeleted;
    }
  }

  lemma {:induction false} SameSize(s: seq<nat>, t: seq<nat>)
    requires Distinct(s) && Distinct(t) && Elements(s) == Elements(t)
    ensures |s| == |t|
  {
    SizeOf(s);
    SizeOf(t);
  }

  lemma {:induction false} SizeOf(s: seq<nat>)
    requires Distinct(s)
    ensures |Elements(s)| == |s|
  {
    if s != [] {
      var t, x := s[..|s| - 1], s[|s| - 1];
      SizeOf(t);
      assert x !in t;
      assert s == t + [x];
      assert Elements(s) == Elements(t) + {x};
    }
  }

  /** Loading what was saved is accepted, and gives the same forest and the same deleted nodes. */
  method SaveThenLoad(model: TreeModel) returns (copy: TreeModel)
    requires model.Valid()
    ensures fresh(copy) && copy.Valid() && copy.nodes == model.nodes && copy.stats == model.stats
    ensures copy.numRoots == model.numRoots && copy.numNodes == model.numNodes && copy.numDeleted == model.numDeleted
    ensures Elements(copy.deletedNodes) == Elements(model.deletedNodes)
  {
    var file := model.SaveModel();
    copy := new TreeModel;
    var ok := copy.LoadModel(file, model.depth);
    forall i: nat | i < |model.nodes|
      ensures i in copy.deletedNodes <==> i in model.deletedNodes
    {
      assert NodeOk(model.nodes, model.numRoots, Elements(model.deletedNodes), model.depth, i);
    }
    assert Elements(copy.deletedNodes) == Elements(model.deletedNodes);
    SameSize(copy.deletedNodes, model.deletedNodes);
    assert ok;
  }
}
