/** How a row walks down a tree at prediction: GetNext and GetLeafIndex of xgboost_tree.hpp. */
module TreeWalk {
  import opened Forest
  import opened Options
  import opened TreeModels

  /** An entry of a sparse row. */
  datatype Entry = Entry(feature: nat, value: real)

  type Row = seq<Entry>

  /** At most one entry for every feature. */
  predicate Functional(row: Row) { forall i, j :: 0 <= i < j < |row| ==> row[i].feature != row[j].feature }

  function Lookup(row: Row, f: nat): Option<real> {
    if row == [] then None else if row[0].feature == f then Some(row[0].value) else Lookup(row[1..], f)
  }

  lemma {:induction false} LookupIs(row: Row, f: nat)
    ensures match Lookup(row, f)
      case None => forall i :: 0 <= i < |row| ==> row[i].feature != f
      case Some(v) => exists i :: 0 <= i < |row| && row[i] == Entry(f, v)
    ensures Functional(row) ==> forall i :: 0 <= i < |row| && row[i].feature == f ==>
      Lookup(row, f) == Some(row[i].value)
  {
    if row != [] {
      LookupIs(row[1..], f);
      if Lookup(row, f).Some? && row[0].feature != f {
        var i :| 0 <= i < |row[1..]| && row[1..][i] == Entry(f, Lookup(row, f).value);
        assert row[i + 1] == Entry(f, Lookup(row, f).value);
      }
    }
  }

  /** GetNext: a missing value takes the default branch, any other one is compared with the split condition. */
  predicate GoesLeft(n: Node, row: Row) {
    match Lookup(row, n.feature)
    case None => n.defaultLeft
    case Some(v) => v < n.info
  }

  function Next(n: Node, row: Row): nat
    requires n.kids.Kids?
  {
    if GoesLeft(n, row) then n.kids.left else n.kids.right
  }

  /** The node a walk has reached after d steps, or -1 when it has ended before. */
  function WalkPos(nodes: seq<Node>, root: int, row: Row, d: nat): int {
    if d == 0 then root
    else
      var q := WalkPos(nodes, root, row, d - 1);
      if 0 <= q < |nodes| && nodes[q].kids.Kids? then Next(nodes[q], row) else -1
  }

  /** The walk ends in the leaf p. */
  ghost predicate LeadsTo(nodes: seq<Node>, root: int, row: Row, p: nat) {
    p < |nodes| && IsLeaf(nodes[p]) && exists d: nat :: WalkPos(nodes, root, row, d) == p
  }

  /** Steps do not depend on nodes the walk has not visited. */
  lemma {:induction false} WalkStays(nodes: seq<Node>, after: seq<Node>, root: int, row: Row, d: nat)
    requires |nodes| <= |after|
    requires forall e: nat :: e < d ==> var q := WalkPos(nodes, root, row, e); 0 <= q < |nodes| ==> after[q] == nodes[q]
    requires forall e: nat :: e < d ==> WalkPos(nodes, root, row, e) < |nodes|
    ensures WalkPos(after, root, row, d) == WalkPos(nodes, root, row, d)
  {
    if d != 0 { WalkStays(nodes, after, root, row, d - 1); }
  }

  /** Once a walk has ended it stays so. */
  lemma {:induction false} WalkEnded(nodes: seq<Node>, root: int, row: Row, d: nat, e: nat)
    requires d <= e && WalkPos(nodes, root, row, d) < 0 && root >= -1
    ensures WalkPos(nodes, root, row, e) == -1
    decreases e - d
  {
    if d < e { WalkEnded(nodes, root, row, d + 1, e); }

  }

  /** A walk has only one end. */
  lemma OneLeaf(nodes: seq<Node>, root: int, row: Row, p: nat, q: nat)
    requires LeadsTo(nodes, root, row, p) && LeadsTo(nodes, root, row, q) && root >= -1
    ensures p == q
  {
    var d: nat :| WalkPos(nodes, root, row, d) == p;
    var e: nat :| WalkPos(nodes, root, row, e) == q;
    assert WalkPos(nodes, root, row, d + 1) == -1 && WalkPos(nodes, root, row, e + 1) == -1;
    if d < e { WalkEnded(nodes, root, row, d + 1, e); }
    if e < d { WalkEnded(nodes, root, row, e + 1, d); }
  }

  // ----- prediction with scratch vectors -----

  /** ThreadEntry */
  class Scratch {
    const feat: array<real>
    const funknown: array<bool>

    constructor (n: nat)
      ensures feat.Length == n && funknown.Length == n && Unknown() && fresh(feat) && fresh(funknown)
    {
      feat := new real[n](_ => 0.0);
      funknown := new bool[n](_ => true);
    }

    ghost predicate Unknown()
      reads funknown
    {
      forall f :: 0 <= f < funknown.Length ==> funknown[f]
    }

    /** The scratch vectors hold exactly the entries of the row. */
    ghost predicate Holds(row: Row)
      reads feat, funknown
    {
      feat.Length == funknown.Length
      && forall f: nat :: f < funknown.Length ==> Lookup(row, f) == if funknown[f] then None else Some(feat[f])
    }

    /** PrepareTmp */
    method PrepareTmp(row: Row)
      requires Unknown() && feat.Length == funknown.Length && Functional(row)
      requires forall i :: 0 <= i < |row| ==> row[i].feature < funknown.Length
      modifies feat, funknown
      ensures Holds(row)
    {
      for i := 0 to |row|
        invariant forall f: nat :: f < funknown.Length && !funknown[f] ==>
          exists j :: 0 <= j < i && row[j] == Entry(f, feat[f])
        invariant forall j :: 0 <= j < i ==> !funknown[row[j].feature]
      {
        funknown[row[i].feature] := false;
        feat[row[i].feature] := row[i].value;
        forall f: nat | f < funknown.Length && !funknown[f]
          ensures exists j :: 0 <= j < i + 1 && row[j] == Entry(f, feat[f])
        {
          if f == row[i].feature { assert row[i] == Entry(f, feat[f]); }
        }
      }
      forall f: nat | f < funknown.Length ensures Lookup(row, f) == if funknown[f] then None else Some(feat[f]) {
        LookupIs(row, f);
      }
    }

    /** DropTmp: everything is unknown again. */
    method DropTmp(row: Row)
      requires Holds(row) && forall i :: 0 <= i < |row| ==> row[i].feature < funknown.Length
      modifies funknown
      ensures Unknown()
    {
      for i := 0 to |row|
        invariant forall f: nat :: f < funknown.Length && !funknown[f] ==> !old(funknown[f])
        invariant forall j :: 0 <= j < i ==> funknown[row[j].feature]
      {
        funknown[row[i].feature] := true;
      }
      forall f: nat | f < funknown.Length ensures funknown[f] { LookupIs(row, f); }
    }
  }

  /** Every node below a root is decided, and no level is deeper than `deepest`. */
  ghost predicate Complete(tree: TreeModel, deepest: nat)
    reads tree
  {
    && tree.Valid()
    && (forall i :: tree.IsLive(i) ==> !tree.nodes[i].kids.Pending?)
    && (forall i :: tree.IsLive(i) && i < |tree.depth| ==> tree.depth[i] <= deepest)
  }

  /** GetLeafIndex: the walk goes from the root to a leaf. */
  method GetLeafIndex(tree: TreeModel, scratch: Scratch, gid: nat, ghost row: Row, ghost deepest: nat)
    returns (pid: nat)
    requires Complete(tree, deepest) && gid < tree.numRoots && scratch.Holds(row)
    requires forall i :: tree.IsLive(i) && tree.nodes[i].kids.Kids? ==> tree.nodes[i].feature < scratch.feat.Length
    ensures tree.IsLive(pid) && LeadsTo(tree.nodes, gid, row, pid)
  {
    pid := gid;
    ghost var d: nat := 0;
    ghost var deleted := Elements(tree.deletedNodes);
    assert NodeOk(tree.nodes, tree.numRoots, deleted, tree.depth, pid);
    while !IsLeaf(tree.nodes[pid])
      invariant tree.IsLive(pid) && pid < |tree.nodes| && WalkPos(tree.nodes, gid, row, d) == pid
      decreases deepest - tree.depth[pid]
    {
      var n := tree.nodes[pid];
      assert NodeOk(tree.nodes, tree.numRoots, deleted, tree.depth, pid);
      assert NodeOk(tree.nodes, tree.numRoots, deleted, tree.depth, n.kids.left);
      assert NodeOk(tree.nodes, tree.numRoots, deleted, tree.depth, n.kids.right);
      if scratch.funknown[n.feature] {
        pid := if n.defaultLeft then n.kids.left else n.kids.right;
      } else if scratch.feat[n.feature] < n.info {
        pid := n.kids.left;
      } else {
        pid := n.kids.right;
      }
      d := d + 1;
    }
  }

  /** Predict: the scratch vectors are as before afterwards. */
  method Predict(tree: TreeModel, scratch: Scratch, row: Row, gid: nat, ghost deepest: nat)
    returns (value: real, ghost leaf: nat)
    requires Complete(tree, deepest) && gid < tree.numRoots && scratch.Unknown() && Functional(row)
    requires scratch.feat.Length == scratch.funknown.Length
    requires forall i :: 0 <= i < |row| ==> row[i].feature < scratch.feat.Length
    requires forall i :: tree.IsLive(i) && tree.nodes[i].kids.Kids? ==> tree.nodes[i].feature < scratch.feat.Length
    modifies scratch.feat, scratch.funknown
    ensures LeadsTo(tree.nodes, gid, row, leaf) && value == tree.nodes[leaf].info && scratch.Unknown()
  {
    scratch.PrepareTmp(row);
    var pid := GetLeafIndex(tree, scratch, gid, row, deepest);
    scratch.DropTmp(row);
    value, leaf := tree.nodes[pid].info, pid;
  }
}
