/** The words of the tree contracts, from the entries of the rows: a step of a walk, which nodes collapse, the
    weight of a node and where a column may be cut. */
module TreeMeaning {
  import opened Forest
  import opened LeafWeights
  import opened PruneSpec
  import opened ReachingRows
  import opened SplitCuts
  import opened TreeGrowth
  import opened TreeModels
  import opened TreeWalk

  // ----- walks -----

  /** A walk starts at its root, goes left for an entry below the split condition and right for any other entry of
      the feature, takes the default branch without one, and ends behind a node without children. */
  lemma WalkMeans(nodes: seq<Node>, root: int, row: Row, d: nat, q: int, n: Node, i: nat)
    requires q == WalkPos(nodes, root, row, d) && Functional(row)
    requires 0 <= q < |nodes| ==> n == nodes[q]
    ensures WalkPos(nodes, root, row, 0) == root
    ensures !(0 <= q < |nodes| && n.kids.Kids?) ==> WalkPos(nodes, root, row, d + 1) == -1
    ensures 0 <= q < |nodes| && n.kids.Kids? && i < |row| && row[i].feature == n.feature ==>
      WalkPos(nodes, root, row, d + 1) == if row[i].value < n.info then n.kids.left else n.kids.right
    ensures 0 <= q < |nodes| && n.kids.Kids? && (forall k :: 0 <= k < |row| ==> row[k].feature != n.feature) ==>
      WalkPos(nodes, root, row, d + 1) == if n.defaultLeft then n.kids.left else n.kids.right
  {
    if 0 <= q < |nodes| { LookupIs(row, n.feature); }
  }

  /** The walk ends in a node without children that it comes to. */
  lemma LeadsToMeans(nodes: seq<Node>, root: int, row: Row, p: nat, d: nat)
    ensures p < |nodes| && nodes[p].kids == NoKids && WalkPos(nodes, root, row, d) == p ==>
      LeadsTo(nodes, root, row, p)
    ensures LeadsTo(nodes, root, row, p) ==> p < |nodes| && nodes[p].kids == NoKids
    ensures LeadsTo(nodes, root, row, p) ==> exists e: nat :: WalkPos(nodes, root, row, e) == p
  {
  }

  // ----- pruning -----

  predicate Kid(nodes: seq<Node>, p: nat, c: nat) {
    p < |nodes| && nodes[p].kids.Kids? && (c == nodes[p].kids.left || c == nodes[p].kids.right)
  }

  /** From p down to q, child by child. */
  predicate Down(nodes: seq<Node>, path: seq<nat>, p: nat, q: nat) {
    && path != [] && path[0] == p && path[|path| - 1] == q
    && forall i :: 0 <= i < |path| - 1 ==> Kid(nodes, path[i], path[i + 1])
  }

  /** When p collapses, every node at or below it is a leaf, or a split that gains less than min. */
  lemma {:induction false} CollapsesAll(nodes: seq<Node>, loss: seq<real>, min: real, path: seq<nat>, p: nat, q: nat)
    requires ChildrenAfter(nodes) && |loss| == |nodes| && p < |nodes|
    requires Down(nodes, path, p, q) && Collapses(nodes, loss, min, p)
    ensures q < |nodes| && (nodes[q].kids == NoKids || (nodes[q].kids.Kids? && loss[q] < min))
    decreases |path|
  {
    if |path| > 1 {
      assert Kid(nodes, path[0], path[1]) && Down(nodes, path[1..], path[1], q);
      CollapsesAll(nodes, loss, min, path[1..], path[1], q);
    }
  }

  /** When it does not, some node at or below it is open, or a split that gains enough. */
  lemma {:induction false} KeptBy(nodes: seq<Node>, loss: seq<real>, min: real, p: nat)
    returns (path: seq<nat>, q: nat)
    requires ChildrenAfter(nodes) && |loss| == |nodes| && p < |nodes| && !Collapses(nodes, loss, min, p)
    ensures Down(nodes, path, p, q) && q < |nodes|
    ensures nodes[q].kids == Pending || (nodes[q].kids.Kids? && loss[q] >= min)
    decreases |nodes| - p
  {
    path, q := [p], p;
    match nodes[p].kids
    case Kids(l, r) =>
      if loss[p] < min {
        var c := if Collapses(nodes, loss, min, l) then r else l;
        var below, last := KeptBy(nodes, loss, min, c);
        path, q := [p] + below, last;
        assert Kid(nodes, p, c);
        assert forall i :: 0 < i < |path| ==> path[i] == below[i - 1];
      }
    case _ =>
  }

  // ----- weights -----

  /** A leaf holds the weight of the rows that come to it times the learning rate, and a split has it among the
      statistics. The weight is that of the sums of their gradients and hessians, and of the weight of the parent,
      which is zero for a root. */
  lemma WeighedMeans(w: Sample, t: Trees, stats: seq<Stat>, p: nat, list: seq<nat>, parent: real, v: real)
    requires Weighed(w, t, stats, p) && list == RowsAt(w, t, p)
    requires match t.nodes[p].link
      case NoParent => parent == 0.0
      case ChildOf(pid, _) => pid < |stats| && parent == stats[pid].baseWeight
    requires v == w.calcWeight(SumRow(w.grad, list, |list|), SumRow(w.hess, list, |list|), parent)
    ensures t.nodes[p].kids == NoKids || t.nodes[p].kids.Kids?
    ensures t.nodes[p].kids == NoKids ==> t.nodes[p].info == w.rate * v
    ensures t.nodes[p].kids.Kids? ==> stats[p].baseWeight == v
  {
  }

  /** The rows at a node, one after the other, are those that take part and whose walk is there at its depth. */
  lemma RowsAtMean(nodes: seq<Node>, start: seq<int>, rows: seq<Row>, s: seq<nat>, x: nat, p: nat, d: nat)
    requires |start| == |rows|
    ensures Reaching(nodes, start, rows, [], p, d) == []
    ensures Reaching(nodes, start, rows, s + [x], p, d) == Reaching(nodes, start, rows, s, p, d)
      + if x < |rows| && WalkPos(nodes, start[x], rows[x], d) == p then [x] else []
  {
    assert (s + [x])[..|s|] == s;
  }

  lemma SumMeans(v: seq<real>, s: seq<nat>, x: nat)
    requires x < |v|
    ensures SumRow(v, [], 0) == 0.0 && SumRow(v, s + [x], |s| + 1) == SumRow(v, s, |s|) + v[x]
  {
    SumAdds(v, s, x);
  }

  // ----- cuts -----

  /** No reason to give up at a cut before i with the hessians h on its side. */
  predicate GoesOn(s: Sums, param: Param, col: seq<Entry>, i: nat, h: real)
    requires 0 < i < |col|
  {
    col[i].value - col[i - 1].value > 0.00002 && h >= param.minChildWeight ==> s.rsumHess - h >= param.minChildWeight
  }

  /** A cut before k needs values more than 2e-5 apart, two sides that are heavy enough, and that the search has
      not given up before it, which it does at a cut with one side heavy enough and the other one not. */
  lemma CutMeans(left: bool, k: nat, loss: real, s: Sums, param: Param, col: seq<Entry>, g: real, h: real, i: nat)
    requires CutAt(left, k, loss, s, param, col)
    requires left ==> k < |col| && g == SumOf(s.grad, col, k, |col|) && h == SumOf(s.hess, col, k, |col|)
    requires !left ==> k <= |col| && g == SumOf(s.grad, col, 0, k) && h == SumOf(s.hess, col, 0, k)
    ensures 0 < k < |col| ==> col[k].value - col[k - 1].value > 0.00002
    ensures if left then param.backward && k < |col| else param.forward && 0 < k <= |col|
    ensures h >= param.minChildWeight && s.rsumHess - h >= param.minChildWeight
    ensures loss == param.gain(g, h, s.weight) + param.gain(s.rsumGrad - g, s.rsumHess - h, s.weight) - s.rootGain
    ensures !left && 0 < i < k ==> GoesOn(s, param, col, i, SumOf(s.hess, col, 0, i))
    ensures left && k < i < |col| ==> GoesOn(s, param, col, i, SumOf(s.hess, col, i, |col|))
  {
    hide SumOf;
    if !left && 0 < i < k { assert !GivesUp(s, param, col, i, 0, i); }
    if left && k < i < |col| { assert !GivesUp(s, param, col, i, i, |col|); }
  }

  /** Every such cut is looked at. */
  lemma CutFound(left: bool, k: nat, loss: real, s: Sums, param: Param, col: seq<Entry>, g: real, h: real)
    requires if left then param.backward && k < |col| else param.forward && 0 < k <= |col|
    requires left ==> g == SumOf(s.grad, col, k, |col|) && h == SumOf(s.hess, col, k, |col|)
    requires !left ==> g == SumOf(s.grad, col, 0, k) && h == SumOf(s.hess, col, 0, k)
    requires 0 < k < |col| ==> col[k].value - col[k - 1].value > 0.00002
    requires h >= param.minChildWeight && s.rsumHess - h >= param.minChildWeight
    requires loss == param.gain(g, h, s.weight) + param.gain(s.rsumGrad - g, s.rsumHess - h, s.weight) - s.rootGain
    requires !left ==> forall i :: 0 < i < k ==> GoesOn(s, param, col, i, SumOf(s.hess, col, 0, i))
    requires left ==> forall i :: k < i < |col| ==> GoesOn(s, param, col, i, SumOf(s.hess, col, i, |col|))
    ensures CutAt(left, k, loss, s, param, col)
  {
    hide SumOf;
    if left {
      forall i | k < i < |col| ensures !GivesUp(s, param, col, i, i, |col|) {
        assert GoesOn(s, param, col, i, SumOf(s.hess, col, i, |col|));
      }
    } else {
      forall i | 0 < i < k ensures !GivesUp(s, param, col, i, 0, i) {
        assert GoesOn(s, param, col, i, SumOf(s.hess, col, 0, i));
      }
    }
  }

  lemma ColumnSumMeans(v: seq<real>, col: seq<Entry>, from: nat, to: nat)
    requires to <= |col|
    ensures SumOf(v, col, to, to) == 0.0
    ensures from < to && col[to - 1].feature < |v| ==>
      SumOf(v, col, from, to) == SumOf(v, col, from, to - 1) + v[col[to - 1].feature]
  {
  }
}
