/** DoPrune of xgboost_base_treemaker.hpp: which nodes become leaves. */
module PruneSpec {
  import opened Forest
  import opened TreeModels

  /** The maximal collapse from below: p is a leaf, or both children collapse and its split gains too little. */
  predicate Collapses(nodes: seq<Node>, loss: seq<real>, min: real, p: nat)
    requires ChildrenAfter(nodes) && |loss| == |nodes| && p < |nodes|
    decreases |nodes| - p
  {
    match nodes[p].kids
    case NoKids => true
    case Pending => false
    case Kids(l, r) => Collapses(nodes, loss, min, l) && Collapses(nodes, loss, min, r) && loss[p] < min
  }

  /** The forest before pruning, with the gain of every split and the weight of every node. */
  datatype Input = Input(nodes: seq<Node>, roots: nat, deleted: set<nat>, depth: seq<nat>, loss: seq<real>, min: real,
                         weight: seq<real>, rate: real) {
    ghost predicate Ok() { Consistent(nodes, roots, deleted, depth) && |loss| == |nodes| == |weight| }
    predicate Has(p: int) { Live(nodes, deleted, p) }

    /** Node p as a leaf: a split is left with its weight, times the learning rate. */
    function AsLeaf(p: nat): Node
      requires p < |nodes| == |weight|
    {
      if IsLeaf(nodes[p]) then nodes[p] else nodes[p].(kids := NoKids, info := rate * weight[p])
    }
  }

  /** How far pruning has come: done are the nodes known to be leaves, of which hole is not yet counted
    * by its parent. */
  datatype Progress = Progress(done: set<nat>, hole: int, now: seq<Node>, gone: set<nat>, stats: seq<Stat>)

  /** Node p is a child of a node in done. */
  predicate ParentIn(nodes: seq<Node>, done: set<nat>, p: nat)
    requires p < |nodes|
  {
    nodes[p].link.ChildOf? && nodes[p].link.pid in done
  }

  /** What pruning has done to node p. */
  predicate Treated(t: Input, s: Progress, p: nat)
    requires |t.nodes| == |t.loss| == |t.weight| == |s.now| == |s.stats| && p < |t.nodes|
  {
    && (p in s.gone <==> ParentIn(t.nodes, s.done, p))
    && (p !in s.gone ==> s.now[p].link == t.nodes[p].link)
    && (p !in s.gone && p !in s.done ==> s.now[p] == t.nodes[p])
    && (p in s.done ==> IsLeaf(s.now[p]) && (p !in s.gone ==> s.now[p] == t.AsLeaf(p)))
    && s.stats[p].lossChg == t.loss[p] && s.stats[p].baseWeight == t.weight[p]
    && match t.nodes[p].kids
       case NoKids => true
       case Pending => p !in s.done
       case Kids(l, r) =>
         if p in s.done then l in s.done && r in s.done && t.loss[p] < t.min
         else
           && s.stats[p].leafChildCnt == Count(l in s.done && l != s.hole) + Count(r in s.done && r != s.hole)
           && (l in s.done && r in s.done && t.loss[p] < t.min ==> s.hole == l || s.hole == r)
  }

  ghost predicate Pruning(t: Input, s: Progress) {
    && t.Ok() && |t.nodes| == |s.now| == |s.stats|
    && (forall p :: p in s.done ==> t.Has(p))
    && (forall p :: p in t.deleted ==> p < |t.nodes| && p in s.gone && s.now[p] == t.nodes[p])
    && forall p: nat :: t.Has(p) ==> Treated(t, s, p)
  }

  ghost predicate Good(t: Input, p: nat) { t.Ok() && p < |t.nodes| && NodeOk(t.nodes, t.roots, t.deleted, t.depth, p) }

  /** Everything at or behind n is untouched as long as only leaves before n are done. */
  lemma {:induction false} NotYetDone(t: Input, s: Progress, n: nat, p: nat)
    requires ChildrenAfter(t.nodes) && Pruning(t, s) && t.Has(p) && n <= p
    requires forall q: nat :: q in s.done && IsLeaf(t.nodes[q]) ==> q < n
    ensures p !in s.done
    decreases |t.nodes| - p
  {
    assert Good(t, p) && Treated(t, s, p);
    if t.nodes[p].kids.Kids? { NotYetDone(t, s, n, t.nodes[p].kids.left); }
  }

  /** When all leaves are done and counted, exactly the nodes that collapse are done. */
  lemma {:induction false} AllDone(t: Input, s: Progress, p: nat)
    requires ChildrenAfter(t.nodes) && Pruning(t, s) && t.Has(p) && s.hole == -1
    requires forall q: nat :: t.Has(q) && IsLeaf(t.nodes[q]) ==> q in s.done
    ensures p in s.done <==> Collapses(t.nodes, t.loss, t.min, p)
    decreases |t.nodes| - p
  {
    assert Good(t, p) && Treated(t, s, p);
    if t.nodes[p].kids.Kids? {
      AllDone(t, s, t.nodes[p].kids.left);
      AllDone(t, s, t.nodes[p].kids.right);
    }
  }

  /** A leaf that nobody has counted yet. */
  lemma NewLeaf(t: Input, s: Progress, n: nat)
    requires Pruning(t, s) && s.hole == -1 && t.Has(n) && IsLeaf(t.nodes[n]) && n !in s.done
    ensures n !in s.gone && s.now[n] == t.nodes[n] && Pruning(t, s.(done := s.done + {n}, hole := n))
  {
    assert Good(t, n) && Treated(t, s, n);
    if t.nodes[n].link.ChildOf? { assert Good(t, t.nodes[n].link.pid) && Treated(t, s, t.nodes[n].link.pid); }
    var next := s.(done := s.done + {n}, hole := n);
    forall p: nat | t.Has(p) ensures Treated(t, next, p) { assert Good(t, p) && Treated(t, s, p); }
  }

  function OneMore(stats: seq<Stat>, p: nat): seq<Stat>
    requires p < |stats|
  {
    stats[p := stats[p].(leafChildCnt := stats[p].leafChildCnt + 1)]
  }

  /** A root has no parent that counts it. */
  lemma RootCounted(t: Input, s: Progress)
    requires Pruning(t, s) && s.hole in s.done && IsRoot(t.nodes[s.hole])
    ensures Pruning(t, s.(hole := -1))
  {
    assert Good(t, s.hole);
    forall p: nat | t.Has(p) ensures Treated(t, s.(hole := -1), p) { assert Good(t, p) && Treated(t, s, p); }
  }

  /** The parent of a node that is done but not counted: it is not done, and as it was. */
  lemma ParentOfHole(t: Input, s: Progress)
    requires Pruning(t, s) && s.hole in s.done && t.nodes[s.hole].link.ChildOf? && t.nodes[s.hole].link.pid !in s.done
    ensures var p := t.nodes[s.hole].link.pid;
      && t.Has(p) && p !in s.gone && s.now[p] == t.nodes[p] && t.nodes[p].kids.Kids?
      && (s.hole == t.nodes[p].kids.left || s.hole == t.nodes[p].kids.right)
      && t.nodes[p].kids.left != t.nodes[p].kids.right
      && (t.nodes[p].link.ChildOf? ==> t.nodes[p].link.pid !in s.done && t.nodes[p].link.pid != p)
  {
    var p := t.nodes[s.hole].link.pid;
    assert Good(t, s.hole) && Good(t, p) && Treated(t, s, p);
    if t.nodes[p].link.ChildOf? { assert Good(t, t.nodes[p].link.pid) && Treated(t, s, t.nodes[p].link.pid); }
  }

  lemma Sizes(t: Input, s: Progress)
    requires Pruning(t, s)
    ensures t.Ok() && |t.nodes| == |s.now| == |s.stats|
  {
  }

  lemma HoleIs(t: Input, s: Progress, n: nat)
    requires Pruning(t, s) && n < |t.nodes|
    ensures if t.Has(n) then n !in s.gone ==> s.now[n].link == t.nodes[n].link else IsRoot(s.now[n])
    ensures t.nodes[n].link.ChildOf? && t.Has(n) ==>
      var p := t.nodes[n].link.pid;
      t.Has(p) && t.nodes[p].kids.Kids? && (t.nodes[p].kids.left == n || t.nodes[p].kids.right == n)
    ensures forall p: nat :: t.Has(p) && p !in s.gone ==>
      s.stats[p].lossChg == t.loss[p] && s.stats[p].baseWeight == t.weight[p]
  {
    assert Good(t, n);
    forall p: nat | t.Has(p) && p !in s.gone
      ensures s.stats[p].lossChg == t.loss[p] && s.stats[p].baseWeight == t.weight[p]
    {
      assert Treated(t, s, p);
    }
    if t.Has(n) { assert Treated(t, s, n); }
  }

  /** The parent has counted the leaf, and does not collapse for now. */
  lemma Counted(t: Input, s: Progress)
    requires Pruning(t, s) && s.hole in s.done && t.nodes[s.hole].link.ChildOf? && t.nodes[s.hole].link.pid < |s.stats|
    requires var p := t.nodes[s.hole].link.pid; p !in s.done && (s.stats[p].leafChildCnt + 1 < 2 || t.loss[p] >= t.min)
    ensures Pruning(t, s.(hole := -1, stats := OneMore(s.stats, t.nodes[s.hole].link.pid)))
  {
    var next := s.(hole := -1, stats := OneMore(s.stats, t.nodes[s.hole].link.pid));
    ParentOfHole(t, s);
    assert Good(t, s.hole);
    forall p: nat | t.Has(p) ensures Treated(t, next, p) { assert Good(t, p) && Treated(t, s, p); }
  }

  /** The parent has counted the leaf as its second one, and may become a leaf itself. */
  lemma SecondLeaf(t: Input, s: Progress)
    requires Pruning(t, s) && s.hole in s.done && t.nodes[s.hole].link.ChildOf? && t.nodes[s.hole].link.pid < |s.stats|
    requires var p := t.nodes[s.hole].link.pid; p !in s.done && s.stats[p].leafChildCnt + 1 >= 2
    ensures var p := t.nodes[s.hole].link.pid;
      && t.Has(p) && t.nodes[p].kids.Kids? && s.now[p] == t.nodes[p]
      && var l, r := t.nodes[p].kids.left, t.nodes[p].kids.right;
      && l in s.done && r in s.done && l !in s.gone && r !in s.gone && l < |s.now| && r < |s.now|
      && IsLeaf(s.now[l]) && IsLeaf(s.now[r])
  {
    var p := t.nodes[s.hole].link.pid;
    ParentOfHole(t, s);
    assert Good(t, p) && Treated(t, s, p);
    var l, r := t.nodes[p].kids.left, t.nodes[p].kids.right;
    assert Treated(t, s, l) && Treated(t, s, r);
  }

  /** The parent collapses: it is done now, and its own parent has to count it. */
  lemma ParentCollapses(t: Input, s: Progress, value: real)
    requires Pruning(t, s) && s.hole in s.done && t.nodes[s.hole].link.ChildOf? && t.nodes[s.hole].link.pid < |s.stats|
    requires var p := t.nodes[s.hole].link.pid; p !in s.done && s.stats[p].leafChildCnt + 1 >= 2 && t.loss[p] < t.min
    requires var p := t.nodes[s.hole].link.pid;
      s.now[p] == t.nodes[p] && t.nodes[p].kids.Kids? && value == t.rate * t.weight[p]
    requires var p := t.nodes[s.hole].link.pid; t.nodes[p].kids.left < |s.now| && t.nodes[p].kids.right < |s.now|
    ensures var p := t.nodes[s.hole].link.pid;
      Pruning(t, Progress(s.done + {p}, p, WithoutChilds(s.now, p, value),
        s.gone + {t.nodes[p].kids.left, t.nodes[p].kids.right}, OneMore(s.stats, p)))
  {
    var p := t.nodes[s.hole].link.pid;
    SecondLeaf(t, s);
    ParentOfHole(t, s);
    assert Good(t, s.hole) && Good(t, p) && Treated(t, s, p);
    var l, r := t.nodes[p].kids.left, t.nodes[p].kids.right;
    var next := Progress(s.done + {p}, p, WithoutChilds(s.now, p, value), s.gone + {l, r}, OneMore(s.stats, p));
    hide Treated, Consistent;
    forall q: nat | t.Has(q) ensures Treated(t, next, q) {
      assert Good(t, q);
      if q == p { CollapsedTreated(t, s, next, p, l, r, value); } else { OthersTreated(t, s, next, p, l, r, value, q); }
    }
  }

  lemma CollapsedTreated(t: Input, s: Progress, next: Progress, p: nat, l: nat, r: nat, value: real)
    requires |t.nodes| == |t.loss| == |t.weight| == |s.now| == |s.stats| && p < |t.nodes| && Treated(t, s, p)
    requires t.nodes[p].kids == Kids(l, r) && l in s.done && r in s.done && t.loss[p] < t.min
    requires p !in s.gone && p !in s.done && l != p && r != p && s.now[p] == t.nodes[p] && l < |s.now| && r < |s.now|
    requires t.nodes[p].link.ChildOf? ==> t.nodes[p].link.pid !in s.done && t.nodes[p].link.pid != p
    requires value == t.rate * t.weight[p]
    requires next == Progress(s.done + {p}, p, WithoutChilds(s.now, p, value), s.gone + {l, r}, OneMore(s.stats, p))
    ensures Treated(t, next, p)
  {
  }

  lemma OthersTreated(t: Input, s: Progress, next: Progress, p: nat, l: nat, r: nat, value: real, q: nat)
    requires Pruning(t, s) && t.Has(p) && t.Has(q) && q != p && Good(t, q) && Good(t, p)
    requires t.nodes[p].kids == Kids(l, r) && l in s.done && r in s.done && t.loss[p] < t.min
    requires p !in s.gone && p !in s.done && s.now[p] == t.nodes[p] && l < |s.now| && r < |s.now| && l != r
    requires s.hole == l || s.hole == r
    requires next == Progress(s.done + {p}, p, WithoutChilds(s.now, p, value), s.gone + {l, r}, OneMore(s.stats, p))
    ensures Treated(t, next, q)
  {
    assert Treated(t, s, q);
  }

  /** A leaf that is reached is either not in the forest, or as it was at the start. */
  lemma ReachedLeaf(t: Input, s: Progress, n: nat)
    requires ChildrenAfter(t.nodes) && Pruning(t, s) && s.hole == -1 && n < |t.nodes|
    requires forall q: nat :: q in s.done && IsLeaf(t.nodes[q]) ==> q < n
    ensures if t.Has(n) then
        && n !in s.gone && n !in s.done && s.now[n] == t.nodes[n]
        && (t.nodes[n].link.ChildOf? ==> t.nodes[n].link.pid !in s.done && t.nodes[n].link.pid != n)
      else n in s.gone && s.now[n] == t.nodes[n] && IsRoot(t.nodes[n])
  {
    assert Good(t, n);
    if t.Has(n) {
      NotYetDone(t, s, n, n);
      assert Treated(t, s, n);
      if t.nodes[n].link.ChildOf? { assert Treated(t, s, t.nodes[n].link.pid); }
    }
  }

  lemma PruningStarts(t: Input, s: Progress)
    requires t.Ok() && s.done == {} && s.hole == -1 && s.now == t.nodes && s.gone == t.deleted && |s.stats| == |t.nodes|
    requires forall p :: 0 <= p < |t.nodes| ==>
      s.stats[p].leafChildCnt == 0 && s.stats[p].lossChg == t.loss[p] && s.stats[p].baseWeight == t.weight[p]
    ensures Pruning(t, s)
  {
    forall p: nat | t.Has(p) ensures Treated(t, s, p) { assert Good(t, p); }
  }

  /** The forest after pruning: a node is left when its parent does not collapse; it is a leaf when it
      collapses, with its weight for a value if it was a split, and unchanged otherwise; every split left has
      counted each of its leaf children once. */
  ghost predicate Pruned(t: Input, now: seq<Node>, gone: set<nat>, stats: seq<Stat>) {
    && t.Ok() && ChildrenAfter(t.nodes) && |now| == |stats| == |t.nodes|
    && forall p: nat :: t.Has(p) ==> PrunedNode(t, now, gone, stats, p)
  }

  ghost predicate ParentCollapsed(t: Input, p: nat)
    requires t.Ok() && ChildrenAfter(t.nodes) && p < |t.nodes|
  {
    t.nodes[p].link.ChildOf? && t.nodes[p].link.pid < |t.nodes|
    && Collapses(t.nodes, t.loss, t.min, t.nodes[p].link.pid)
  }

  ghost predicate PrunedNode(t: Input, now: seq<Node>, gone: set<nat>, stats: seq<Stat>, p: nat)
    requires t.Ok() && ChildrenAfter(t.nodes) && |now| == |stats| == |t.nodes| && t.Has(p)
  {
    && (p in gone <==> ParentCollapsed(t, p))
    && (p !in gone ==>
        now[p] == if Collapses(t.nodes, t.loss, t.min, p) then t.AsLeaf(p) else t.nodes[p])
    && stats[p].baseWeight == t.weight[p]
    && (p !in gone && t.nodes[p].kids.Kids? && !Collapses(t.nodes, t.loss, t.min, p) ==>
        stats[p].leafChildCnt == Count(Collapses(t.nodes, t.loss, t.min, t.nodes[p].kids.left))
          + Count(Collapses(t.nodes, t.loss, t.min, t.nodes[p].kids.right)))
  }

  lemma PruningEnds(t: Input, s: Progress)
    requires ChildrenAfter(t.nodes) && Pruning(t, s) && s.hole == -1
    requires forall q: nat :: t.Has(q) && IsLeaf(t.nodes[q]) ==> q in s.done
    ensures Pruned(t, s.now, s.gone, s.stats)
  {
    forall p: nat | t.Has(p) ensures PrunedNode(t, s.now, s.gone, s.stats, p) {
      assert Good(t, p) && Treated(t, s, p);
      AllDone(t, s, p);
      if t.nodes[p].link.ChildOf? { AllDone(t, s, t.nodes[p].link.pid); }
      if t.nodes[p].kids.Kids? {
        AllDone(t, s, t.nodes[p].kids.left);
        AllDone(t, s, t.nodes[p].kids.right);
      }
    }
  }

  /** No split with two leaves below it and too little gain is left. */
  lemma PrunedIsMaximal(t: Input, now: seq<Node>, gone: set<nat>, stats: seq<Stat>, p: nat)
    requires Pruned(t, now, gone, stats) && t.Has(p) && p !in gone && now[p].kids.Kids?
    requires var l, r := now[p].kids.left, now[p].kids.right; l < |now| && r < |now| && IsLeaf(now[l]) && IsLeaf(now[r])
    ensures t.loss[p] >= t.min && stats[p].leafChildCnt == 2
  {
    assert Good(t, p) && PrunedNode(t, now, gone, stats, p);
    var l, r := now[p].kids.left, now[p].kids.right;
    assert PrunedNode(t, now, gone, stats, l) && PrunedNode(t, now, gone, stats, r);
  }
}
