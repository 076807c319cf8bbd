/** The weights while a forest grows level by level. */
module LevelWeights {
  import opened Forest
  import opened LeafWeights
  import opened NodeColumns
  import opened NodeSplits
  import opened ReachingRows
  import opened SplitCuts
  import opened SplitScans
  import opened TreeGrowth
  import opened TreeLevels
  import opened TreeModels

  /** The part of NodeEntry that InitNewNode fills */
  datatype NodeSums = NodeSums(sumGrad: real, sumHess: real, rootGain: real, weight: real)

  const NoSums: NodeSums := NodeSums(0.0, 0.0, 0.0, 0.0)

  function SumsFor(w: Sample, list: seq<nat>, parent: real): NodeSums {
    var g, h := SumRow(w.grad, list, |list|), SumRow(w.hess, list, |list|);
    NodeSums(g, h, w.calcRootGain(g, h), WeightOn(w, list, parent))
  }

  /** What EnumerateSplit knows about a node */
  function SumsIn(grad: seq<real>, hess: seq<real>, n: NodeSums): Sums {
    Sums(grad, hess, n.sumGrad, n.sumHess, n.rootGain, n.weight)
  }

  /** A child needs some weight, and a row without a hessian has no gradient either. */
  predicate Plain(w: Sample, list: seq<nat>) {
    w.param.minChildWeight > 0.0 && forall x :: x in list ==> RegularRow(w.grad, w.hess, x)
  }

  /** What the split search has found among the rows of a list: the best of all cuts of all features. */
  ghost predicate SoughtOn(w: Sample, list: seq<nat>, parent: real, e: SplitEntry) {
    InRange(w.rows, list) && (Plain(w, list) ==>
      BestEntry(e, SumsIn(w.grad, w.hess, SumsFor(w, list, parent)), w.param, w.rows, list, w.numFeature))
  }

  ghost predicate Sought(w: Sample, t: Trees, stats: seq<Stat>, e: SplitEntry, p: nat) {
    SoughtOn(w, RowsAt(w, t, p), ParentWeight(t.nodes, stats, p), e)
  }

  /** InitNewNode has been there: snode and the statistics hold what the rows at p add up to. */
  predicate Summed(w: Sample, t: Trees, stats: seq<Stat>, snode: seq<NodeSums>, p: nat) {
    && p < |snode| && p < |stats| && stats[p].baseWeight == snode[p].weight
    && snode[p] == SumsFor(w, RowsAt(w, t, p), ParentWeight(t.nodes, stats, p))
  }

  /** Decided in a level above d, as best says, which is what the search has found, and with its weight. */
  ghost predicate Grew(w: Sample, t: Trees, stats: seq<Stat>, best: nat -> SplitEntry, p: nat, d: nat) {
    && p < |t.nodes| && LevelOf(t, p) < d && Follows(t.nodes[p], best(p)) && Sought(w, t, stats, best(p), p)
    && Weighed(w, t, stats, p)
  }

  /** Everything but the nodes of q has been decided. */
  ghost predicate AllGrew(w: Sample, t: Trees, stats: seq<Stat>, best: nat -> SplitEntry, q: seq<nat>, d: nat) {
    forall p: nat :: t.Has(p) && p !in q ==> Grew(w, t, stats, best, p, d)
  }

  ghost predicate AllSummed(w: Sample, t: Trees, stats: seq<Stat>, snode: seq<NodeSums>, q: seq<nat>) {
    forall j :: 0 <= j < |q| ==> t.Has(q[j]) && Summed(w, t, stats, snode, q[j])
  }

  /** In the middle of level d the nodes of rest are left. */
  ghost predicate MidGrowth(w: Sample, t: Trees, stats: seq<Stat>, snode: seq<NodeSums>, best: nat -> SplitEntry,
                            rest: seq<nat>, d: nat) {
    && AllSummed(w, t, stats, snode, rest)
    && forall p: nat :: t.Has(p) && !t.nodes[p].kids.Pending? && p !in rest ==> Grew(w, t, stats, best, p, d + 1)
  }

  lemma NodeIsSummed(w: Sample, t: Trees, stats: seq<Stat>, snode: seq<NodeSums>, q: seq<nat>, p: nat)
    requires AllSummed(w, t, stats, snode, q) && p in q
    ensures p < |snode| && Summed(w, t, stats, snode, p)
  {
  }

  lemma GrowthStarts(w: Sample, t: Trees, stats: seq<Stat>, snode: seq<NodeSums>, best: nat -> SplitEntry,
                     q: seq<nat>, d: nat)
    requires AllGrew(w, t, stats, best, q, d) && AllSummed(w, t, stats, snode, q)
    ensures MidGrowth(w, t, stats, snode, best, q, d)
  {
    hide Weighed, Follows, AllSummed, Sought;
    forall p: nat | t.Has(p) && !t.nodes[p].kids.Pending? && p !in q ensures Grew(w, t, stats, best, p, d + 1) {
      assert Grew(w, t, stats, best, p, d);
    }
  }

  lemma FirstIsSummed(w: Sample, t: Trees, stats: seq<Stat>, snode: seq<NodeSums>, p: nat, rest: seq<nat>)
    requires AllSummed(w, t, stats, snode, [p] + rest)
    ensures p < |snode| && Summed(w, t, stats, snode, p)
  {
    assert ([p] + rest)[0] == p;
  }

  lemma NextIsSummed(w: Sample, t: Trees, stats: seq<Stat>, snode: seq<NodeSums>, best: nat -> SplitEntry,
                     q: seq<nat>, i: nat, d: nat)
    requires i < |q| && MidGrowth(w, t, stats, snode, best, q[i..], d)
    ensures q[i] < |snode| && q[i..] == [q[i]] + q[i + 1..] && Summed(w, t, stats, snode, q[i])
  {
    hide Grew, Summed;
    assert q[i..] == [q[i]] + q[i + 1..];
    FirstIsSummed(w, t, stats, snode, q[i], q[i + 1..]);
  }

  lemma NothingSummed(w: Sample, t: Trees, stats: seq<Stat>, snode: seq<NodeSums>, q: seq<nat>)
    ensures AllSummed(w, t, stats, snode, q[..0])
  {
  }

  lemma SummedStays(w: Sample, s: Trees, t: Trees, p: nat, stats: seq<Stat>, after: seq<Stat>, snode: seq<NodeSums>,
                    x: nat)
    requires Decided(s, t, p) && s.Has(x) && StartsAtRoots(w, s.roots) && KeepsWeights(s, stats, after, -1)
    requires Summed(w, s, stats, snode, x)
    ensures t.Has(x) && Summed(w, t, after, snode, x)
  {
    assert Good(s, x) && Good(t, x);
    ReachingStays(s, t, p, w.start, w.rows, w.taken, x);
    assert t.nodes[x].link == s.nodes[x].link;
  }

  lemma GrewStays(w: Sample, s: Trees, t: Trees, p: nat, stats: seq<Stat>, after: seq<Stat>,
                  best: nat -> SplitEntry, x: nat, d: nat)
    requires Decided(s, t, p) && s.Has(x) && x != p && StartsAtRoots(w, s.roots) && KeepsWeights(s, stats, after, -1)
    requires Grew(w, s, stats, best, x, d)
    ensures Grew(w, t, after, best, x, d)
  {
    hide Weighed, Follows, SoughtOn;
    assert Good(s, x) && Good(t, x);
    WeightStays(w, s, t, p, stats, after, x);
    StaysWeighed(w, s, t, p, stats, after, x);
  }

  /** The node of a leaf or split that was decided last holds its weight. */
  lemma DecidedWeight(w: Sample, s: Trees, t: Trees, p: nat, stats: seq<Stat>, after: seq<Stat>, snode: seq<NodeSums>)
    requires Decided(s, t, p) && StartsAtRoots(w, s.roots) && KeepsWeights(s, stats, after, -1) && |after| == |t.nodes|
    requires Summed(w, s, stats, snode, p) && (IsLeaf(t.nodes[p]) ==> t.nodes[p].info == w.rate * snode[p].weight)
    ensures Weighed(w, t, after, p)
  {
    WeightStays(w, s, t, p, stats, after, p);
  }

  lemma SoughtStays(w: Sample, s: Trees, t: Trees, p: nat, stats: seq<Stat>, after: seq<Stat>, e: SplitEntry, x: nat)
    requires Decided(s, t, p) && s.Has(x) && StartsAtRoots(w, s.roots) && KeepsWeights(s, stats, after, -1)
    requires Sought(w, s, stats, e, x)
    ensures Sought(w, t, after, e, x)
  {
    hide SoughtOn;
    WeightStays(w, s, t, p, stats, after, x);
  }

  /** What best says of the nodes of q has been found by the search. */
  ghost predicate AllSought(w: Sample, t: Trees, stats: seq<Stat>, best: nat -> SplitEntry, q: seq<nat>) {
    forall p: nat :: p in q ==> Sought(w, t, stats, best(p), p)
  }

  lemma NextIsSought(w: Sample, t: Trees, stats: seq<Stat>, best: nat -> SplitEntry, q: seq<nat>, i: nat)
    requires i < |q| && AllSought(w, t, stats, best, q[i..])
    ensures Sought(w, t, stats, best(q[i]), q[i]) && q[i..] == [q[i]] + q[i + 1..]
  {
    assert q[i..] == [q[i]] + q[i + 1..];
  }

  lemma SoughtGoesOn(w: Sample, s: Trees, t: Trees, stats: seq<Stat>, after: seq<Stat>, snode: seq<NodeSums>,
                     best: nat -> SplitEntry, p: nat, rest: seq<nat>, d: nat)
    requires AllSought(w, s, stats, best, [p] + rest) && MidGrowth(w, s, stats, snode, best, [p] + rest, d)
    requires Decided(s, t, p) && KeepsWeights(s, stats, after, -1) && StartsAtRoots(w, s.roots)
    ensures AllSought(w, t, after, best, rest)
  {
    hide Sought, Decided, KeepsWeights, Grew, Summed;
    forall x: nat | x in rest ensures Sought(w, t, after, best(x), x) {
      assert x in [p] + rest;
      var j :| 0 <= j < |[p] + rest| && ([p] + rest)[j] == x;
      SoughtStays(w, s, t, p, stats, after, best(x), x);
    }
  }

  /** best, and e for node p */
  function With(best: nat -> SplitEntry, p: nat, e: SplitEntry): nat -> SplitEntry {
    (n: nat) => if n == p then e else best(n)
  }

  lemma OtherMidEntries(w: Sample, t: Trees, stats: seq<Stat>, snode: seq<NodeSums>, best: nat -> SplitEntry,
                        next: nat -> SplitEntry, rest: seq<nat>, d: nat)
    requires MidGrowth(w, t, stats, snode, best, rest, d) && forall p: nat :: p !in rest ==> next(p) == best(p)
    ensures MidGrowth(w, t, stats, snode, next, rest, d)
  {
    hide Weighed, Follows, Sought, Summed;
    forall p: nat | t.Has(p) && !t.nodes[p].kids.Pending? && p !in rest ensures Grew(w, t, stats, next, p, d + 1) {
      assert Grew(w, t, stats, best, p, d + 1);
    }
  }

  /** Only what best says of decided nodes matters. */
  lemma OtherEntries(w: Sample, t: Trees, stats: seq<Stat>, best: nat -> SplitEntry, next: nat -> SplitEntry,
                     q: seq<nat>, d: nat)
    requires AllGrew(w, t, stats, best, q, d) && forall p: nat :: p !in q ==> next(p) == best(p)
    ensures AllGrew(w, t, stats, next, q, d)
  {
    hide Weighed, Follows, Sought;
    forall p: nat | t.Has(p) && p !in q ensures Grew(w, t, stats, next, p, d) { assert Grew(w, t, stats, best, p, d); }
  }

  lemma SameLevel(s: Trees, t: Trees, p: nat)
    requires Decided(s, t, p)
    ensures LevelOf(t, p) == LevelOf(s, p)
  {
    assert Good(s, p) && Good(t, p);
  }

  /** The next node of the level is decided. */
  lemma GrowthGoesOn(w: Sample, s: Trees, t: Trees, stats: seq<Stat>, after: seq<Stat>, snode: seq<NodeSums>,
                     best: nat -> SplitEntry, p: nat, rest: seq<nat>, d: nat)
    requires MidGrowth(w, s, stats, snode, best, [p] + rest, d) && LevelOf(s, p) == d && StartsAtRoots(w, s.roots)
    requires Decided(s, t, p) && KeepsWeights(s, stats, after, -1) && |after| == |t.nodes|
    requires Follows(t.nodes[p], best(p)) && Sought(w, s, stats, best(p), p) && p < |snode|
    requires IsLeaf(t.nodes[p]) ==> t.nodes[p].info == w.rate * snode[p].weight
    ensures MidGrowth(w, t, after, snode, best, rest, d)
  {
    hide Weighed, Follows, Summed, KeepsWeights, StartsAtRoots, NodeOk, Consistent, Sought;
    var q := [p] + rest;
    assert q[0] == p;
    forall j | 0 <= j < |rest| ensures t.Has(rest[j]) && Summed(w, t, after, snode, rest[j]) {
      assert q[j + 1] == rest[j];
      SummedStays(w, s, t, p, stats, after, snode, rest[j]);
    }
    DecidedWeight(w, s, t, p, stats, after, snode);
    SoughtStays(w, s, t, p, stats, after, best(p), p);
    SameLevel(s, t, p);
    forall x: nat | t.Has(x) && !t.nodes[x].kids.Pending? && x !in rest ensures Grew(w, t, after, best, x, d + 1) {
      if x != p {
        assert s.Has(x) && t.nodes[x] == s.nodes[x] && x !in q;
        GrewStays(w, s, t, p, stats, after, best, x, d + 1);
      }
    }
  }

  /** When the level is done, everything but its children has been decided. */
  lemma GrowthEnds(w: Sample, t: Trees, stats: seq<Stat>, snode: seq<NodeSums>, best: nat -> SplitEntry, q: seq<nat>,
                   d: nat)
    requires MidGrowth(w, t, stats, snode, best, [], d) && Frontier(t, q, d + 1)
    ensures AllGrew(w, t, stats, best, q, d + 1)
  {
    hide Grew;
  }

  // ----- new statistics for the nodes of a level -----

  /** Statistics have changed for open nodes only. */
  ghost predicate OnlyOpen(t: Trees, stats: seq<Stat>, after: seq<Stat>) {
    |after| == |stats| && forall i: nat :: t.Has(i) && !t.Open(i) && i < |stats| ==> after[i] == stats[i]
  }

  lemma ParentIsClosed(t: Trees, stats: seq<Stat>, after: seq<Stat>, p: nat)
    requires t.Ok() && t.Has(p) && OnlyOpen(t, stats, after)
    ensures ParentWeight(t.nodes, after, p) == ParentWeight(t.nodes, stats, p)
  {
    assert Good(t, p);
  }

  lemma StillGrew(w: Sample, t: Trees, stats: seq<Stat>, after: seq<Stat>, best: nat -> SplitEntry, q: seq<nat>, d: nat)
    requires t.Ok() && AllGrew(w, t, stats, best, q, d) && OnlyOpen(t, stats, after)
    ensures AllGrew(w, t, after, best, q, d)
  {
    hide RowsAt, WeightOn, Follows, ParentWeight, NodeOk, Consistent, SoughtOn;
    forall p: nat | t.Has(p) && p !in q ensures Grew(w, t, after, best, p, d) {
      assert Grew(w, t, stats, best, p, d);
      ParentIsClosed(t, stats, after, p);
    }
  }

  /** What InitNewNode does with the sums of a node */
  method StoreSums(tree: TreeModel, snode: seq<NodeSums>, nid: nat, sumGrad: real, sumHess: real,
                   calcWeight: (real, real, real) -> real, calcRootGain: (real, real) -> real)
    returns (next: seq<NodeSums>)
    requires tree.Valid() && tree.IsLive(nid) && nid < |snode|
    modifies tree`stats
    ensures tree.Valid()
    ensures next == snode[nid := NodeSums(sumGrad, sumHess, calcRootGain(sumGrad, sumHess),
      calcWeight(sumGrad, sumHess, ParentWeight(tree.nodes, old(tree.stats), nid)))]
    ensures tree.stats == old(tree.stats)[nid := old(tree.stats)[nid].(baseWeight := next[nid].weight)]
  {
    hide Consistent;
    var n := tree.nodes[nid];
    var weight;
    if n.link.ChildOf? {
      ParentIn(TreesOf(tree), nid);
      weight := calcWeight(sumGrad, sumHess, tree.stats[n.link.pid].baseWeight);
    } else {
      weight := calcWeight(sumGrad, sumHess, 0.0);
    }
    next := snode[nid := NodeSums(sumGrad, sumHess, calcRootGain(sumGrad, sumHess), weight)];
    tree.stats := tree.stats[nid := tree.stats[nid].(baseWeight := weight)];
  }

  lemma ParentIn(t: Trees, p: nat)
    requires t.Ok() && t.Has(p) && t.nodes[p].link.ChildOf?
    ensures t.nodes[p].link.pid < |t.nodes|
  {
    assert Good(t, p);
  }

  /** The sums of one more node are stored. */
  lemma SumsStored(w: Sample, t: Trees, stats: seq<Stat>, after: seq<Stat>, snode: seq<NodeSums>, next: seq<NodeSums>,
                   q: seq<nat>, i: nat)
    requires t.Ok() && Distinct(q) && i < |q| && |stats| == |t.nodes|
    requires t.Open(q[i]) && forall j :: 0 <= j < |q| ==> t.Open(q[j])
    requires AllSummed(w, t, stats, snode, q[..i]) && |next| == |snode| >= |t.nodes|
    requires var p := q[i];
      && next == snode[p := SumsFor(w, RowsAt(w, t, p), ParentWeight(t.nodes, stats, p))]
      && after == stats[p := stats[p].(baseWeight := next[p].weight)]
    ensures AllSummed(w, t, after, next, q[..i + 1])
  {
    hide SumsFor, RowsAt, ParentWeight, NodeOk, Consistent;
    var p := q[i];
    assert OnlyOpen(t, stats, after);
    var now := q[..i + 1];
    forall j | 0 <= j < |now| ensures t.Has(now[j]) && Summed(w, t, after, next, now[j]) {
      assert now[j] == q[j] && t.Open(q[j]);
      ParentIsClosed(t, stats, after, q[j]);
      if j < i { assert q[..i][j] == q[j] != p; }
    }
  }

  // ----- the nodes that are left when the deepest level is reached -----

  /** How Make leaves a node: decided as best says, which is what the search has found, or a leaf of the deepest
      level; always with its weight. */
  ghost predicate Made(w: Sample, t: Trees, stats: seq<Stat>, best: nat -> SplitEntry, maxDepth: nat, p: nat) {
    && Weighed(w, t, stats, p) && Shaped(t, best, maxDepth, p)
    && (LevelOf(t, p) < maxDepth ==> Sought(w, t, stats, best(p), p))
  }

  predicate Shaped(t: Trees, best: nat -> SplitEntry, maxDepth: nat, p: nat) {
    p < |t.nodes| && if LevelOf(t, p) < maxDepth then Follows(t.nodes[p], best(p))
      else LevelOf(t, p) == maxDepth && IsLeaf(t.nodes[p])
  }

  /** A node above the deepest level is split exactly when some cut gains enough, and then at the best of all cuts, of
      the lowest feature that has one, in whatever order the features were searched. */
  lemma SplitIsBest(w: Sample, t: Trees, stats: seq<Stat>, best: nat -> SplitEntry, maxDepth: nat, p: nat)
    requires Made(w, t, stats, best, maxDepth, p) && LevelOf(t, p) < maxDepth && Plain(w, RowsAt(w, t, p))
    ensures var list := RowsAt(w, t, p);
      var s := SumsIn(w.grad, w.hess, SumsFor(w, list, ParentWeight(t.nodes, stats, p)));
      && (t.nodes[p].kids.Kids? <==> Pays(s, w.param, w.rows, list, w.numFeature))
      && (t.nodes[p].kids.Kids? ==>
        && BestCut(t.nodes[p], best(p).lossChg, s, w.param, w.rows, list, w.numFeature)
        && t.nodes[p].feature == best(p).feature && Lowest(best(p), s, w.param, w.rows, list, w.numFeature))
  {
    hide Plain, RowsAt, SumsIn, SumsFor, ParentWeight, NoBetterSplit, MadeCut, Pays, Weighed, Lowest;
    var list := RowsAt(w, t, p);
    var s := SumsIn(w.grad, w.hess, SumsFor(w, list, ParentWeight(t.nodes, stats, p)));
    if t.nodes[p].kids.Kids? {
      BestPays(t.nodes[p], best(p).lossChg, s, w.param, w.rows, list, w.numFeature);
    } else {
      NothingPays(best(p).lossChg, s, w.param, w.rows, list, w.numFeature);
    }
  }

  ghost predicate AllMade(w: Sample, t: Trees, stats: seq<Stat>, best: nat -> SplitEntry, maxDepth: nat,
                          rest: seq<nat>) {
    forall p: nat :: t.Has(p) && p !in rest ==> Made(w, t, stats, best, maxDepth, p)
  }

  lemma NearlyMade(w: Sample, t: Trees, stats: seq<Stat>, best: nat -> SplitEntry, maxDepth: nat, q: seq<nat>, d: nat)
    requires AllGrew(w, t, stats, best, q, d) && d <= maxDepth
    ensures AllMade(w, t, stats, best, maxDepth, q)
  {
    hide Weighed, Follows, Sought;
    forall p: nat | t.Has(p) && p !in q ensures Made(w, t, stats, best, maxDepth, p) {
      assert Grew(w, t, stats, best, p, d);
    }
  }

  lemma MadeIsClosed(w: Sample, t: Trees, stats: seq<Stat>, best: nat -> SplitEntry, maxDepth: nat)
    requires AllMade(w, t, stats, best, maxDepth, [])
    ensures forall p: nat :: t.Has(p) ==> !t.nodes[p].kids.Pending?
  {
    forall p: nat | t.Has(p) ensures !t.nodes[p].kids.Pending? { assert Made(w, t, stats, best, maxDepth, p); }
  }

  lemma MadeStays(w: Sample, s: Trees, t: Trees, p: nat, stats: seq<Stat>, after: seq<Stat>, best: nat -> SplitEntry,
                  maxDepth: nat, x: nat)
    requires Decided(s, t, p) && s.Has(x) && x != p && StartsAtRoots(w, s.roots) && KeepsWeights(s, stats, after, -1)
    requires Made(w, s, stats, best, maxDepth, x)
    ensures Made(w, t, after, best, maxDepth, x)
  {
    hide Weighed, Follows, SoughtOn;
    assert Good(s, x) && Good(t, x);
    WeightStays(w, s, t, p, stats, after, x);
    StaysWeighed(w, s, t, p, stats, after, x);
  }

  /** A node of the deepest level becomes a leaf. */
  lemma OneMoreMade(w: Sample, s: Trees, t: Trees, stats: seq<Stat>, after: seq<Stat>, snode: seq<NodeSums>,
                    best: nat -> SplitEntry, maxDepth: nat, p: nat, rest: seq<nat>)
    requires AllMade(w, s, stats, best, maxDepth, [p] + rest) && AllSummed(w, s, stats, snode, [p] + rest)
    requires LevelOf(s, p) == maxDepth && StartsAtRoots(w, s.roots)
    requires Decided(s, t, p) && KeepsWeights(s, stats, after, -1) && |after| == |t.nodes|
    requires IsLeaf(t.nodes[p]) && p < |snode| && t.nodes[p].info == w.rate * snode[p].weight
    ensures AllMade(w, t, after, best, maxDepth, rest) && AllSummed(w, t, after, snode, rest)
  {
    hide Weighed, Follows, Summed, KeepsWeights, StartsAtRoots, NodeOk, Consistent, Made;
    var q := [p] + rest;
    assert q[0] == p;
    forall j | 0 <= j < |rest| ensures t.Has(rest[j]) && Summed(w, t, after, snode, rest[j]) {
      assert q[j + 1] == rest[j];
      SummedStays(w, s, t, p, stats, after, snode, rest[j]);
    }
    DecidedWeight(w, s, t, p, stats, after, snode);
    SameLevel(s, t, p);
    DeepLeaf(w, t, after, best, maxDepth, p);
    forall x: nat | t.Has(x) && x !in rest ensures Made(w, t, after, best, maxDepth, x) {
      if x != p { MadeStays(w, s, t, p, stats, after, best, maxDepth, x); }
    }
  }

  lemma DeepLeaf(w: Sample, t: Trees, stats: seq<Stat>, best: nat -> SplitEntry, maxDepth: nat, p: nat)
    requires p < |t.nodes| && Weighed(w, t, stats, p) && LevelOf(t, p) == maxDepth && IsLeaf(t.nodes[p])
    ensures Made(w, t, stats, best, maxDepth, p)
  {
  }
}
