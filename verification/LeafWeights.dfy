/** What the tree makers put into the leaves: the weight CalcWeight gives for the gradients of exactly the rows
    that come to a leaf, times the learning rate. */
module LeafWeights {
  import opened Forest
  import opened ReachingRows
  import opened SplitCuts
  import opened TreeGrowth
  import opened TreeModels
  import opened TreeWalk

  /** The rows a booster is trained on, where each starts, those that take part, and their gradients.
      calcWeight stands for CalcWeight of the sums of gradients and hessians and the weight of the parent, and
      calcRootGain for CalcRootGain of the sums. */
  datatype Sample = Sample(rows: seq<Row>, start: seq<int>, taken: seq<nat>, grad: seq<real>, hess: seq<real>,
                           calcWeight: (real, real, real) -> real, rate: real, calcRootGain: (real, real) -> real,
                           param: Param, numFeature: nat)

  /** The sum of v over the first n rows of s. */
  function SumRow(v: seq<real>, s: seq<nat>, n: nat): real
    requires n <= |s|
  {
    if n == 0 then 0.0 else SumRow(v, s, n - 1) + if s[n - 1] < |v| then v[s[n - 1]] else 0.0
  }

  lemma {:induction false} SumPrefix(v: seq<real>, s: seq<nat>, x: nat, n: nat)
    requires n <= |s|
    ensures SumRow(v, s + [x], n) == SumRow(v, s, n)
  {
    if n != 0 { SumPrefix(v, s, x, n - 1); }
  }

  lemma SumAdds(v: seq<real>, s: seq<nat>, x: nat)
    requires x < |v|
    ensures SumRow(v, s + [x], |s| + 1) == SumRow(v, s, |s|) + v[x]
  {
    SumPrefix(v, s, x, |s|);
  }

  /** The first n rows */
  function First(n: nat): seq<nat> { seq(n, i requires 0 <= i => i) }

  function RowsAt(w: Sample, t: Trees, p: nat): seq<nat> {
    if p < |t.depth| then Reaching(t.nodes, w.start, w.rows, w.taken, p, t.depth[p]) else []
  }

  /** base_weight of the parent, zero for a root */
  function ParentWeight(nodes: seq<Node>, stats: seq<Stat>, p: nat): real {
    if p < |nodes| && nodes[p].link.ChildOf? && nodes[p].link.pid < |stats|
    then stats[nodes[p].link.pid].baseWeight else 0.0
  }

  function WeightOn(w: Sample, list: seq<nat>, parent: real): real {
    w.calcWeight(SumRow(w.grad, list, |list|), SumRow(w.hess, list, |list|), parent)
  }

  function WeightOf(w: Sample, t: Trees, stats: seq<Stat>, p: nat): real {
    WeightOn(w, RowsAt(w, t, p), ParentWeight(t.nodes, stats, p))
  }

  /** A split has stored the weight of its rows; a leaf holds it, times the learning rate. */
  predicate Weighed(w: Sample, t: Trees, stats: seq<Stat>, p: nat) {
    && p < |t.nodes| && p < |stats|
    && match t.nodes[p].kids
       case Pending => false
       case NoKids => t.nodes[p].info == w.rate * WeightOf(w, t, stats, p)
       case Kids(_, _) => stats[p].baseWeight == WeightOf(w, t, stats, p)
  }

  predicate StartsAtRoots(w: Sample, roots: nat) {
    |w.start| == |w.rows| && forall r :: 0 <= r < |w.start| ==> -1 <= w.start[r] < roots
  }

  /** Deciding a node changes the rows and the weight of no node there is. */
  lemma WeightStays(w: Sample, s: Trees, t: Trees, p: nat, stats: seq<Stat>, after: seq<Stat>, x: nat)
    requires Decided(s, t, p) && s.Has(x) && StartsAtRoots(w, s.roots) && KeepsWeights(s, stats, after, p)
    ensures RowsAt(w, t, x) == RowsAt(w, s, x) && ParentWeight(t.nodes, after, x) == ParentWeight(s.nodes, stats, x)
    ensures WeightOf(w, t, after, x) == WeightOf(w, s, stats, x)
  {
    assert Good(s, x) && Good(t, x);
    ReachingStays(s, t, p, w.start, w.rows, w.taken, x);
    assert t.nodes[x].link == s.nodes[x].link;
  }

  lemma StaysWeighed(w: Sample, s: Trees, t: Trees, p: nat, stats: seq<Stat>, after: seq<Stat>, x: nat)
    requires Decided(s, t, p) && s.Has(x) && x != p && StartsAtRoots(w, s.roots) && KeepsWeights(s, stats, after, p)
    requires Weighed(w, s, stats, x)
    ensures Weighed(w, t, after, x)
  {
    hide RowsAt, ParentWeight;
    WeightStays(w, s, t, p, stats, after, x);
  }
}
