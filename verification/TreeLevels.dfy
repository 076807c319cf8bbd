/** Growing a forest level by level. */
module TreeLevels {
  import opened Forest
  import opened TreeModels
  import opened TreeGrowth

  /** The nodes after a level: the children of all nodes that were split, in order. */
  function ChildrenOf(nodes: seq<Node>, q: seq<nat>): seq<nat> {
    if q == [] then []
    else
      var p := q[|q| - 1];
      ChildrenOf(nodes, q[..|q| - 1]) + if p < |nodes|
        && nodes[p].kids.Kids? then [nodes[p].kids.left, nodes[p].kids.right] else []
  }

  lemma {:induction false} InChildren(nodes: seq<Node>, q: seq<nat>, c: nat)
    ensures c in ChildrenOf(nodes, q)
      <==> exists j :: 0 <= j < |q| && IsChild(nodes, q[j], c)
  {
    if q != [] {
      var n := |q| - 1;
      InChildren(nodes, q[..n], c);
      LastChildren(nodes, q, c);
      hide ChildrenOf, IsChild;
      if IsChild(nodes, q[n], c) {
        assert c in ChildrenOf(nodes, q);
      } else if j :| 0 <= j < |q| && IsChild(nodes, q[j], c) {
        assert q[..n][j] == q[j];
      }
      if c in ChildrenOf(nodes, q[..n]) {
        var j :| 0 <= j < n && IsChild(nodes, q[..n][j], c);
        assert q[j] == q[..n][j];
      }
    }
  }

  lemma LastChildren(nodes: seq<Node>, q: seq<nat>, c: nat)
    requires q != []
    ensures c in ChildrenOf(nodes, q) <==> c in ChildrenOf(nodes, q[..|q| - 1]) || IsChild(nodes, q[|q| - 1], c)
  {
  }

  predicate IsChild(nodes: seq<Node>, p: nat, c: int) {
    p < |nodes| && nodes[p].kids.Kids? && (c == nodes[p].kids.left || c == nodes[p].kids.right)
  }

  /** Children of different nodes are different. */
  lemma {:induction false} ChildrenDistinct(t: Trees, q: seq<nat>)
    requires t.Ok() && Distinct(q) && forall j :: 0 <= j < |q| ==> t.Has(q[j])
    ensures Distinct(ChildrenOf(t.nodes, q))
  {
    if q != [] {
      var n := |q| - 1;
      ChildrenDistinct(t, q[..n]);
      var p, front := q[n], ChildrenOf(t.nodes, q[..n]);
      assert Good(t, p);
      if t.nodes[p].kids.Kids? {
        NotAnothersChild(t, q, n, t.nodes[p].kids.left);
        NotAnothersChild(t, q, n, t.nodes[p].kids.right);
      }
    }
  }

  lemma NotAnothersChild(t: Trees, q: seq<nat>, n: nat, c: nat)
    requires t.Ok() && Distinct(q) && n < |q| && forall j :: 0 <= j < |q| ==> t.Has(q[j])
    requires IsChild(t.nodes, q[n], c)
    ensures c !in ChildrenOf(t.nodes, q[..n])
  {
    InChildren(t.nodes, q[..n], c);
    assert Good(t, q[n]);
    forall j | 0 <= j < n ensures !IsChild(t.nodes, q[..n][j], c) { assert Good(t, q[j]); }
  }

  /** All nodes still open are in q, at level d; everything else has been decided. */
  ghost predicate Frontier(t: Trees, q: seq<nat>, d: nat) {
    && t.Ok() && Distinct(q)
    && (forall j :: 0 <= j < |q| ==> t.Open(q[j]) && LevelOf(t, q[j]) == d)
    && (forall p: nat :: t.Has(p) && t.nodes[p].kids.Pending? ==> p in q)
  }

  /** The best splits of the nodes of a level */
  function Entries(best: nat -> SplitEntry, q: seq<nat>): (e: seq<SplitEntry>)
    ensures |e| == |q| && forall i :: 0 <= i < |q| ==> e[i] == best(q[i])
  {
    seq(|q|, i requires 0 <= i < |q| => best(q[i]))
  }

  lemma FrontierIs(t: Trees, q: seq<nat>, d: nat)
    requires Frontier(t, q, d)
    ensures t.Ok() && Distinct(q)
    ensures forall j :: 0 <= j < |q| ==> t.Open(q[j]) && q[j] < |t.nodes| && q[j] < |t.depth| && t.depth[q[j]] == d
  {
    forall j | 0 <= j < |q| ensures t.Open(q[j]) && q[j] < |t.nodes| && q[j] < |t.depth| && t.depth[q[j]] == d {
      assert LevelOf(t, q[j]) == d;
    }
  }

  function LevelOf(t: Trees, p: nat): int { if p < |t.depth| then t.depth[p] else -1 }

  /** The first i nodes of q have been decided, as best says. */
  ghost predicate MidLevel(s: Trees, t: Trees, q: seq<nat>, best: seq<SplitEntry>, i: nat, d: nat)
    requires i <= |q| == |best|
  {
    && t.Ok() && t.roots == s.roots && Distinct(q)
    && (forall j :: 0 <= j < |q| ==> t.Has(q[j]) && LevelOf(t, q[j]) == d && (i <= j ==> t.Open(q[j])))
    && (forall j :: 0 <= j < i ==> DecidedAs(t, q[j], best[j]))
    && (forall p: nat :: t.Has(p) && t.nodes[p].kids.Pending? ==> p in q[i..] || p in ChildrenOf(t.nodes, q[..i]))
    && (forall p: nat :: s.Has(p) ==> t.Has(p) && (p !in q ==> t.nodes[p] == s.nodes[p]))
  }

  /** Only the entries of the nodes decided so far matter. */
  lemma OtherLevelEntries(s: Trees, t: Trees, q: seq<nat>, best: seq<SplitEntry>, next: seq<SplitEntry>, i: nat, d: nat)
    requires i <= |q| == |best| == |next| && MidLevel(s, t, q, best, i, d)
    requires forall j :: 0 <= j < i ==> next[j] == best[j]
    ensures MidLevel(s, t, q, next, i, d)
  {
    hide DecidedAs;
  }

  predicate DecidedAs(t: Trees, p: nat, e: SplitEntry)
    requires t.Has(p)
  {
    && Follows(t.nodes[p], e)
    && (t.nodes[p].kids.Kids? ==>
      var l, r := t.nodes[p].kids.left, t.nodes[p].kids.right;
      t.Has(l) && t.nodes[l].kids.Pending? && t.Has(r) && t.nodes[r].kids.Pending?)
  }

  /** The node is split as e says when e gains enough, and a leaf otherwise. */
  predicate Follows(n: Node, e: SplitEntry) {
    match n.kids
    case Pending => false
    case NoKids => !(e.lossChg > RT_EPS)
    case Kids(_, _) =>
      e.lossChg > RT_EPS && n.feature == e.feature && n.info == e.cond && n.defaultLeft == e.defaultLeft
  }

  lemma StartLevel(t: Trees, q: seq<nat>, best: seq<SplitEntry>, d: nat)
    requires Frontier(t, q, d) && |best| == |q|
    ensures MidLevel(t, t, q, best, 0, d)
  {
    assert q[0..] == q;
  }

  lemma {:induction false} SameChildren(nodes: seq<Node>, after: seq<Node>, q: seq<nat>)
    requires forall j :: 0 <= j < |q| ==> q[j] < |nodes| && q[j] < |after| && after[q[j]].kids == nodes[q[j]].kids
    ensures ChildrenOf(after, q) == ChildrenOf(nodes, q)
  {
    if q != [] { SameChildren(nodes, after, q[..|q| - 1]); }
  }

  lemma NextInLevel(s: Trees, t: Trees, u: Trees, q: seq<nat>, best: seq<SplitEntry>, i: nat, d: nat)
    requires i < |q| == |best| && MidLevel(s, t, q, best, i, d) && Decided(t, u, q[i]) && DecidedAs(u, q[i], best[i])
    ensures MidLevel(s, u, q, best, i + 1, d)
  {
    hide NodeOk, DecidedAs;
    var p := q[i];
    assert q[..i + 1][..i] == q[..i] && q[i..] == [p] + q[i + 1..];
    SameChildren(t.nodes, u.nodes, q[..i]);
    assert ChildrenOf(u.nodes, q[..i + 1])
      == ChildrenOf(t.nodes, q[..i]) + if u.nodes[p].kids.Kids? then [u.nodes[p].kids.left, u.nodes[p].kids.right]
        else [];
    forall x: nat | u.Has(x) && u.nodes[x].kids.Pending?
      ensures x in q[i + 1..] || x in ChildrenOf(u.nodes, q[..i + 1])
    {
      if t.Has(x) { assert x != p && u.nodes[x] == t.nodes[x]; }
    }
    forall j | 0 <= j < i ensures DecidedAs(u, q[j], best[j]) { StaysDecided(t, u, q[j], p, best[j]); }
  }

  lemma StaysDecided(t: Trees, u: Trees, x: nat, p: nat, e: SplitEntry)
    requires t.Has(x) && DecidedAs(t, x, e) && Decided(t, u, p) && x != p && LevelOf(t, x) == LevelOf(t, p)
    ensures u.Has(x) && DecidedAs(u, x, e)
  {
    assert Good(t, x);
    if t.nodes[x].kids.Kids? { assert Good(t, t.nodes[x].kids.left) && Good(t, t.nodes[x].kids.right); }
  }

  /** The entry of the next node is known now. */
  lemma OneMoreEntry(s: Trees, t: Trees, q: seq<nat>, best: nat -> SplitEntry, next: nat -> SplitEntry, i: nat, d: nat)
    requires i < |q| && MidLevel(s, t, q, Entries(best, q), i, d)
    requires forall p: nat :: p != q[i] ==> next(p) == best(p)
    ensures MidLevel(s, t, q, Entries(next, q), i, d)
  {
    assert Distinct(q);
    OtherLevelEntries(s, t, q, Entries(best, q), Entries(next, q), i, d);
  }

  /** When the level is done its children are the next one. */
  lemma NextLevel(s: Trees, t: Trees, q: seq<nat>, best: seq<SplitEntry>, d: nat)
    requires |q| == |best| && MidLevel(s, t, q, best, |q|, d)
    ensures Frontier(t, ChildrenOf(t.nodes, q), d + 1)
  {
    var c := ChildrenOf(t.nodes, q);
    assert q[..|q|] == q;
    ChildrenDistinct(t, q);
    forall k | 0 <= k < |c| ensures t.Open(c[k]) && LevelOf(t, c[k]) == d + 1 {
      InChildren(t.nodes, q, c[k]);
      var j :| 0 <= j < |q| && IsChild(t.nodes, q[j], c[k]);
      assert DecidedAs(t, q[j], best[j]) && Good(t, q[j]) && Good(t, c[k]);
    }
  }

  /** The first i nodes left over have become leaves; nothing but the others is pending. */
  ghost predicate Finishing(t: Trees, q: seq<nat>, i: nat, d: nat) {
    && t.Ok() && Distinct(q) && i <= |q|
    && (forall j :: 0 <= j < |q| ==> t.Open(q[j]) && LevelOf(t, q[j]) == d && (j < i ==> IsLeaf(t.nodes[q[j]])))
    && (forall p: nat :: t.Has(p) && t.nodes[p].kids.Pending? ==> p in q[i..])
  }

  lemma FinishingStarts(t: Trees, q: seq<nat>, d: nat)
    requires Frontier(t, q, d)
    ensures Finishing(t, q, 0, d)
  {
    assert q[0..] == q;
  }

  lemma FinishingNext(s: Trees, t: Trees, q: seq<nat>, i: nat, d: nat)
    requires Finishing(s, q, i, d) && i < |q| && Decided(s, t, q[i]) && IsLeaf(t.nodes[q[i]])
    ensures Finishing(t, q, i + 1, d)
  {
    hide NodeOk;
    assert q[i..] == [q[i]] + q[i + 1..];
    forall p: nat | t.Has(p) && t.nodes[p].kids.Pending? ensures p in q[i + 1..] {
      assert s.Has(p) && p != q[i] && t.nodes[p] == s.nodes[p];
    }
  }

  lemma FinishingIs(t: Trees, q: seq<nat>, i: nat, d: nat)
    requires Finishing(t, q, i, d)
    ensures forall j :: 0 <= j < |q| ==> t.Open(q[j]) && LevelOf(t, q[j]) == d && (j < i ==> IsLeaf(t.nodes[q[j]]))
    ensures i == |q| ==> forall p: nat :: t.Has(p) ==> !t.nodes[p].kids.Pending?
  {
  }

  lemma NextIsOpen(s: Trees, t: Trees, q: seq<nat>, best: seq<SplitEntry>, i: nat, d: nat)
    requires i < |q| == |best| && MidLevel(s, t, q, best, i, d)
    ensures t.Open(q[i]) && LevelOf(t, q[i]) == d
  {
  }

  lemma DecidedOnce(s: Trees, t: Trees, p: nat, e: SplitEntry)
    requires Decided(s, t, p)
    requires if e.lossChg > RT_EPS
      then p < |t.nodes| && t.nodes[p].kids.Kids? && t.nodes[p].feature == e.feature && t.nodes[p].info == e.cond
        && t.nodes[p].defaultLeft == e.defaultLeft
      else p < |t.nodes| && IsLeaf(t.nodes[p])
    ensures DecidedAs(t, p, e) && t.roots == s.roots
  {
  }

  predicate FeaturesInRange(nodes: seq<Node>, q: seq<nat>, n: nat) {
    forall j :: 0 <= j < |q| && q[j] < |nodes| && nodes[q[j]].kids.Kids? ==> nodes[q[j]].feature < n
  }

  lemma LevelDecided(s: Trees, t: Trees, q: seq<nat>, best: seq<SplitEntry>, n: nat, d: nat)
    requires |q| == |best| && MidLevel(s, t, q, best, |q|, d)
      && forall j :: 0 <= j < |best| && best[j].lossChg > RT_EPS ==> best[j].feature < n
    ensures forall j :: 0 <= j < |q| ==> t.Has(q[j]) && !t.nodes[q[j]].kids.Pending?
    ensures FeaturesInRange(t.nodes, q, n)
  {
    forall j | 0 <= j < |q| ensures t.Has(q[j]) && !t.nodes[q[j]].kids.Pending? { assert DecidedAs(t, q[j], best[j]); }
    forall j | 0 <= j < |q| && q[j] < |t.nodes| && t.nodes[q[j]].kids.Kids? ensures t.nodes[q[j]].feature < n {
      assert DecidedAs(t, q[j], best[j]);
    }
  }
}
