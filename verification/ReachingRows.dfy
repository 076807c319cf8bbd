/** The rows whose walk comes to a node. */
module ReachingRows {
  import opened Forest
  import opened TreeGrowth
  import opened TreeWalk

  /** The rows of s whose walk is at node p after d steps, in order. */
  function Reaching(nodes: seq<Node>, start: seq<int>, rows: seq<Row>, s: seq<nat>, p: nat, d: nat): (r: seq<nat>) {
    if s == [] then []
    else
      var front, last := Reaching(nodes, start, rows, s[..|s| - 1], p, d), s[|s| - 1];
      if last < |start| == |rows| && WalkPos(nodes, start[last], rows[last], d) == p then front + [last] else front
  }

  /** Deciding a node changes the rows of no node there is. */
  lemma {:induction false} ReachingStays(s: Trees, t: Trees, p: nat, start: seq<int>, rows: seq<Row>, list: seq<nat>,
                                         q: nat)
    requires Decided(s, t, p) && s.Has(q)
    requires |start| == |rows| && forall r :: 0 <= r < |start| ==> -1 <= start[r] < s.roots
    ensures Reaching(t.nodes, start, rows, list, q, s.depth[q]) == Reaching(s.nodes, start, rows, list, q, s.depth[q])
  {
    if list != [] {
      var last := list[|list| - 1];
      ReachingStays(s, t, p, start, rows, list[..|list| - 1], q);
      if last < |rows| { WalkGrows(s, t, p, start[last], rows[last], s.depth[q]); }
    }
  }

  lemma {:induction false} InReaching(nodes: seq<Node>, start: seq<int>, rows: seq<Row>, s: seq<nat>, p: nat, d: nat,
                                      r: nat)
    requires |start| == |rows|
    ensures r in Reaching(nodes, start, rows, s, p, d) <==>
      r in s && r < |rows| && WalkPos(nodes, start[r], rows[r], d) == p
  {
    if s != [] {
      InReaching(nodes, start, rows, s[..|s| - 1], p, d, r);
      assert s == s[..|s| - 1] + [s[|s| - 1]];
    }
  }
}
