/** The part of a feature's column that belongs to one node, when every row has a position. */
module OwnColumns {
  import opened CutArrangements
  import opened FMatrix
  import opened Forest
  import opened LeafWeights
  import opened LevelWeights
  import opened NodeColumns
  import opened NodeSplits
  import opened Options
  import opened ReachingRows
  import opened Sorting
  import opened SplitCuts
  import opened SplitScans
  import opened TreeGrowth
  import opened TreeWalk

  predicate Owned(position: seq<int>, p: nat, e: Entry) { e.feature < |position| && position[e.feature] == p }

  /** The entries of rows whose position is p, in order. */
  function Own(position: seq<int>, p: nat, it: seq<Entry>): (r: seq<Entry>)
    ensures forall k :: 0 <= k < |r| ==> r[k] in it && Owned(position, p, r[k])
  {
    if it == [] then []
    else
      var front, last := Own(position, p, it[..|it| - 1]), it[|it| - 1];
      if Owned(position, p, last) then front + [last] else front
  }

  lemma {:induction false} OwnAll(position: seq<int>, p: nat, it: seq<Entry>, e: Entry)
    requires e in it && Owned(position, p, e)
    ensures e in Own(position, p, it)
  {
    var n := |it| - 1;
    if e != it[n] { OwnAll(position, p, it[..n], e); }
  }

  lemma {:induction false} OwnFirst(position: seq<int>, p: nat, x: Entry, it: seq<Entry>)
    ensures Own(position, p, [x] + it) == (if Owned(position, p, x) then [x] else []) + Own(position, p, it)
  {
    if it == [] {
      assert Own(position, p, []) == [];
    } else {
      var n := |it| - 1;
      assert ([x] + it)[..n + 1] == [x] + it[..n];
      OwnFirst(position, p, x, it[..n]);
    }
  }

  /** What is met from the other end */
  lemma {:induction false} OwnReversed(position: seq<int>, p: nat, it: seq<Entry>)
    ensures Own(position, p, Reverse(it)) == Reverse(Own(position, p, it))
  {
    if it != [] {
      var rest := it[1..];
      OwnReversed(position, p, rest);
      assert it == [it[0]] + rest;
      OwnFirst(position, p, it[0], rest);
      assert Reverse(it)[..|Reverse(rest)|] == Reverse(rest);
      var own := Own(position, p, rest);
      if Owned(position, p, it[0]) { assert ([it[0]] + own)[1..] == own; } else { assert [] + own == own; }
    }
  }

  /** A column: ascending, with every row at most once */
  predicate Ordered(col: seq<Entry>) {
    SortedByValue(col) && forall i, j :: 0 <= i < j < |col| ==> col[i].feature != col[j].feature
  }

  lemma {:induction false} OwnOrdered(position: seq<int>, p: nat, it: seq<Entry>)
    requires Ordered(it)
    ensures Ordered(Own(position, p, it))
  {
    if it != [] {
      var n := |it| - 1;
      OwnOrdered(position, p, it[..n]);
      var front := Own(position, p, it[..n]);
      forall k | 0 <= k < |front| ensures front[k].value <= it[n].value && front[k].feature != it[n].feature {
        var i :| 0 <= i < n && it[..n][i] == front[k];
      }
    }
  }

  /** Column f holds exactly the values the rows have for feature f. */
  predicate ColumnOk(cols: seq<seq<Entry>>, rows: seq<Row>, f: nat)
    requires f < |cols|
  {
    && (forall k :: 0 <= k < |cols[f]| ==>
       cols[f][k].feature < |rows| && Lookup(rows[cols[f][k].feature], f) == Some(cols[f][k].value))
    && forall r :: 0 <= r < |rows| && Lookup(rows[r], f).Some? ==>
       exists k :: 0 <= k < |cols[f]| && cols[f][k].feature == r
  }

  /** The part of node p is a column of the rows at p. */
  lemma OwnIsColumn(cols: seq<seq<Entry>>, rows: seq<Row>, f: nat, position: seq<int>, p: nat, s: seq<nat>)
    requires f < |cols| && ColumnOk(cols, rows, f) && Ordered(cols[f]) && |position| == |rows|
    requires forall r: nat :: r in s <==> r < |rows| && position[r] == p
    ensures IsColumn(rows, s, f, Own(position, p, cols[f]))
  {
    hide Lookup, SortedByValue;
    var own := Own(position, p, cols[f]);
    OwnOrdered(position, p, cols[f]);
    forall r | r in s && r < |rows| && Lookup(rows[r], f).Some?
      ensures exists j :: 0 <= j < |own| && own[j].feature == r
    {
      var k :| 0 <= k < |cols[f]| && cols[f][k].feature == r;
      OwnAll(position, p, cols[f], cols[f][k]);
      var j :| 0 <= j < |own| && own[j] == cols[f][k];
    }
    forall j | 0 <= j < |own|
      ensures own[j].feature in s && own[j].feature < |rows| && Lookup(rows[own[j].feature], f) == Some(own[j].value)
    {
      var k :| 0 <= k < |cols[f]| && cols[f][k] == own[j];
    }
  }

  lemma {:induction false} OnceCounts(a: seq<Entry>, e: Entry)
    requires forall i, j :: 0 <= i < j < |a| ==> a[i].feature != a[j].feature
    ensures multiset(a)[e] == if e in a then 1 else 0
  {
    if a != [] {
      var n := |a| - 1;
      assert a == a[..n] + [a[n]];
      OnceCounts(a[..n], e);
    }
  }

  /** There is one column of a feature, up to the order of its entries. */
  lemma SameColumn(rows: seq<Row>, s: seq<nat>, f: nat, a: seq<Entry>, b: seq<Entry>)
    requires IsColumn(rows, s, f, a) && IsColumn(rows, s, f, b)
    ensures multiset(a) == multiset(b)
  {
    forall e: Entry ensures multiset(a)[e] == multiset(b)[e] {
      OnceCounts(a, e);
      OnceCounts(b, e);
      if e in a { InOther(rows, s, f, a, b, e); }
      if e in b { InOther(rows, s, f, b, a, e); }
    }
  }

  lemma InOther(rows: seq<Row>, s: seq<nat>, f: nat, a: seq<Entry>, b: seq<Entry>, e: Entry)
    requires IsColumn(rows, s, f, a) && IsColumn(rows, s, f, b) && e in a
    ensures e in b
  {
    var i :| 0 <= i < |a| && a[i] == e;
    var j :| 0 <= j < |b| && b[j].feature == e.feature;
    assert b[j] == e;
  }

  /** The first n rows that come to a node are different. */
  lemma {:induction false} ReachingDifferent(nodes: seq<Node>, start: seq<int>, rows: seq<Row>, n: nat, p: nat, d: nat)
    ensures var r := Reaching(nodes, start, rows, First(n), p, d);
      AllDifferent(r) && forall k :: 0 <= k < |r| ==> r[k] < n
  {
    if n != 0 {
      assert First(n)[..n - 1] == First(n - 1);
      ReachingDifferent(nodes, start, rows, n - 1, p, d);
    }
  }

  // ----- what is found in one arrangement holds in every other -----

  lemma PartedAlike(left: bool, cond: real, loss: real, s: Sums, param: Param, col: seq<Entry>, other: seq<Entry>)
    requires SortedByValue(col) && SortedByValue(other) && multiset(col) == multiset(other)
    requires Parted(left, cond, loss, s, param, col)
    ensures Parted(left, cond, loss, s, param, other)
  {
    hide CutAt;
    var k: nat :| CutAt(left, k, loss, s, param, col) && Halfway(cond, col, k)
      && forall j :: 0 <= j < |col| ==> (j < k <==> col[j].value < cond);
    AnyArrangement(s, param, col, other);
    CutInside(left, k, loss, s, param, col);
    SameEdges(col, other, k);
    assert |multiset(col)| == |col| && |multiset(other)| == |other|;
    forall j: nat | j < |other| ensures j < k <==> other[j].value < cond {
      var i := ElementOf(other, col, j);
      if 0 < k { SameLow([], col, other, col[k - 1].value, k) by { GapIsLow(col, k); } }
    }
  }

  lemma CutInside(left: bool, k: nat, loss: real, s: Sums, param: Param, col: seq<Entry>)
    requires CutAt(left, k, loss, s, param, col)
    ensures k <= |col| && Gap(col, k)
  {
  }

  lemma GapIsLow(col: seq<Entry>, k: nat)
    requires SortedByValue(col) && Gap(col, k) && 0 < k <= |col|
    ensures LowAre(col, col[k - 1].value, k)
  {
  }

  lemma SearchedAlike(was: SplitEntry, e: SplitEntry, s: Sums, param: Param, col: seq<Entry>, other: seq<Entry>,
                      feature: nat)
    requires SortedByValue(col) && SortedByValue(other) && multiset(col) == multiset(other)
    requires ColumnSearched(was, e, s, param, col, feature)
    ensures ColumnSearched(was, e, s, param, other, feature)
  {
    hide NoBetter, Parted, CutAt, SortedByValue;
    assert NoTie(e.lossChg, e.feature, s, param, col, feature);
    AnyArrangement(s, param, col, other);
    if e != was { PartedAlike(e.defaultLeft, e.cond, e.lossChg, s, param, col, other); }
  }

  /** Both passes over the part of a node have found what a search of the column of its rows would. */
  lemma OwnSearched(was: SplitEntry, e: SplitEntry, s: Sums, param: Param, cols: seq<seq<Entry>>, rows: seq<Row>,
                    f: nat,
                    position: seq<int>, p: nat, list: seq<nat>)
    requires f < |cols| && ColumnOk(cols, rows, f) && Ordered(cols[f]) && |position| == |rows|
    requires forall r :: 0 <= r < |rows| ==> Functional(rows[r])
    requires InRange(rows, list) && AllDifferent(list)
    requires forall r: nat :: r in list <==> r < |rows| && position[r] == p
    requires ColumnSearched(was, e, s, param, Own(position, p, cols[f]), f)
    ensures ColumnSearched(was, e, s, param, SortColumn(ColumnRows(rows, list, f, |list|)), f)
  {
    hide ColumnSearched, IsColumn, ColumnOk, Functional, ColumnRows, SortColumn, AllDifferent, InRange;
    var own, entries := Own(position, p, cols[f]), ColumnRows(rows, list, f, |list|);
    var col := SortColumn(entries);
    OwnIsColumn(cols, rows, f, position, p, list);
    OwnOrdered(position, p, cols[f]);
    SortColumnOk(entries);
    ArrangedColumn(rows, list, f, col);
    SameColumn(rows, list, f, own, col);
    SearchedAlike(was, e, s, param, own, col, f);
  }

  // ----- the search of one node -----

  /** The first i features of the list have been searched among the rows of the list. */
  ghost predicate Seeking(w: Sample, list: seq<nat>, parent: real, e: SplitEntry, featIndex: seq<nat>, i: nat) {
    && e.lossChg >= 0.0 && (e.lossChg > 0.0 ==> e.feature < w.numFeature) && InRange(w.rows, list)
    && (Plain(w, list) ==>
      var s := SumsIn(w.grad, w.hess, SumsFor(w, list, parent));
      && FoundEntry(e, s, w.param, w.rows, list, w.numFeature)
      && SearchedTo(e.lossChg, s, w.param, w.rows, list, featIndex, i)
      && LowestTo(e, s, w.param, w.rows, list, featIndex, i))
  }

  lemma NothingSought(w: Sample, list: seq<nat>, parent: real, featIndex: seq<nat>)
    requires InRange(w.rows, list)
    ensures Seeking(w, list, parent, NoEntry, featIndex, 0)
  {
  }

  lemma ColumnInRange(cols: seq<seq<Entry>>, rows: seq<Row>, f: nat)
    requires f < |cols| && ColumnOk(cols, rows, f)
    ensures |Reverse(cols[f])| == |cols[f]|
    ensures forall k :: 0 <= k < |cols[f]| ==> cols[f][k].feature < |rows| && Reverse(cols[f])[k].feature < |rows|
  {
    ReverseAt(cols[f], 0);
    forall k: nat | k < |cols[f]| ensures Reverse(cols[f])[k].feature < |rows| { ReverseAt(cols[f], k); }
  }

  /** Both passes over the part of a node */
  lemma NodeSearched(w: Sample, list: seq<nat>, parent: real, cols: seq<seq<Entry>>, position: seq<int>, p: nat,
                     was: ThreadEntry, mid: ThreadEntry, now: ThreadEntry, featIndex: seq<nat>, i: nat)
    requires i < |featIndex| && featIndex[i] < |cols| == w.numFeature
      && Seeking(w, list, parent, was.best, featIndex, i)
    requires ColumnOk(cols, w.rows, featIndex[i]) && Ordered(cols[featIndex[i]])
    requires |position| == |w.rows| == |w.grad| == |w.hess|
    requires forall r :: 0 <= r < |w.rows| ==> Functional(w.rows[r])
    requires AllDifferent(list) && forall r: nat :: r in list <==> r < |w.rows| && position[r] == p
    requires var s, f := SumsIn(w.grad, w.hess, SumsFor(w, list, parent)), featIndex[i];
      var down, up := Own(position, p, Reverse(cols[f])), Own(position, p, cols[f]);
      && (if w.param.forward then mid == Last(s, w.param, Scan(s, w.param, was, up, f, true), f, true) else mid == was)
      && (if w.param.backward then now == Last(s, w.param, Scan(s, w.param, mid, down, f, false), f, false)
          else now == mid)
    ensures Seeking(w, list, parent, now.best, featIndex, i + 1)
  {
    hide Functional, ColumnOk, Ordered, FoundEntry, SearchedTo, LowestTo, Scan, Last, Own, ColumnSearched, AllDifferent,
      InRange;
    hide SortedByValue, Known, SumsFor, Reverse, RegularRow;
    var s, f := SumsIn(w.grad, w.hess, SumsFor(w, list, parent)), featIndex[i];
    var own := Own(position, p, cols[f]);
    OwnReversed(position, p, cols[f]);
    OwnKnown(s, position, p, cols[f]);
    ReversedKnown(s, w.param, own);
    PassKeeps(s, w.param, was, own, f, true);
    PassKeeps(s, w.param, mid, Reverse(own), f, false);
    if Plain(w, list) {
      OwnRegular(s, w.param, position, p, cols[f], list);
      OwnOrdered(position, p, cols[f]);
      OrderedIs(own);
      PassesFind(s, w.param, own, was, mid, now, f);
      OwnSearched(was.best, now.best, s, w.param, cols, w.rows, f, position, p, list);
      EntryNext(was.best, now.best, s, w.param, w.rows, list, featIndex, i, w.numFeature);
    }
  }

  lemma OwnKnown(s: Sums, position: seq<int>, p: nat, it: seq<Entry>)
    requires |s.grad| == |s.hess| == |position|
    ensures Known(s, Own(position, p, it))
  {
  }

  lemma OrderedIs(col: seq<Entry>)
    requires Ordered(col)
    ensures SortedByValue(col)
  {
  }

  lemma OwnRegular(s: Sums, param: Param, position: seq<int>, p: nat, it: seq<Entry>, list: seq<nat>)
    requires RegularRows(s, param, list) && forall r: nat :: r in list <==> r < |position| && position[r] == p
    ensures Regular(s, param, Own(position, p, it))
  {
    hide RegularRow;
  }

  /** A feature without entries has none among the rows of a node. */
  lemma NoEntries(cols: seq<seq<Entry>>, rows: seq<Row>, f: nat, list: seq<nat>)
    requires f < |cols| && ColumnOk(cols, rows, f) && cols[f] == [] && InRange(rows, list)
    requires forall r :: 0 <= r < |rows| ==> Functional(rows[r])
    ensures ColumnRows(rows, list, f, |list|) == []
  {
    hide ColumnRows, Functional, Lookup;
    var col := ColumnRows(rows, list, f, |list|);
    if col != [] {
      assert col[0] in col;
      ColumnEntryIs(rows, list, f, col[0]);
    }
  }

  /** With all features searched the best split is known, and NodeEntry takes it over. */
  lemma SeekingEnds(w: Sample, list: seq<nat>, parent: real, cols: seq<seq<Entry>>, e: SplitEntry, featIndex: seq<nat>)
    requires Seeking(w, list, parent, e, featIndex, |featIndex|) && w.numFeature == |cols|
    requires forall r :: 0 <= r < |w.rows| ==> Functional(w.rows[r])
    requires forall f: nat :: f < |cols| ==> ColumnOk(cols, w.rows, f)
    requires forall f: nat :: f in featIndex <==> f < |cols| && cols[f] != []
    ensures var best := Update(NoEntry, e);
      SoughtOn(w, list, parent, best) && (best.lossChg > RT_EPS ==> best.feature < |cols|)
  {
    hide Functional, ColumnOk, FoundEntry, SearchedTo, LowestTo, Lowest, NoBetterSplit, SumsIn, SumsFor, RegularRow,
      ColumnRows;
    var s := SumsIn(w.grad, w.hess, SumsFor(w, list, parent));
    if Plain(w, list) {
      forall f: nat | f < |cols| && f !in featIndex ensures ColumnRows(w.rows, list, f, |list|) == [] {
        NoEntries(cols, w.rows, f, list);
      }
      SearchedAll(e.lossChg, s, w.param, w.rows, list, featIndex, |cols|);
      LowestAll(e, s, w.param, w.rows, list, featIndex, |cols|);
      HandedOn(e, s, w.param, w.rows, list, |cols|);
    }
  }
}
