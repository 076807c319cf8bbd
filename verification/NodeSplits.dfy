/** What a split search answers for a node: the best cut of the sorted columns of its rows. */
module NodeSplits {
  import opened CutArrangements
  import opened FMatrix
  import opened Forest
  import opened NodeColumns
  import opened SplitCuts
  import opened SplitScans
  import opened TreeGrowth
  import opened TreeWalk

  /** No split of the rows s gains more than loss: the children are too light, or no feature has a good cut. */
  ghost predicate NoBetterSplit(loss: real, sums: Sums, param: Param, rows: seq<Row>, s: seq<nat>, n: nat)
    requires InRange(rows, s)
  {
    forall f: nat :: f < n ==> NoBetter(loss, sums, param, SortColumn(ColumnRows(rows, s, f, |s|)))
  }

  /** Splitting at cond parts the column of feature f at one of the cuts that are looked at, and loss is its gain. */
  ghost predicate MadeCut(f: nat, left: bool, cond: real, loss: real, sums: Sums, param: Param, rows: seq<Row>,
                          s: seq<nat>)
    requires InRange(rows, s)
  {
    Parted(left, cond, loss, sums, param, SortColumn(ColumnRows(rows, s, f, |s|)))
  }

  /** The cut that the node makes attains the maximum. */
  ghost predicate BestCut(n: Node, loss: real, sums: Sums, param: Param, rows: seq<Row>, s: seq<nat>, numFeature: nat)
    requires InRange(rows, s)
  {
    && n.feature < numFeature && loss > RT_EPS
    && MadeCut(n.feature, n.defaultLeft, n.info, loss, sums, param, rows, s)
    && NoBetterSplit(loss, sums, param, rows, s, numFeature)
  }

  /** What a search with SplitEntry answers: nothing that gains, or a cut that attains the maximum, of the lowest
      feature with such a cut. */
  ghost predicate BestEntry(e: SplitEntry, sums: Sums, param: Param, rows: seq<Row>, s: seq<nat>, numFeature: nat)
    requires InRange(rows, s)
  {
    && FoundEntry(e, sums, param, rows, s, numFeature)
    && NoBetterSplit(e.lossChg, sums, param, rows, s, numFeature) && Lowest(e, sums, param, rows, s, numFeature)
  }

  ghost predicate Lowest(e: SplitEntry, sums: Sums, param: Param, rows: seq<Row>, s: seq<nat>, numFeature: nat)
    requires InRange(rows, s)
  {
    forall f: nat :: f < numFeature ==>
      NoTie(e.lossChg, e.feature, sums, param, SortColumn(ColumnRows(rows, s, f, |s|)), f)
  }

  ghost predicate FoundEntry(e: SplitEntry, sums: Sums, param: Param, rows: seq<Row>, s: seq<nat>, numFeature: nat)
    requires InRange(rows, s)
  {
    && e.lossChg >= 0.0
    && (e.lossChg > 0.0 ==>
      e.feature < numFeature && MadeCut(e.feature, e.defaultLeft, e.cond, e.lossChg, sums, param, rows, s))
  }

  /** Some cut that is looked at gains more than RT_EPS. */
  ghost predicate Pays(sums: Sums, param: Param, rows: seq<Row>, s: seq<nat>, numFeature: nat)
    requires InRange(rows, s)
  {
    exists f: nat, left: bool, k: nat, loss: real :: f < numFeature && loss > RT_EPS
      && CutAt(left, k, loss, sums, param, SortColumn(ColumnRows(rows, s, f, |s|)))
  }

  lemma BestPays(n: Node, loss: real, sums: Sums, param: Param, rows: seq<Row>, s: seq<nat>, numFeature: nat)
    requires InRange(rows, s) && BestCut(n, loss, sums, param, rows, s, numFeature)
    ensures Pays(sums, param, rows, s, numFeature)
  {
    hide SortColumn, ColumnRows, CutAt, NoBetterSplit;
  }

  lemma NothingPays(loss: real, sums: Sums, param: Param, rows: seq<Row>, s: seq<nat>, numFeature: nat)
    requires InRange(rows, s) && NoBetterSplit(loss, sums, param, rows, s, numFeature) && loss <= RT_EPS
    ensures !Pays(sums, param, rows, s, numFeature)
  {
    hide SortColumn, ColumnRows, NoBetter, CutAt;
    forall f: nat, left: bool, k: nat, more: real
      | f < numFeature && CutAt(left, k, more, sums, param, SortColumn(ColumnRows(rows, s, f, |s|)))
      ensures more <= RT_EPS
    {
      NoBetterCut(loss, sums, param, SortColumn(ColumnRows(rows, s, f, |s|)));
    }
  }

  /** The entries of a column are of rows of the node. */
  lemma ColumnOfRows(rows: seq<Row>, s: seq<nat>, f: nat, col: seq<Entry>)
    requires InRange(rows, s) && col == SortColumn(ColumnRows(rows, s, f, |s|))
    ensures forall k :: 0 <= k < |col| ==> col[k].feature in s && col[k].feature < |rows|
  {
    hide SortColumn;
    var entries := ColumnRows(rows, s, f, |s|);
    SortColumnOk(entries);
    forall k | 0 <= k < |col| ensures col[k].feature in s && col[k].feature < |rows| {
      assert col[k] in multiset(col) && col[k] in entries;
      InColumnRows(rows, s, f, |s|, col[k]);
    }
  }

  /** When no row of the node has a negative hessian, nothing was missed: no admissible cut of any feature gains
      more than loss. */
  lemma NoSplitMissed(loss: real, sums: Sums, param: Param, rows: seq<Row>, s: seq<nat>, n: nat, f: nat)
    requires InRange(rows, s) && NoBetterSplit(loss, sums, param, rows, s, n) && f < n
    requires forall x :: x in s && x < |sums.hess| ==> sums.hess[x] >= 0.0
    ensures Unbeaten(loss, sums, param, SortColumn(ColumnRows(rows, s, f, |s|)))
  {
    hide NoBetter, Unbeaten, SortColumn;
    var col := SortColumn(ColumnRows(rows, s, f, |s|));
    ColumnOfRows(rows, s, f, col);
    NothingMissed(loss, sums, param, col);
  }

  /** A child needs some weight, and a row of the list without a hessian has no gradient either. */
  predicate RegularRows(sums: Sums, param: Param, s: seq<nat>) {
    param.minChildWeight > 0.0 && forall x :: x in s ==> RegularRow(sums.grad, sums.hess, x)
  }

  /** Regular rows make regular columns. */
  lemma ColumnRegular(sums: Sums, param: Param, rows: seq<Row>, s: seq<nat>, f: nat)
    requires InRange(rows, s) && RegularRows(sums, param, s)
    ensures Regular(sums, param, SortColumn(ColumnRows(rows, s, f, |s|)))
  {
    hide SortColumn;
    ColumnOfRows(rows, s, f, SortColumn(ColumnRows(rows, s, f, |s|)));
  }

  lemma ColumnKnown(sums: Sums, rows: seq<Row>, s: seq<nat>, f: nat)
    requires InRange(rows, s) && |sums.grad| == |sums.hess| == |rows|
    ensures Known(sums, SortColumn(ColumnRows(rows, s, f, |s|)))
  {
    hide SortColumn;
    ColumnOfRows(rows, s, f, SortColumn(ColumnRows(rows, s, f, |s|)));
  }

  /** The first i features of the list offer nothing better. */
  ghost predicate SearchedTo(loss: real, sums: Sums, param: Param, rows: seq<Row>, s: seq<nat>, list: seq<nat>, i: nat)
    requires InRange(rows, s)
  {
    forall k :: 0 <= k < i <= |list| ==> NoBetter(loss, sums, param, SortColumn(ColumnRows(rows, s, list[k], |s|)))
  }

  lemma SearchedNext(loss: real, more: real, sums: Sums, param: Param, rows: seq<Row>, s: seq<nat>, list: seq<nat>,
                     i: nat)
    requires InRange(rows, s) && i < |list| && loss <= more && SearchedTo(loss, sums, param, rows, s, list, i)
    requires NoBetter(more, sums, param, SortColumn(ColumnRows(rows, s, list[i], |s|)))
    ensures SearchedTo(more, sums, param, rows, s, list, i + 1)
  {
    hide NoBetter;
    forall k | 0 <= k < i ensures NoBetter(more, sums, param, SortColumn(ColumnRows(rows, s, list[k], |s|))) {
      NoBetterMonotone(loss, more, sums, param, SortColumn(ColumnRows(rows, s, list[k], |s|)));
    }
  }

  /** So far no feature of the list would have been the better choice. */
  ghost predicate LowestTo(e: SplitEntry, sums: Sums, param: Param, rows: seq<Row>, s: seq<nat>, list: seq<nat>, i: nat)
    requires InRange(rows, s)
  {
    forall k :: 0 <= k < i <= |list| ==>
      NoTie(e.lossChg, e.feature, sums, param, SortColumn(ColumnRows(rows, s, list[k], |s|)), list[k])
  }

  lemma LowestNext(was: SplitEntry, e: SplitEntry, sums: Sums, param: Param, rows: seq<Row>, s: seq<nat>,
                   list: seq<nat>,
                   i: nat)
    requires InRange(rows, s) && i < |list| && was.lossChg <= e.lossChg
    requires e.lossChg == was.lossChg ==> e.feature <= was.feature
    requires SearchedTo(was.lossChg, sums, param, rows, s, list, i) && LowestTo(was, sums, param, rows, s, list, i)
    requires NoTie(e.lossChg, e.feature, sums, param, SortColumn(ColumnRows(rows, s, list[i], |s|)), list[i])
    ensures LowestTo(e, sums, param, rows, s, list, i + 1)
  {
    hide NoBetter, CutAt, SortColumn, ColumnRows;
    forall k | 0 <= k < i
      ensures NoTie(e.lossChg, e.feature, sums, param, SortColumn(ColumnRows(rows, s, list[k], |s|)), list[k])
    {
      var col := SortColumn(ColumnRows(rows, s, list[k], |s|));
      NoBetterCut(was.lossChg, sums, param, col);
      assert NoTie(was.lossChg, was.feature, sums, param, col, list[k]);
    }
  }

  lemma LowestAll(e: SplitEntry, sums: Sums, param: Param, rows: seq<Row>, s: seq<nat>, list: seq<nat>, n: nat)
    requires InRange(rows, s) && LowestTo(e, sums, param, rows, s, list, |list|)
    requires forall f: nat :: f < n && f !in list ==> ColumnRows(rows, s, f, |s|) == []
    ensures Lowest(e, sums, param, rows, s, n)
  {
    hide NoTie;
    forall f: nat | f < n
      ensures NoTie(e.lossChg, e.feature, sums, param, SortColumn(ColumnRows(rows, s, f, |s|)), f)
    {
      if f in list {
        var k :| 0 <= k < |list| && list[k] == f;
      } else {
        SortColumnOk([]);
        EmptyTie(e, sums, param, f);
      }
    }
  }

  lemma EmptyTie(e: SplitEntry, sums: Sums, param: Param, f: nat)
    ensures NoTie(e.lossChg, e.feature, sums, param, [], f)
  {
  }

  /** One more feature of the list has been searched. */
  lemma EntryNext(was: SplitEntry, e: SplitEntry, sums: Sums, param: Param, rows: seq<Row>, s: seq<nat>, list: seq<nat>,
                  i: nat, n: nat)
    requires InRange(rows, s) && i < |list| && list[i] < n
    requires FoundEntry(was, sums, param, rows, s, n) && SearchedTo(was.lossChg, sums, param, rows, s, list, i)
    requires LowestTo(was, sums, param, rows, s, list, i)
    requires ColumnSearched(was, e, sums, param, SortColumn(ColumnRows(rows, s, list[i], |s|)), list[i])
    ensures FoundEntry(e, sums, param, rows, s, n) && SearchedTo(e.lossChg, sums, param, rows, s, list, i + 1)
    ensures LowestTo(e, sums, param, rows, s, list, i + 1)
  {
    hide NoBetter, Parted, SearchedTo, LowestTo, NoTie;
    LowestNext(was, e, sums, param, rows, s, list, i);
    SearchedNext(was.lossChg, e.lossChg, sums, param, rows, s, list, i);
  }

  /** Handing a split on to an entry without one */
  lemma HandedOn(e: SplitEntry, sums: Sums, param: Param, rows: seq<Row>, s: seq<nat>, n: nat)
    requires InRange(rows, s) && e.lossChg >= 0.0
    ensures var r := Update(NoEntry, e);
      && r.lossChg == e.lossChg && (r.lossChg > 0.0 ==> r == e)
      && (BestEntry(e, sums, param, rows, s, n) ==> BestEntry(r, sums, param, rows, s, n))
  {
    hide NoBetterSplit, MadeCut, CutAt;
  }

  lemma NothingFound(sums: Sums, param: Param, rows: seq<Row>, s: seq<nat>, n: nat)
    requires InRange(rows, s)
    ensures FoundEntry(NoEntry, sums, param, rows, s, n)
  {
  }

  lemma SearchedAll(loss: real, sums: Sums, param: Param, rows: seq<Row>, s: seq<nat>, list: seq<nat>, n: nat)
    requires InRange(rows, s) && SearchedTo(loss, sums, param, rows, s, list, |list|)
    requires forall f: nat :: f < n && f !in list ==> ColumnRows(rows, s, f, |s|) == []
    ensures NoBetterSplit(loss, sums, param, rows, s, n)
  {
    hide NoBetter;
    forall f: nat | f < n ensures NoBetter(loss, sums, param, SortColumn(ColumnRows(rows, s, f, |s|))) {
      if f in list {
        var k :| 0 <= k < |list| && list[k] == f;
      } else {
        SortColumnOk([]);
        EmptyColumn(loss, sums, param);
      }
    }
  }

  lemma NothingSearched(loss: real, sums: Sums, param: Param, rows: seq<Row>, s: seq<nat>, list: seq<nat>)
    requires InRange(rows, s)
    ensures SearchedTo(loss, sums, param, rows, s, list, 0)
    ensures forall e: SplitEntry :: LowestTo(e, sums, param, rows, s, list, 0)
  {
  }

  lemma EmptyColumn(loss: real, sums: Sums, param: Param)
    ensures NoBetter(loss, sums, param, [])
  {
  }
}
