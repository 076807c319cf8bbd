/** The columns that a tree maker builds from the rows of a node. */
module NodeColumns {
  import opened Csr
  import opened FMatrix
  import opened Options
  import opened Sorting
  import opened TreeWalk

  /** The entries of feature f among the first k of row r, as entries of a column. */
  function RowPart(row: Row, r: nat, f: nat, k: nat): seq<Entry>
    requires k <= |row|
  {
    if k == 0 then []
    else if row[k - 1].feature == f then RowPart(row, r, f, k - 1) + [Entry(r, row[k - 1].value)]
    else RowPart(row, r, f, k - 1)
  }

  predicate InRange(rows: seq<Row>, s: seq<nat>) { forall i :: 0 <= i < |s| ==> s[i] < |rows| }

  /** The entries of feature f in the first n rows of s. */
  function ColumnRows(rows: seq<Row>, s: seq<nat>, f: nat, n: nat): seq<Entry>
    requires n <= |s| && InRange(rows, s)
  {
    if n == 0 then [] else ColumnRows(rows, s, f, n - 1) + RowPart(rows[s[n - 1]], s[n - 1], f, |rows[s[n - 1]]|)
  }

  lemma {:induction false} InRowPart(row: Row, r: nat, f: nat, k: nat, e: Entry)
    requires k <= |row|
    ensures e in RowPart(row, r, f, k) <==> e.feature == r && exists j :: 0 <= j < k && row[j] == Entry(f, e.value)
  {
    if k != 0 {
      InRowPart(row, r, f, k - 1, e);
      if e in RowPart(row, r, f, k) && e !in RowPart(row, r, f, k - 1) { assert row[k - 1] == Entry(f, e.value); }
    }
  }

  lemma {:induction false} InColumnRows(rows: seq<Row>, s: seq<nat>, f: nat, n: nat, e: Entry)
    requires n <= |s| && InRange(rows, s)
    ensures e in ColumnRows(rows, s, f, n) <==>
      exists i :: 0 <= i < n && e.feature == s[i] && Entry(f, e.value) in rows[s[i]]
  {
    if n != 0 {
      InColumnRows(rows, s, f, n - 1, e);
      var row := rows[s[n - 1]];
      InRowPart(row, s[n - 1], f, |row|, e);
      if e in RowPart(row, s[n - 1], f, |row|) { assert e.feature == s[n - 1] && Entry(f, e.value) in row; }
    }
  }

  lemma {:induction false} RowPartOnce(row: Row, r: nat, f: nat, k: nat, e: Entry)
    requires k <= |row| && Functional(row)
    ensures multiset(RowPart(row, r, f, k))[e] <= 1
    ensures |RowPart(row, r, f, k)| <= 1
    ensures (forall j :: 0 <= j < k ==> row[j].feature != f) ==> RowPart(row, r, f, k) == []
  {
    if k != 0 { RowPartOnce(row, r, f, k - 1, e); }
  }

  lemma {:induction false} ColumnOnce(rows: seq<Row>, s: seq<nat>, f: nat, n: nat, e: Entry)
    requires n <= |s| && InRange(rows, s) && AllDifferent(s) && forall i :: 0 <= i < |rows| ==> Functional(rows[i])
    ensures multiset(ColumnRows(rows, s, f, n))[e] <= 1
  {
    if n != 0 {
      ColumnOnce(rows, s, f, n - 1, e);
      var r := s[n - 1];
      RowPartOnce(rows[r], r, f, |rows[r]|, e);
      InRowPart(rows[r], r, f, |rows[r]|, e);
      InColumnRows(rows, s, f, n - 1, e);
      assert multiset(ColumnRows(rows, s, f, n))
        == multiset(ColumnRows(rows, s, f, n - 1)) + multiset(RowPart(rows[r], r, f, |rows[r]|));
      if e.feature == r {
        assert e !in ColumnRows(rows, s, f, n - 1);
      } else {
        assert e !in RowPart(rows[r], r, f, |rows[r]|);
      }
    }
  }

  lemma TwiceCounts(t: seq<Entry>, i: nat, j: nat)
    requires i < j < |t| && t[i] == t[j]
    ensures multiset(t)[t[i]] >= 2
  {
    assert t == t[..i] + [t[i]] + t[i + 1..j] + [t[j]] + t[j + 1..];
  }

  /** A column of the rows s for feature f: every row with a value once, with that value. */
  ghost predicate IsColumn(rows: seq<Row>, s: seq<nat>, f: nat, col: seq<Entry>) {
    && (forall j :: 0 <= j < |col| ==>
      col[j].feature in s && col[j].feature < |rows| && Lookup(rows[col[j].feature], f) == Some(col[j].value))
    && (forall r :: r in s && r < |rows| && Lookup(rows[r], f).Some? ==>
       exists j :: 0 <= j < |col| && col[j].feature == r)
    && (forall i, j :: 0 <= i < j < |col| ==> col[i].feature != col[j].feature)
  }

  /** However the entries pushed for a feature are arranged, they are its column. */
  lemma ArrangedColumn(rows: seq<Row>, s: seq<nat>, f: nat, col: seq<Entry>)
    requires InRange(rows, s) && AllDifferent(s) && forall i :: 0 <= i < |rows| ==> Functional(rows[i])
    requires multiset(col) == multiset(ColumnRows(rows, s, f, |s|))
    ensures IsColumn(rows, s, f, col)
  {
    var c := ColumnRows(rows, s, f, |s|);
    forall j | 0 <= j < |col|
      ensures col[j].feature in s && col[j].feature < |rows| && Lookup(rows[col[j].feature], f) == Some(col[j].value)
    {
      SameElements(col, c, col[j]);
      ColumnEntryIs(rows, s, f, col[j]);
    }
    forall r | r in s && r < |rows| && Lookup(rows[r], f).Some?
      ensures exists j :: 0 <= j < |col| && col[j].feature == r
    {
      var e := Entry(r, Lookup(rows[r], f).value);
      RowHasEntry(rows, s, f, r);
      SameElements(col, c, e);
      assert e in col;
    }
    forall i, j | 0 <= i < j < |col| ensures col[i].feature != col[j].feature {
      ColumnOnce(rows, s, f, |s|, col[i]);
      if col[i] == col[j] { TwiceCounts(col, i, j); }
      assert Lookup(rows[col[i].feature], f) == Some(col[i].value);
      assert Lookup(rows[col[j].feature], f) == Some(col[j].value);
    }
  }

  lemma ColumnEntryIs(rows: seq<Row>, s: seq<nat>, f: nat, e: Entry)
    requires InRange(rows, s)
      && (forall i :: 0 <= i < |rows| ==> Functional(rows[i])) && e in ColumnRows(rows, s, f, |s|)
    ensures e.feature in s && e.feature < |rows| && Lookup(rows[e.feature], f) == Some(e.value)
  {
    InColumnRows(rows, s, f, |s|, e);
    var i :| 0 <= i < |s| && e.feature == s[i] && Entry(f, e.value) in rows[s[i]];
    LookupIs(rows[s[i]], f);
  }

  lemma RowHasEntry(rows: seq<Row>, s: seq<nat>, f: nat, r: nat)
    requires InRange(rows, s) && r in s && r < |rows| && Lookup(rows[r], f).Some?
    ensures Entry(r, Lookup(rows[r], f).value) in ColumnRows(rows, s, f, |s|)
  {
    LookupIs(rows[r], f);
    var i :| 0 <= i < |s| && s[i] == r;
    InColumnRows(rows, s, f, |s|, Entry(r, Lookup(rows[r], f).value));
  }

  predicate FeaturesBelow(rows: seq<Row>, n: nat) {
    forall i, k :: 0 <= i < |rows| && 0 <= k < |rows[i]| ==> rows[i][k].feature < n
  }

  /** The first pass over the rows: announce every entry, and add up the statistics. */
  method CountEntries(builder: Builder<Entry>, rows: seq<Row>, s: seq<nat>, n: nat)
    requires builder.Budgeting() && builder.budget == seq(n, _ => 0) && InRange(rows, s) && FeaturesBelow(rows, n)
    modifies builder
    ensures builder.Budgeting() && |builder.budget| == n
    ensures forall f: nat :: f < n ==> builder.budget[f] == |ColumnRows(rows, s, f, |s|)|
  {
    for i := 0 to |s|
      invariant builder.Budgeting() && |builder.budget| == n
      invariant forall f: nat :: f < n ==> builder.budget[f] == |ColumnRows(rows, s, f, i)|
    {
      var row := rows[s[i]];
      for k := 0 to |row|
        invariant builder.Budgeting() && |builder.budget| == n
        invariant forall f: nat :: f < n ==>
          builder.budget[f] == |ColumnRows(rows, s, f, i)| + |RowPart(row, s[i], f, k)|
      {
        builder.AddBudget(row[k].feature, 1);
      }
    }
  }

  lemma {:induction false} RowPartGrows(row: Row, r: nat, f: nat, k: nat, n: nat)
    requires k <= n <= |row|
    ensures |RowPart(row, r, f, k)| <= |RowPart(row, r, f, n)|
  {
    if k < n { RowPartGrows(row, r, f, k, n - 1); }
  }

  lemma {:induction false} ColumnRowsGrow(rows: seq<Row>, s: seq<nat>, f: nat, k: nat, n: nat)
    requires k <= n <= |s| && InRange(rows, s)
    ensures |ColumnRows(rows, s, f, k)| <= |ColumnRows(rows, s, f, n)|
  {
    if k < n { ColumnRowsGrow(rows, s, f, k, n - 1); }
  }

  /** The second pass: push every entry into the column of its feature. */
  method PushEntries(builder: Builder<Entry>, rows: seq<Row>, s: seq<nat>, n: nat)
    requires builder.Pushing() && |builder.budget| == n && InRange(rows, s) && FeaturesBelow(rows, n)
    requires forall f: nat :: f < n ==> builder.budget[f] == |ColumnRows(rows, s, f, |s|)| && builder.pushed[f] == []
    modifies builder`rptr, builder`findex, builder`pushed
    ensures builder.Pushing()
    ensures forall f: nat :: f < n ==> builder.pushed[f] == ColumnRows(rows, s, f, |s|)
  {
    for i := 0 to |s|
      invariant builder.Pushing()
      invariant forall f: nat :: f < n ==> builder.pushed[f] == ColumnRows(rows, s, f, i)
    {
      var row := rows[s[i]];
      for k := 0 to |row|
        invariant builder.Pushing()
        invariant forall f: nat :: f < n ==> builder.pushed[f] == ColumnRows(rows, s, f, i) + RowPart(row, s[i], f, k)
      {
        var f := row[k].feature;
        RowPartGrows(row, s[i], f, k + 1, |row|);
        ColumnRowsGrow(rows, s, f, i + 1, |s|);
        builder.PushElem(f, Entry(s[i], row[k].value));
      }
    }
  }

  // ----- the columns of a node in the storage of the builder -----

  /** From done on the columns are as they were built. */
  ghost predicate SameFrom(entry: seq<Entry>, columns: seq<Entry>, done: nat) {
    |entry| == |columns| && forall x :: done <= x < |entry| ==> entry[x] == columns[x]
  }

  lemma AllSame(columns: seq<Entry>)
    ensures SameFrom(columns, columns, 0)
  {
  }

  lemma SameSegment(entry: seq<Entry>, columns: seq<Entry>, done: nat, lo: nat, hi: nat)
    requires SameFrom(entry, columns, done) && done <= lo <= hi <= |entry|
    ensures entry[lo..hi] == columns[lo..hi]
  {
  }

  lemma SameLength(entry: seq<Entry>, columns: seq<Entry>, done: nat)
    requires SameFrom(entry, columns, done)
    ensures |entry| == |columns|
  {
  }

  lemma SameBehind(entry: seq<Entry>, after: seq<Entry>, columns: seq<Entry>, done: nat, lo: nat, hi: nat)
    requires SameFrom(entry, columns, done) && done <= lo <= hi <= |entry| == |after|
    requires forall x :: 0 <= x < |entry| && !(lo <= x < hi) ==> after[x] == entry[x]
    ensures SameFrom(after, columns, hi)
  {
  }

  lemma DifferentRows(s: seq<nat>)
    requires Increasing(s)
    ensures AllDifferent(s)
  {
  }

  /** The segment of an active feature starts behind those of the features before it in the list. */
  lemma Behind(budget: seq<nat>, list: seq<nat>, i: nat)
    requires Increasing(list) && i < |list| && forall f: nat :: f in list ==> Active(budget, f)
    ensures list[i] < |budget|
      && (0 < i ==> list[i - 1] < |budget| && Start(budget, list[i - 1] + 1) <= Start(budget, list[i]))
  {
    assert list[i] in list && Active(budget, list[i]);
    if 0 < i {
      assert list[i - 1] in list && Active(budget, list[i - 1]) && list[i - 1] < list[i];
      StartGrows(budget, list[i - 1] + 1, list[i]);
    }
  }

  /** The columns of the active features, as they lie in the storage. */
  ghost predicate ColumnsAre(builder: Builder<Entry>, columns: seq<Entry>, rows: seq<Row>, list: seq<nat>,
                             numFeature: nat)
    requires InRange(rows, list)
    reads builder
  {
    && |builder.rptr| == |builder.budget| + 1 && |builder.budget| == numFeature
       && |columns| == Start(builder.budget, numFeature)
    && forall f: nat :: f < numFeature && Active(builder.budget, f) ==>
      && builder.rptr[f] == Start(builder.budget, f)
         && builder.rptr[f + 1] == Start(builder.budget, f + 1) <= |columns|
      && builder.rptr[f] < builder.rptr[f + 1]
      && columns[builder.rptr[f]..builder.rptr[f + 1]] == ColumnRows(rows, list, f, |list|)
  }

  /** The columns of a node's rows: in every active one all their entries for the feature. */
  method BuildColumns(builder: Builder<Entry>, rows: seq<Row>, list: seq<nat>, numFeature: nat)
    returns (entry: seq<Entry>)
    requires builder.useAcList && builder.Budgeting() && |builder.budget| == numFeature
    requires InRange(rows, list) && FeaturesBelow(rows, numFeature)
    requires forall f: nat :: f < numFeature ==> builder.budget[f] == |ColumnRows(rows, list, f, |list|)|
    modifies builder
    ensures builder.Pushing() && builder.budget == old(builder.budget) && entry == builder.findex
      && Increasing(builder.aclist)
    ensures ColumnsAre(builder, entry, rows, list, numFeature)
  {
    builder.InitStorage(Entry(0, 0.0));
    PushEntries(builder, rows, list, numFeature);
    entry := builder.findex;
    forall f: nat | f < numFeature && Active(builder.budget, f)
      ensures builder.rptr[f] == Start(builder.budget, f)
        && builder.rptr[f + 1] == Start(builder.budget, f + 1) <= |entry|
      ensures builder.rptr[f] < builder.rptr[f + 1]
      ensures entry[builder.rptr[f]..builder.rptr[f + 1]] == ColumnRows(rows, list, f, |list|)
    {
      builder.SegmentIs(f);
      builder.ActiveBounds(f);
    }
  }

  /** std::sort of a segment */
  method SortSegment(entry: seq<Entry>, lo: nat, hi: nat) returns (r: seq<Entry>)
    requires lo <= hi <= |entry|
    ensures |r| == |entry| && SortedByValue(r[lo..hi]) && multiset(r[lo..hi]) == multiset(entry[lo..hi])
    ensures r[lo..hi] == SortColumn(entry[lo..hi])
    ensures forall i :: 0 <= i < |entry| && !(lo <= i < hi) ==> r[i] == entry[i]
  {
    SortColumnOk(entry[lo..hi]);
    var sorted := SortColumn(entry[lo..hi]);
    r := entry[..lo] + sorted + entry[hi..];
    assert r[lo..hi] == sorted;
  }
}
