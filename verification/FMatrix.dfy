/** FMatrixS of xgboost_data.h: a sparse matrix by rows, and by columns sorted by value. */
module FMatrix {
  import opened Csr
  import opened Sorting
  import opened TreeWalk

  /** Row i. */
  function RowAt(rowPtr: seq<nat>, data: seq<Entry>, i: nat): Row
    requires i + 1 < |rowPtr| && rowPtr[i] <= rowPtr[i + 1] <= |data|
  {
    data[rowPtr[i]..rowPtr[i + 1]]
  }

  /** The pointers cut n places into consecutive pieces. */
  predicate Cuts(ptr: seq<nat>, n: nat) {
    forall i, j :: 0 <= i <= j < |ptr| ==> ptr[i] <= ptr[j] <= n
  }

  predicate Pointers(rowPtr: seq<nat>, n: nat) {
    && rowPtr != [] && rowPtr[0] == 0 && rowPtr[|rowPtr| - 1] == n
    && forall i, j :: 0 <= i <= j < |rowPtr| ==> rowPtr[i] <= rowPtr[j]
  }

  /** For every stored entry the row it belongs to. */
  function Owners(rowPtr: seq<nat>, n: nat): (o: seq<nat>)
    requires n < |rowPtr| && rowPtr[0] == 0 && forall i, j :: 0 <= i <= j < |rowPtr| ==> rowPtr[i] <= rowPtr[j]
    ensures |o| == rowPtr[n]
  {
    if n == 0 then [] else Owners(rowPtr, n - 1) + seq(rowPtr[n] - rowPtr[n - 1], _ => n - 1)
  }

  lemma {:induction false} OwnerOf(rowPtr: seq<nat>, n: nat, i: nat, k: nat)
    requires n < |rowPtr| && rowPtr[0] == 0 && forall i, j :: 0 <= i <= j < |rowPtr| ==> rowPtr[i] <= rowPtr[j]
    requires i < n && rowPtr[i] <= k < rowPtr[i + 1]
    ensures k < rowPtr[n] && Owners(rowPtr, n)[k] == i
  {
    if i < n - 1 { OwnerOf(rowPtr, n - 1, i, k); }
  }

  lemma {:induction false} OwnerHolds(rowPtr: seq<nat>, n: nat, k: nat)
    requires n < |rowPtr| && rowPtr[0] == 0 && forall i, j :: 0 <= i <= j < |rowPtr| ==> rowPtr[i] <= rowPtr[j]
    requires k < rowPtr[n]
    ensures var i := Owners(rowPtr, n)[k]; i < n && rowPtr[i] <= k < rowPtr[i + 1]
  {
    if k < rowPtr[n - 1] { OwnerHolds(rowPtr, n - 1, k); }
  }

  /** The entries of feature f among the first k: row index and value. */
  function Column(data: seq<Entry>, owner: seq<nat>, f: nat, k: nat): (c: seq<Entry>)
    requires k <= |data| == |owner|
  {
    if k == 0 then []
    else if data[k - 1].feature == f then Column(data, owner, f, k - 1) + [Entry(owner[k - 1], data[k - 1].value)]
    else Column(data, owner, f, k - 1)
  }

  lemma {:induction false} ColumnHas(data: seq<Entry>, owner: seq<nat>, f: nat, k: nat, e: Entry)
    requires k <= |data| == |owner|
    ensures e in Column(data, owner, f, k) <==>
      exists j :: 0 <= j < k && data[j] == Entry(f, e.value) && owner[j] == e.feature
  {
    if k != 0 {
      ColumnHas(data, owner, f, k - 1, e);
      if e in Column(data, owner, f, k) && e !in Column(data, owner, f, k - 1) {
        assert data[k - 1] == Entry(f, e.value) && owner[k - 1] == e.feature;
      }
    }
  }

  lemma {:induction false} ColumnGrows(data: seq<Entry>, owner: seq<nat>, f: nat, k: nat, n: nat)
    requires k <= n <= |data| == |owner|
    ensures Column(data, owner, f, k) <= Column(data, owner, f, n)
  {
    if k < n { ColumnGrows(data, owner, f, k, n - 1); }
  }

  /** Entries with their values as sorting keys. */
  function ByValue(s: seq<Entry>): (t: seq<Keyed<Entry>>)
    ensures |t| == |s| && forall i :: 0 <= i < |t| ==> t[i] == Keyed(s[i].value, s[i])
  {
    seq(|s|, i requires 0 <= i < |s| => Keyed(s[i].value, s[i]))
  }

  function Items(t: seq<Keyed<Entry>>): (s: seq<Entry>)
    ensures |s| == |t| && forall i :: 0 <= i < |s| ==> s[i] == t[i].item
  {
    seq(|t|, i requires 0 <= i < |t| => t[i].item)
  }

  predicate SortedByValue(s: seq<Entry>) { forall i, j :: 0 <= i < j < |s| ==> s[i].value <= s[j].value }

  lemma {:induction false} SameItems(s: seq<Keyed<Entry>>, t: seq<Entry>)
    requires multiset(s) == multiset(ByValue(t))
    ensures multiset(Items(s)) == multiset(t)
    ensures forall i :: 0 <= i < |s| ==> s[i].key == s[i].item.value
  {
    forall i | 0 <= i < |s| ensures s[i].key == s[i].item.value {
      assert s[i] in multiset(s);
      assert s[i] in ByValue(t);
    }
    forall e: Entry ensures multiset(Items(s))[e] == multiset(t)[e] {
      CountItems(s, e);
      CountKeyed(t, e);
    }
  }

  lemma CountFirst<T>(s: seq<T>, x: T)
    requires s != []
    ensures multiset(s)[x] == multiset(s[1..])[x] + if s[0] == x then 1 else 0
  {
    assert s == [s[0]] + s[1..];
  }

  lemma {:induction false} CountItems(s: seq<Keyed<Entry>>, e: Entry)
    requires forall i :: 0 <= i < |s| ==> s[i].key == s[i].item.value
    ensures multiset(Items(s))[e] == multiset(s)[Keyed(e.value, e)]
  {
    if s != [] {
      CountItems(s[1..], e);
      CountFirst(s, Keyed(e.value, e));
      CountFirst(Items(s), e);
      assert Items(s)[1..] == Items(s[1..]);
    }
  }

  lemma {:induction false} CountKeyed(t: seq<Entry>, e: Entry)
    ensures multiset(ByValue(t))[Keyed(e.value, e)] == multiset(t)[e]
  {
    if t != [] {
      CountKeyed(t[1..], e);
      CountFirst(t, e);
      CountFirst(ByValue(t), Keyed(e.value, e));
      assert ByValue(t)[1..] == ByValue(t[1..]);
    }
  }

  /** std::sort of a column by value. */
  function SortColumn(s: seq<Entry>): (t: seq<Entry>) { Items(Sort(ByValue(s))) }

  lemma SortColumnOk(s: seq<Entry>)
    ensures SortedByValue(SortColumn(s)) && multiset(SortColumn(s)) == multiset(s) && |SortColumn(s)| == |s|
  {
    SortOk(ByValue(s));
    SameItems(Sort(ByValue(s)), s);
  }

  class FMatrixS {
    var rowPtr: seq<nat>
    var rowData: seq<Entry>
    var colPtr: seq<nat>
    var colData: seq<Entry>

    constructor ()
      ensures Valid() && Rows() == []
    {
      rowPtr, rowData, colPtr, colData := [0], [], [], [];
    }

    ghost predicate Valid()
      reads this
    {
      Pointers(rowPtr, |rowData|)
    }

    ghost function Rows(): (r: seq<Row>)
      requires Valid()
      reads this
      ensures |r| == |rowPtr| - 1
    {
      seq(|rowPtr| - 1, i requires 0 <= i < |rowPtr| - 1 && Valid() reads this => RowAt(rowPtr, rowData, i))
    }

    /** The entries of findex and fvalue within [fstart, fend). */
    static function Within(findex: seq<nat>, fvalue: seq<real>, fstart: nat, fend: nat, n: nat): (r: Row)
      requires n <= |findex| == |fvalue|
      ensures |r| <= n
    {
      if n == 0 then []
      else if findex[n - 1] < fstart || findex[n - 1] >= fend then Within(findex, fvalue, fstart, fend, n - 1)
      else Within(findex, fvalue, fstart, fend, n - 1) + [Entry(findex[n - 1], fvalue[n - 1])]
    }

    /** AddRow */
    method AddRow(findex: seq<nat>, fvalue: seq<real>, fstart: nat, fend: nat) returns (ridx: nat)
      requires Valid() && |findex| == |fvalue|
      modifies this`rowPtr, this`rowData
      ensures Valid() && ridx == |old(Rows())|
      ensures Rows() == old(Rows()) + [Within(findex, fvalue, fstart, fend, |findex|)]
    {
      ghost var ptr, data := rowPtr, rowData;
      var cnt := 0;
      for i := 0 to |findex|
        invariant rowPtr == ptr && rowData == data + Within(findex, fvalue, fstart, fend, i)
        invariant cnt == |Within(findex, fvalue, fstart, fend, i)|
      {
        if findex[i] < fstart || findex[i] >= fend {
          continue;
        }
        rowData := rowData + [Entry(findex[i], fvalue[i])];
        cnt := cnt + 1;
      }
      rowPtr := rowPtr + [rowPtr[|rowPtr| - 1] + cnt];
      ridx := |rowPtr| - 2;
      forall i: nat | i < |ptr| - 1 ensures RowAt(rowPtr, rowData, i) == RowAt(ptr, data, i) {}
      assert RowAt(rowPtr, rowData, |ptr| - 1) == Within(findex, fvalue, fstart, fend, |findex|);
      assert Rows() == old(Rows()) + [Within(findex, fvalue, fstart, fend, |findex|)];
    }

    /** The columns hold exactly the entries of the rows, sorted by value. */
    ghost predicate ColumnsOk()
      requires Valid()
      reads this
    {
      && colPtr != [] && Cuts(colPtr, |colData|)
      && (forall k :: 0 <= k < |rowData| ==> rowData[k].feature < |colPtr| - 1)
      && forall f: nat :: f < |colPtr| - 1 ==> ColumnOk(f)
    }

    ghost predicate ColumnOk(f: nat)
      requires Valid() && f + 1 < |colPtr| && Cuts(colPtr, |colData|)
      reads this
    {
      && SortedByValue(RowAt(colPtr, colData, f))
      && multiset(RowAt(colPtr, colData, f)) == multiset(Column(rowData, Owners(rowPtr, |rowPtr| - 1), f, |rowData|))
    }

    /** The first pass of InitData: announce every entry. */
    method CountColumns(builder: Builder<Entry>)
      requires Valid() && !builder.useAcList && builder.Budgeting() && builder.budget == []
      modifies builder
      ensures builder.Budgeting()
      ensures forall f: nat :: f < |builder.budget| ==>
        builder.budget[f] == |Column(rowData, Owners(rowPtr, |rowPtr| - 1), f, |rowData|)|
      ensures forall k :: 0 <= k < |rowData| ==> rowData[k].feature < |builder.budget|
    {
      ghost var owner := Owners(rowPtr, |rowPtr| - 1);
      for i := 0 to |rowPtr| - 1
        invariant builder.Budgeting()
        invariant forall f: nat :: f < |builder.budget| ==> builder.budget[f] == |Column(rowData, owner, f, rowPtr[i])|
        invariant forall k :: 0 <= k < rowPtr[i] ==> rowData[k].feature < |builder.budget|
      {
        for k := rowPtr[i] to rowPtr[i + 1]
          invariant builder.Budgeting()
          invariant forall f: nat :: f < |builder.budget| ==> builder.budget[f] == |Column(rowData, owner, f, k)|
          invariant forall j :: 0 <= j < k ==> rowData[j].feature < |builder.budget|
        {
          ghost var before := |builder.budget|;
          builder.AddBudget(rowData[k].feature, 1);
          forall f: nat | before <= f < |builder.budget| ensures Column(rowData, owner, f, k) == [] {
            NoEntries(rowData, owner, f, k);
          }
        }
      }
    }

    /** The second pass: push every entry with the index of its row. */
    method PushColumns(builder: Builder<Entry>)
      requires Valid() && builder.Pushing() && forall f :: 0 <= f < |builder.pushed| ==> builder.pushed[f] == []
      requires forall f: nat :: f < |builder.budget| ==>
        builder.budget[f] == |Column(rowData, Owners(rowPtr, |rowPtr| - 1), f, |rowData|)|
      requires forall k :: 0 <= k < |rowData| ==> rowData[k].feature < |builder.budget|
      modifies builder
      ensures builder.Pushing() && builder.budget == old(builder.budget)
      ensures forall f: nat :: f < |builder.budget| ==>
        builder.pushed[f] == Column(rowData, Owners(rowPtr, |rowPtr| - 1), f, |rowData|)
    {
      ghost var owner := Owners(rowPtr, |rowPtr| - 1);
      for i := 0 to |rowPtr| - 1
        invariant builder.Pushing() && builder.budget == old(builder.budget)
        invariant forall f: nat :: f < |builder.budget| ==> builder.pushed[f] == Column(rowData, owner, f, rowPtr[i])
      {
        for k := rowPtr[i] to rowPtr[i + 1]
          invariant builder.Pushing() && builder.budget == old(builder.budget)
          invariant forall f: nat :: f < |builder.budget| ==> builder.pushed[f] == Column(rowData, owner, f, k)
        {
          OwnerOf(rowPtr, |rowPtr| - 1, i, k);
          ColumnGrows(rowData, owner, rowData[k].feature, k + 1, |rowData|);
          builder.PushElem(rowData[k].feature, Entry(i, rowData[k].value));
        }
      }
    }

    lemma NoEntries(data: seq<Entry>, owner: seq<nat>, f: nat, k: nat)
      requires k <= |data| == |owner| && forall j :: 0 <= j < k ==> data[j].feature != f
      ensures Column(data, owner, f, k) == []
    {
    }

    /** InitData */
    method InitData()
      requires Valid()
      modifies this`colPtr, this`colData
      ensures Valid() && ColumnsOk() && Rows() == old(Rows())
    {
      var builder := new Builder<Entry>([], false);
      builder.InitBudget(0);
      CountColumns(builder);
      builder.InitStorage(Entry(0, 0.0));
      PushColumns(builder);
      colPtr, colData := TakeColumns(builder);
      ghost var was := colData;
      SortColumns();
      forall f: nat | f < |colPtr| - 1 ensures ColumnOk(f) {
        assert RowAt(colPtr, was, f) == Column(rowData, Owners(rowPtr, |rowPtr| - 1), f, |rowData|);
      }
    }

    /** The storage of the builder, which the matrix owns. */
    method TakeColumns(builder: Builder<Entry>) returns (ptr: seq<nat>, data: seq<Entry>)
      requires Valid() && builder.Pushing() && !builder.useAcList
      requires forall f: nat :: f < |builder.budget| ==>
        && builder.pushed[f] == Column(rowData, Owners(rowPtr, |rowPtr| - 1), f, |rowData|)
        && builder.budget[f] == |builder.pushed[f]|
      ensures |ptr| == |builder.budget| + 1 && Cuts(ptr, |data|)
      ensures forall f: nat :: f < |ptr| - 1 ==>
        RowAt(ptr, data, f) == Column(rowData, Owners(rowPtr, |rowPtr| - 1), f, |rowData|)
    {
      ptr, data := builder.rptr, builder.findex;
      ghost var budget := builder.budget;
      forall i, j | 0 <= i <= j < |ptr|
        ensures ptr[i] <= ptr[j] <= |data|
      {
        builder.EndOf(i);
        builder.EndOf(j);
        StartGrows(budget, i, j);
        StartGrows(budget, j, |budget|);
      }
      forall f: nat | f < |ptr| - 1
        ensures RowAt(ptr, data, f) == Column(rowData, Owners(rowPtr, |rowPtr| - 1), f, |rowData|)
      {
        builder.SegmentIs(f);
      }
    }

    method SortColumns()
      requires colPtr != [] && Cuts(colPtr, |colData|)
      modifies this`colData
      ensures |colData| == old(|colData|)
      ensures forall f: nat :: f < |colPtr| - 1 ==>
        && SortedByValue(RowAt(colPtr, colData, f))
        && multiset(RowAt(colPtr, colData, f)) == multiset(RowAt(colPtr, old(colData), f))
    {
      ghost var was := colData;
      for i: nat := 0 to |colPtr| - 1
        invariant |colData| == |was|
        invariant forall f: nat :: i <= f < |colPtr| - 1 ==> RowAt(colPtr, colData, f) == RowAt(colPtr, was, f)
        invariant forall f: nat :: f < i ==>
          && SortedByValue(RowAt(colPtr, colData, f))
          && multiset(RowAt(colPtr, colData, f)) == multiset(RowAt(colPtr, was, f))
      {
        var lo, hi := colPtr[i], colPtr[i + 1];
        SortColumnOk(colData[lo..hi]);
        ghost var before := colData;
        var sorted := SortColumn(colData[lo..hi]);
        colData := colData[..lo] + sorted + colData[hi..];
        assert RowAt(colPtr, colData, i) == sorted;
        forall f: nat | f < |colPtr| - 1 && f != i ensures RowAt(colPtr, colData, f) == RowAt(colPtr, before, f) {
          if f < i { assert colPtr[f + 1] <= lo; } else { assert hi <= colPtr[f]; }
        }
        assert RowAt(colPtr, before, i) == before[lo..hi] == RowAt(colPtr, was, i);
        forall f: nat | f < i + 1
          ensures SortedByValue(RowAt(colPtr, colData, f))
          ensures multiset(RowAt(colPtr, colData, f)) == multiset(RowAt(colPtr, was, f))
        {
          if f < i { assert RowAt(colPtr, colData, f) == RowAt(colPtr, before, f); }
        }
      }
    }

    /** In a sorted column stand exactly the values the rows have for this feature. */
    lemma ColumnMatchesRows(f: nat, r: nat, v: real)
      requires Valid() && ColumnsOk() && f < |colPtr| - 1 && r < |Rows()|
      ensures Entry(r, v) in RowAt(colPtr, colData, f) <==> Entry(f, v) in Rows()[r]
    {
      var n, owner := |rowPtr| - 1, Owners(rowPtr, |rowPtr| - 1);
      assert ColumnOk(f);
      assert RowAt(rowPtr, rowData, r) == Rows()[r];
      SameElements(RowAt(colPtr, colData, f), Column(rowData, owner, f, |rowData|), Entry(r, v));
      ColumnEntry(rowPtr, rowData, n, f, r, v);
    }
  }

  lemma SameElements(s: seq<Entry>, t: seq<Entry>, e: Entry)
    requires multiset(s) == multiset(t)
    ensures e in s <==> e in t
  {
    assert e in s <==> e in multiset(s);
    assert e in t <==> e in multiset(t);
  }

  lemma PlaceInRow(rowPtr: seq<nat>, data: seq<Entry>, r: nat, k: nat)
    requires r + 1 < |rowPtr| && rowPtr[r] <= k < rowPtr[r + 1] <= |data|
    ensures data[k] in RowAt(rowPtr, data, r)
  {
    assert RowAt(rowPtr, data, r)[k - rowPtr[r]] == data[k];
  }

  lemma ColumnEntry(rowPtr: seq<nat>, data: seq<Entry>, n: nat, f: nat, r: nat, v: real)
    requires n + 1 == |rowPtr| && Pointers(rowPtr, |data|) && r < n
    ensures Entry(r, v) in Column(data, Owners(rowPtr, n), f, |data|) <==> Entry(f, v) in RowAt(rowPtr, data, r)
  {
    var owner, row := Owners(rowPtr, n), RowAt(rowPtr, data, r);
    ColumnHas(data, owner, f, |data|, Entry(r, v));
    hide Column, Owners;
    if Entry(r, v) in Column(data, owner, f, |data|) {
      var k :| 0 <= k < |data| && data[k] == Entry(f, v) && owner[k] == r;
      OwnerHolds(rowPtr, n, k);
      PlaceInRow(rowPtr, data, r, k);
    }
    if Entry(f, v) in row {
      var begin := rowPtr[r];
      var i :| 0 <= i < |row| && row[i] == Entry(f, v);
      var k := begin + i;
      OwnerOf(rowPtr, n, r, k);
      assert data[k] == Entry(f, v) && owner[k] == r;
    }
  }

  // ----- iterators -----

  /** RowIter and ColIter: dptr starts one place before the first entry. */
  class ColIter {
    const data: seq<Entry>
    const end: int
    var dptr: int

    constructor (data: seq<Entry>, begin: int, end: int)
      ensures this.data == data && this.end == end - 1 && dptr == begin - 1
    {
      this.data, this.end, this.dptr := data, end - 1, begin - 1;
    }

    method Next() returns (more: bool)
      modifies this`dptr
      ensures more == (old(dptr) != end) && dptr == if more then old(dptr) + 1 else old(dptr)
    {
      if dptr == end { return false; }
      dptr := dptr + 1;
      more := true;
    }
  }

  /** ColBackIter: dptr starts behind the last entry. */
  class ColBackIter {
    const data: seq<Entry>
    const end: int
    var dptr: int

    constructor (data: seq<Entry>, begin: int, end: int)
      ensures this.data == data && this.end == begin && dptr == end
    {
      this.data, this.end, this.dptr := data, begin, end;
    }

    method Next() returns (more: bool)
      modifies this`dptr
      ensures more == (old(dptr) != end) && dptr == if more then old(dptr) - 1 else old(dptr)
    {
      if dptr == end { return false; }
      dptr := dptr - 1;
      more := true;
    }
  }

  /** What AddRow keeps: entry by entry those within the range */
  lemma WithinMeans(findex: seq<nat>, fvalue: seq<real>, fstart: nat, fend: nat, n: nat)
    requires n < |findex| == |fvalue|
    ensures FMatrixS.Within(findex, fvalue, fstart, fend, 0) == []
    ensures FMatrixS.Within(findex, fvalue, fstart, fend, n + 1) == FMatrixS.Within(findex, fvalue, fstart, fend, n)
      + if fstart <= findex[n] < fend then [Entry(findex[n], fvalue[n])] else []
  {
  }

  function Reverse<T>(s: seq<T>): (r: seq<T>)
    ensures |r| == |s|
  {
    if s == [] then [] else Reverse(s[1..]) + [s[0]]
  }

  lemma {:induction false} ReverseMeans<T>(s: seq<T>, k: nat)
    requires k < |s|
    ensures Reverse(s)[k] == s[|s| - 1 - k]
  {
    if k < |s| - 1 { ReverseMeans(s[1..], k); }
  }

  /** A loop over GetSortedCol meets the entries of the column in order. */
  method ForwardEntries(m: FMatrixS, f: nat) returns (met: seq<Entry>)
    requires m.Valid() && m.ColumnsOk() && f < |m.colPtr| - 1
    ensures met == RowAt(m.colPtr, m.colData, f)
  {
    var it := new ColIter(m.colData, m.colPtr[f], m.colPtr[f + 1]);
    met := [];
    var more := it.Next();
    while more
      invariant m.Valid() && m.ColumnsOk()
      invariant m.colPtr[f] - 1 <= it.dptr <= it.end && it.end + 1 == m.colPtr[f + 1] && it.data == m.colData
      invariant if more then m.colPtr[f] <= it.dptr && met == m.colData[m.colPtr[f]..it.dptr]
        else it.dptr == it.end && met == m.colData[m.colPtr[f]..m.colPtr[f + 1]]
      decreases it.end - it.dptr, more
    {
      met := met + [it.data[it.dptr]];
      more := it.Next();
    }
  }

  lemma ReverseNext<T>(s: seq<T>, k: nat, hi: nat)
    requires k < hi <= |s|
    ensures Reverse(s[k..hi]) == Reverse(s[k + 1..hi]) + [s[k]]
  {
    assert s[k..hi][1..] == s[k + 1..hi];
  }

  /** A loop over GetReverseSortedCol meets them in the opposite order. */
  method BackwardEntries(m: FMatrixS, f: nat) returns (met: seq<Entry>)
    requires m.Valid() && m.ColumnsOk() && f < |m.colPtr| - 1
    ensures met == Reverse(RowAt(m.colPtr, m.colData, f))
  {
    var it := new ColBackIter(m.colData, m.colPtr[f], m.colPtr[f + 1]);
    ghost var lo, hi := m.colPtr[f], m.colPtr[f + 1];
    met := [];
    var more := it.Next();
    while more
      invariant m.Valid() && m.ColumnsOk() && m.colPtr[f] == lo && m.colPtr[f + 1] == hi
      invariant lo == it.end <= it.dptr <= hi <= |m.colData| && it.data == m.colData
      invariant if more then it.dptr < hi && met == Reverse(m.colData[it.dptr + 1..hi])
        else it.dptr == lo && met == Reverse(m.colData[lo..hi])
      decreases it.dptr - it.end, more
    {
      ReverseNext(m.colData, it.dptr, hi);
      met := met + [it.data[it.dptr]];
      more := it.Next();
    }
  }
}
