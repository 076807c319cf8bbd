/** Sorting by a key, as std::sort is used here: some ordered arrangement of the same elements. */
module Sorting {
  datatype Keyed<T> = Keyed(key: real, item: T)

  predicate Ascending<T>(s: seq<Keyed<T>>) { forall i, j :: 0 <= i < j < |s| ==> s[i].key <= s[j].key }

  function Insert<T>(x: Keyed<T>, s: seq<Keyed<T>>): seq<Keyed<T>> {
    if s == [] then [x] else if x.key < s[0].key then [x] + s else [s[0]] + Insert(x, s[1..])
  }

  function Sort<T>(s: seq<Keyed<T>>): seq<Keyed<T>> { if s == [] then [] else Insert(s[0], Sort(s[1..])) }

  lemma {:induction false} InsertOk<T>(x: Keyed<T>, s: seq<Keyed<T>>)
    requires Ascending(s)
    ensures Ascending(Insert(x, s)) && multiset(Insert(x, s)) == multiset(s) + multiset{x}
    ensures |Insert(x, s)| == |s| + 1
  {
    InsertElements(x, s);
    if s != [] && !(x.key < s[0].key) {
      InsertOk(x, s[1..]);
      InsertElements(x, s[1..]);
      var t := Insert(x, s[1..]);
      forall i | 0 <= i < |t| ensures s[0].key <= t[i].key { InsertedAtLeast(x, s[1..], s[0].key, i); }
    }
  }

  lemma {:induction false} InsertElements<T>(x: Keyed<T>, s: seq<Keyed<T>>)
    ensures multiset(Insert(x, s)) == multiset(s) + multiset{x} && |Insert(x, s)| == |s| + 1
  {
    if s != [] {
      InsertElements(x, s[1..]);
      assert s == [s[0]] + s[1..];
    }
  }

  lemma {:induction false} InsertedAtLeast<T>(x: Keyed<T>, s: seq<Keyed<T>>, low: real, i: nat)
    requires i < |Insert(x, s)| && low <= x.key && forall j :: 0 <= j < |s| ==> low <= s[j].key
    ensures low <= Insert(x, s)[i].key
  {
    if s != [] && !(x.key < s[0].key) && i > 0 { InsertedAtLeast(x, s[1..], low, i - 1); }
  }

  lemma {:induction false} SortOk<T>(s: seq<Keyed<T>>)
    ensures Ascending(Sort(s)) && multiset(Sort(s)) == multiset(s) && |Sort(s)| == |s|
  {
    if s != [] {
      SortOk(s[1..]);
      InsertOk(s[0], Sort(s[1..]));
      assert s == [s[0]] + s[1..];
    }
  }

  function InsertNat(x: nat, s: seq<nat>): (r: seq<nat>)
    ensures |r| == |s| + 1
  {
    if s == [] then [x] else if x < s[0] then [x] + s else [s[0]] + InsertNat(x, s[1..])
  }

  function SortNat(s: seq<nat>): (r: seq<nat>)
    ensures |r| == |s|
  {
    if s == [] then [] else InsertNat(s[0], SortNat(s[1..]))
  }

  predicate Increasing(s: seq<nat>) { forall i, j :: 0 <= i < j < |s| ==> s[i] < s[j] }

  predicate AllDifferent(s: seq<nat>) { forall i, j :: 0 <= i < j < |s| ==> s[i] != s[j] }

  lemma {:induction false} InsertNatOk(x: nat, s: seq<nat>)
    requires Increasing(s) && x !in s
    ensures Increasing(InsertNat(x, s)) && forall y: nat :: y in InsertNat(x, s) <==> y == x || y in s
  {
    if s != [] {
      assert s == [s[0]] + s[1..];
      if x > s[0] {
        InsertNatOk(x, s[1..]);
        var t := InsertNat(x, s[1..]);
        forall i | 0 <= i < |t| ensures s[0] < t[i] { assert t[i] in t; }
      }
    }
  }

  /** Sorting different numbers. */
  lemma {:induction false} SortNatOk(s: seq<nat>)
    requires AllDifferent(s)
    ensures Increasing(SortNat(s)) && forall y: nat :: y in SortNat(s) <==> y in s
  {
    if s != [] {
      SortNatOk(s[1..]);
      assert s == [s[0]] + s[1..];
      InsertNatOk(s[0], SortNat(s[1..]));
    }
  }
}
