/** The cuts of a column and their gains do not depend on how std::sort arranges entries with equal values. */
module CutArrangements {
  import opened FMatrix
  import opened SplitCuts
  import opened TreeWalk

  /** The total of w over the first k entries. */
  function Total(w: Entry -> real, col: seq<Entry>, k: nat): real
    requires k <= |col|
  {
    if k == 0 then 0.0 else Total(w, col, k - 1) + w(col[k - 1])
  }

  lemma {:induction false} TotalSame(w: Entry -> real, a: seq<Entry>, b: seq<Entry>, k: nat)
    requires k <= |a| && k <= |b| && a[..k] == b[..k]
    ensures Total(w, a, k) == Total(w, b, k)
  {
    if k != 0 {
      assert a[..k - 1] == a[..k][..k - 1] && b[..k - 1] == b[..k][..k - 1];
      TotalSame(w, a, b, k - 1);
      assert a[k - 1] == a[..k][k - 1] && b[k - 1] == b[..k][k - 1];
    }
  }

  lemma {:induction false} TotalWithout(w: Entry -> real, b: seq<Entry>, i: nat, k: nat)
    requires i < k <= |b|
    ensures Total(w, b, k) == Total(w, b[..i] + b[i + 1..], k - 1) + w(b[i])
  {
    var c := b[..i] + b[i + 1..];
    if k - 1 == i {
      assert c[..i] == b[..i];
      TotalSame(w, b, c, i);
    } else {
      TotalWithout(w, b, i, k - 1);
      assert c[k - 2] == b[k - 1];
    }
  }

  lemma OneRemoved(b: seq<Entry>, i: nat)
    requires i < |b|
    ensures multiset(b[..i] + b[i + 1..]) == multiset(b) - multiset{b[i]}
  {
    assert b == b[..i] + [b[i]] + b[i + 1..];
  }

  lemma ElementOf(col: seq<Entry>, other: seq<Entry>, j: nat) returns (i: nat)
    requires multiset(col) == multiset(other) && j < |col|
    ensures i < |other| && other[i] == col[j]
  {
    assert col[j] in multiset(other);
    i :| 0 <= i < |other| && other[i] == col[j];
  }

  /** The total depends on the elements only. */
  lemma {:induction false} TotalShuffled(w: Entry -> real, a: seq<Entry>, b: seq<Entry>)
    requires multiset(a) == multiset(b)
    ensures |a| == |b| && Total(w, a, |a|) == Total(w, b, |b|)
  {
    assert |multiset(a)| == |a| && |multiset(b)| == |b|;
    if a != [] {
      var n := |a| - 1;
      var i := ElementOf(a, b, n);
      var c := b[..i] + b[i + 1..];
      OneRemoved(a, n);
      OneRemoved(b, i);
      assert a[..n] + a[n + 1..] == a[..n];
      TotalShuffled(w, a[..n], c);
      TotalSame(w, a, a[..n], n);
      TotalWithout(w, b, i, |b|);
    }
  }

  /** The entries with values up to a are the first k. */
  predicate LowAre(col: seq<Entry>, a: real, k: nat) {
    && k <= |col| && (forall j :: 0 <= j < k ==> col[j].value <= a)
    && forall j :: k <= j < |col| ==> a < col[j].value
  }

  /** What an entry adds to SumOf, if its value is at most a. */
  function LowTerm(v: seq<real>, a: real): Entry -> real {
    (e: Entry) => if e.value <= a && e.feature < |v| then v[e.feature] else 0.0
  }

  function LowCount(a: real): Entry -> real { (e: Entry) => if e.value <= a then 1.0 else 0.0 }

  lemma {:induction false} LowTotals(v: seq<real>, col: seq<Entry>, a: real, k: nat, n: nat)
    requires LowAre(col, a, k) && n <= |col|
    ensures Total(LowTerm(v, a), col, n) == SumOf(v, col, 0, if n <= k then n else k)
    ensures Total(LowCount(a), col, n) == (if n <= k then n else k) as real
  {
    if n != 0 { LowTotals(v, col, a, k, n - 1); }
  }

  lemma {:induction false} LowPoint(col: seq<Entry>, a: real) returns (k: nat)
    requires SortedByValue(col)
    ensures LowAre(col, a, k)
  {
    k := |col|;
    while k != 0 && a < col[k - 1].value
      invariant k <= |col| && forall j :: k <= j < |col| ==> a < col[j].value
    {
      k := k - 1;
    }
  }

  /** Another arrangement has as many entries up to a, with the same sum. */
  lemma SameLow(v: seq<real>, col: seq<Entry>, other: seq<Entry>, a: real, k: nat)
    requires SortedByValue(other) && multiset(col) == multiset(other) && LowAre(col, a, k)
    ensures |other| == |col| && LowAre(other, a, k) && SumOf(v, other, 0, k) == SumOf(v, col, 0, k)
  {
    hide LowTerm, LowCount, Total, SortedByValue;
    var m := LowPoint(other, a);
    LowTotals(v, col, a, k, |col|);
    LowTotals(v, other, a, m, |other|);
    TotalShuffled(LowTerm(v, a), col, other);
    TotalShuffled(LowCount(a), col, other);
  }

  /** A gap stays a gap. */
  lemma SameGap(col: seq<Entry>, other: seq<Entry>, k: nat)
    requires SortedByValue(col) && SortedByValue(other) && multiset(col) == multiset(other) && Gap(col, k)
    ensures |other| == |col| && Gap(other, k)
  {
    assert |multiset(col)| == |col| && |multiset(other)| == |other|;
    if 0 < k < |col| {
      SameLow([], col, other, col[k - 1].value, k);
      var i := ElementOf(other, col, k);
      assert k <= i;
    }
  }

  /** The values next to a gap are the same. */
  lemma SameEdges(col: seq<Entry>, other: seq<Entry>, k: nat)
    requires SortedByValue(col) && SortedByValue(other) && multiset(col) == multiset(other) && Gap(col, k) && k <= |col|
    ensures |other| == |col|
    ensures 0 < k ==> other[k - 1].value == col[k - 1].value
    ensures k < |col| ==> other[k].value == col[k].value
  {
    assert |multiset(col)| == |col| && |multiset(other)| == |other|;
    if 0 < k {
      SameLow([], col, other, col[k - 1].value, k);
      var i := ElementOf(col, other, k - 1);
      assert i < k;
    }
    if k < |col| {
      var i := ElementOf(col, other, k);
      var j := ElementOf(other, col, k);
      assert k <= i && k <= j;
    }
  }

  lemma {:induction false} SumJoins(v: seq<real>, col: seq<Entry>, k: nat, n: nat)
    requires k <= n <= |col|
    ensures SumOf(v, col, 0, n) == SumOf(v, col, 0, k) + SumOf(v, col, k, n)
  {
    if k < n { SumJoins(v, col, k, n - 1); }
  }

  /** The sums on both sides of a gap are the same in every arrangement. */
  lemma SameSums(v: seq<real>, col: seq<Entry>, other: seq<Entry>, k: nat)
    requires SortedByValue(col) && SortedByValue(other) && multiset(col) == multiset(other) && Gap(col, k) && k <= |col|
    ensures |other| == |col| && SumOf(v, other, 0, k) == SumOf(v, col, 0, k)
      && SumOf(v, other, k, |col|) == SumOf(v, col, k, |col|)
  {
    assert |multiset(col)| == |col| && |multiset(other)| == |other|;
    if col != [] {
      SameLow(v, col, other, col[|col| - 1].value, |col|);
      if 0 < k { SameLow(v, col, other, col[k - 1].value, k); }
      SumJoins(v, col, k, |col|);
      SumJoins(v, other, k, |col|);
    }
  }

  /** Gaps, and sums on both sides of them, are the same. */
  ghost predicate Alike(s: Sums, col: seq<Entry>, other: seq<Entry>) {
    |other| == |col| && forall k: nat :: k <= |col| ==>
      && (Gap(col, k) <==> Gap(other, k))
      && (Gap(col, k) ==>
        && SumOf(s.grad, other, 0, k) == SumOf(s.grad, col, 0, k)
        && SumOf(s.grad, other, k, |col|) == SumOf(s.grad, col, k, |col|)
        && SumOf(s.hess, other, 0, k) == SumOf(s.hess, col, 0, k)
        && SumOf(s.hess, other, k, |col|) == SumOf(s.hess, col, k, |col|))
  }

  lemma ArrangementsAlike(s: Sums, col: seq<Entry>, other: seq<Entry>)
    requires SortedByValue(col) && SortedByValue(other) && multiset(col) == multiset(other)
    ensures Alike(s, col, other)
  {
    hide Gap, SumOf, SortedByValue;
    assert |multiset(col)| == |col| && |multiset(other)| == |other|;
    forall k: nat | k <= |col| ensures Gap(col, k) <==> Gap(other, k) {
      if Gap(col, k) { SameGap(col, other, k); }
      if Gap(other, k) { SameGap(other, col, k); }
    }
    forall k: nat | k <= |col| && Gap(col, k)
      ensures SumOf(s.grad, other, 0, k) == SumOf(s.grad, col, 0, k)
        && SumOf(s.grad, other, k, |col|) == SumOf(s.grad, col, k, |col|)
        && SumOf(s.hess, other, 0, k) == SumOf(s.hess, col, 0, k)
        && SumOf(s.hess, other, k, |col|) == SumOf(s.hess, col, k, |col|)
    {
      SameSums(s.grad, col, other, k);
      SameSums(s.hess, col, other, k);
    }
  }

  lemma AlikeReached(s: Sums, param: Param, col: seq<Entry>, other: seq<Entry>, k: nat)
    requires Alike(s, col, other) && k <= |col|
    ensures ReachedUp(s, param, col, k) <==> ReachedUp(s, param, other, k)
    ensures ReachedDown(s, param, col, k) <==> ReachedDown(s, param, other, k)
  {
    hide Gap, SumOf;
    assert forall i :: 0 < i < k ==> (GivesUp(s, param, col, i, 0, i) <==> GivesUp(s, param, other, i, 0, i));
    assert forall i :: k < i < |col| ==>
      (GivesUp(s, param, col, i, i, |col|) <==> GivesUp(s, param, other, i, i, |col|));
  }

  lemma AlikeCut(left: bool, k: nat, loss: real, s: Sums, param: Param, col: seq<Entry>, other: seq<Entry>)
    requires Alike(s, col, other)
    ensures CutAt(left, k, loss, s, param, col) <==> CutAt(left, k, loss, s, param, other)
  {
    if k <= |col| {
      AlikeReached(s, param, col, other, k);
      hide Gap, SumOf, ReachedUp, ReachedDown;
    }
  }

  /** No cut gains more than loss, said cut by cut. */
  lemma NoBetterCut(loss: real, s: Sums, param: Param, col: seq<Entry>)
    ensures NoBetter(loss, s, param, col) <==>
      forall left: bool, k: nat, more: real :: CutAt(left, k, more, s, param, col) ==> more <= loss
  {
    hide Gap, SumOf, ReachedUp, ReachedDown, HeavyEnough;
    if NoBetter(loss, s, param, col) {
      forall left: bool, k: nat, more: real | CutAt(left, k, more, s, param, col) ensures more <= loss { }
    }
    if forall left: bool, k: nat, more: real :: CutAt(left, k, more, s, param, col) ==> more <= loss {
      forall k: nat | 0 < k <= |col| && Gap(col, k) && ReachedUp(s, param, col, k) && HeavyEnough(s, param, col, 0, k)
        && param.forward
        ensures CutGain(s, param, col, 0, k) <= loss
      {
        assert CutAt(false, k, CutGain(s, param, col, 0, k), s, param, col);
      }
      forall k: nat | k < |col| && Gap(col, k) && ReachedDown(s, param, col, k)
        && HeavyEnough(s, param, col, k, |col|) && param.backward
        ensures CutGain(s, param, col, k, |col|) <= loss
      {
        assert CutAt(true, k, CutGain(s, param, col, k, |col|), s, param, col);
      }
    }
  }

  /** Every sorted arrangement of a column has the same cuts with the same gains. */
  lemma AnyArrangement(s: Sums, param: Param, col: seq<Entry>, other: seq<Entry>)
    requires SortedByValue(col) && SortedByValue(other) && multiset(col) == multiset(other)
    ensures forall left: bool, k: nat, loss: real ::
      CutAt(left, k, loss, s, param, col) <==> CutAt(left, k, loss, s, param, other)
    ensures forall loss: real :: NoBetter(loss, s, param, col) <==> NoBetter(loss, s, param, other)
  {
    hide CutAt, NoBetter, Alike;
    ArrangementsAlike(s, col, other);
    forall left: bool, k: nat, loss: real
      ensures CutAt(left, k, loss, s, param, col) <==> CutAt(left, k, loss, s, param, other)
    {
      AlikeCut(left, k, loss, s, param, col, other);
    }
    forall loss: real ensures NoBetter(loss, s, param, col) <==> NoBetter(loss, s, param, other) {
      NoBetterCut(loss, s, param, col);
      NoBetterCut(loss, s, param, other);
    }
  }
}
