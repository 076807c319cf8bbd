/** EnumerateSplit of the column and of the row tree maker: one pass over the entries of a feature, in the order an
    iterator gives them, against the cuts of the sorted column. */
module SplitScans {
  import opened FMatrix
  import opened SplitCuts
  import opened TreeGrowth
  import opened TreeWalk

  /** SplitEntry() */
  const NoEntry: SplitEntry := SplitEntry(0.0, 0, 0.0, false)

  /** Update of a SplitEntry: with equal gains the lower feature wins. */
  function Update(best: SplitEntry, e: SplitEntry): SplitEntry {
    if (if best.feature <= e.feature then e.lossChg > best.lossChg else !(best.lossChg > e.lossChg)) then e else best
  }

  /** ThreadEntry: the sums of the entries met, the last value, and the best split. */
  datatype ThreadEntry = ThreadEntry(sumGrad: real, sumHess: real, lastValue: real, best: SplitEntry)

  /** ClearStats */
  function Cleared(e: ThreadEntry): ThreadEntry { e.(sumGrad := 0.0, sumHess := 0.0) }

  function Abs(x: real): real { if x < 0.0 then -x else x }

  predicate BothHeavy(s: Sums, param: Param, h: real) {
    h >= param.minChildWeight && s.rsumHess - h >= param.minChildWeight
  }

  /** The split that takes what has been met so far off the default branch. */
  function Offer(s: Sums, param: Param, g: real, h: real, feature: nat, value: real, forward: bool): SplitEntry {
    SplitEntry(param.gain(g, h, s.weight) + param.gain(s.rsumGrad - g, s.rsumHess - h, s.weight) - s.rootGain, feature,
      value, !forward)
  }

  /** What one more entry does. */
  function Hit(s: Sums, param: Param, e: ThreadEntry, x: Entry, feature: nat, forward: bool): ThreadEntry
    requires x.feature < |s.grad| == |s.hess|
  {
    if e.sumHess == 0.0 then ThreadEntry(s.grad[x.feature], s.hess[x.feature], x.value, e.best)
    else
      ThreadEntry(e.sumGrad + s.grad[x.feature], e.sumHess + s.hess[x.feature], x.value,
        if Abs(x.value - e.lastValue) > 2.0 * RT_EPS && BothHeavy(s, param, e.sumHess)
        then Update(e.best, Offer(s, param, e.sumGrad, e.sumHess, feature, 0.5 * (x.value + e.lastValue), forward))
        else e.best)
  }

  /** The split that takes all entries, when the pass is over. */
  function Last(s: Sums, param: Param, e: ThreadEntry, feature: nat, forward: bool): ThreadEntry {
    if BothHeavy(s, param, e.sumHess)
    then e.(best := Update(e.best, Offer(s, param, e.sumGrad, e.sumHess, feature,
      e.lastValue + (if forward then RT_EPS else -RT_EPS), forward)))
    else e
  }

  /** The entries are of rows with known gradients. */
  predicate Known(s: Sums, it: seq<Entry>) {
    |s.grad| == |s.hess| && forall k :: 0 <= k < |it| ==> it[k].feature < |s.grad|
  }

  /** The pass over it. */
  function Scan(s: Sums, param: Param, e: ThreadEntry, it: seq<Entry>, feature: nat, forward: bool): ThreadEntry
    requires Known(s, it)
  {
    if it == [] then Cleared(e)
    else Hit(s, param, Scan(s, param, e, it[..|it| - 1], feature, forward), it[|it| - 1], feature, forward)
  }

  lemma ScanStart(s: Sums, param: Param, e: ThreadEntry, it: seq<Entry>, feature: nat, forward: bool)
    requires Known(s, it)
    ensures Known(s, it[..0]) && Scan(s, param, e, it[..0], feature, forward) == Cleared(e)
  {
  }

  lemma ScanNext(s: Sums, param: Param, e: ThreadEntry, it: seq<Entry>, k: nat, feature: nat, forward: bool)
    requires Known(s, it) && k < |it|
    ensures Known(s, it[..k]) && Known(s, it[..k + 1]) && it[k].feature < |s.grad| == |s.hess|
    ensures Scan(s, param, e, it[..k + 1], feature, forward)
      == Hit(s, param, Scan(s, param, e, it[..k], feature, forward), it[k], feature, forward)
  {
    assert it[..k + 1][..k] == it[..k];
  }

  // ----- the cuts that a pass looks at -----

  /** The cut behind the first i entries met */
  predicate ScanCut(s: Sums, param: Param, it: seq<Entry>, i: nat) {
    && 0 < i <= |it| && (i < |it| ==> Abs(it[i].value - it[i - 1].value) > 2.0 * RT_EPS)
    && HeavyEnough(s, param, it, 0, i)
  }

  function CutValue(it: seq<Entry>, i: nat, forward: bool): real
    requires 0 < i <= |it|
  {
    if i < |it| then 0.5 * (it[i].value + it[i - 1].value) else it[i - 1].value + if forward then RT_EPS else -RT_EPS
  }

  function CutEntry(s: Sums, param: Param, it: seq<Entry>, i: nat, feature: nat, forward: bool): SplitEntry
    requires 0 < i <= |it|
  {
    SplitEntry(CutGain(s, param, it, 0, i), feature, CutValue(it, i, forward), !forward)
  }

  /** Of the cuts behind at most n entries e is the best, if it is not the split known before. With equal gains the
      lower feature wins. */
  ghost predicate Among(was: SplitEntry, e: SplitEntry, s: Sums, param: Param, it: seq<Entry>, n: nat, feature: nat,
                        forward: bool) {
    && was.lossChg <= e.lossChg
    && (e == was || exists i: nat ::
      i <= n && ScanCut(s, param, it, i) && e == CutEntry(s, param, it, i, feature, forward))
    && (e.lossChg == was.lossChg ==> e.feature <= was.feature)
    && forall i: nat :: i <= n && ScanCut(s, param, it, i) ==>
      CutGain(s, param, it, 0, i) <= e.lossChg && (CutGain(s, param, it, 0, i) == e.lossChg ==> e.feature <= feature)
  }

  /** No negative hessian, and no gradient without a hessian */
  predicate RegularRow(grad: seq<real>, hess: seq<real>, r: nat) {
    r < |grad| && r < |hess| ==> hess[r] >= 0.0 && (hess[r] == 0.0 ==> grad[r] == 0.0)
  }

  /** A child needs some weight, and a row without a hessian has no gradient either. */
  predicate Regular(s: Sums, param: Param, it: seq<Entry>) {
    param.minChildWeight > 0.0 && forall k :: 0 <= k < |it| ==> RegularRow(s.grad, s.hess, it[k].feature)
  }

  lemma RegularIsNonNegative(s: Sums, param: Param, it: seq<Entry>)
    requires Regular(s, param, it) && Known(s, it)
    ensures NonNegative(s.hess, it)
  {
    forall k | 0 <= k < |it| && it[k].feature < |s.hess| ensures s.hess[it[k].feature] >= 0.0 {
      assert RegularRow(s.grad, s.hess, it[k].feature);
    }
  }

  /** While the hessians add up to nothing, so do the gradients. */
  lemma {:induction false} NoWeightYet(s: Sums, param: Param, it: seq<Entry>, n: nat)
    requires Regular(s, param, it) && Known(s, it) && n <= |it|
    ensures SumOf(s.hess, it, 0, n) >= 0.0
    ensures SumOf(s.hess, it, 0, n) == 0.0 ==> SumOf(s.grad, it, 0, n) == 0.0
  {
    if n > 0 {
      NoWeightYet(s, param, it, n - 1);
      assert RegularRow(s.grad, s.hess, it[n - 1].feature);
    }
  }

  lemma {:induction false} SumFirst(v: seq<real>, it: seq<Entry>, k: nat, n: nat)
    requires n <= k <= |it|
    ensures SumOf(v, it[..k], 0, n) == SumOf(v, it, 0, n)
  {
    if n > 0 { SumFirst(v, it, k, n - 1); }
  }

  lemma CutsStay(s: Sums, param: Param, it: seq<Entry>, k: nat, i: nat)
    requires 0 < i < k <= |it|
    ensures ScanCut(s, param, it, i) <==> ScanCut(s, param, it[..k], i)
    ensures CutGain(s, param, it, 0, i) == CutGain(s, param, it[..k], 0, i)
    ensures CutValue(it, i, true) == CutValue(it[..k], i, true) == CutValue(it[..k], i, false) == CutValue(it, i, false)
  {
    SumFirst(s.grad, it, k, i);
    SumFirst(s.hess, it, k, i);
  }

  /** What is known while the pass goes on, when the rows are regular. */
  ghost predicate Scanned(was: SplitEntry, e: ThreadEntry, s: Sums, param: Param, it: seq<Entry>, feature: nat,
                          forward: bool) {
    && e.sumGrad == SumOf(s.grad, it, 0, |it|) && e.sumHess == SumOf(s.hess, it, 0, |it|)
    && (it != [] ==> e.lastValue == it[|it| - 1].value)
    && Among(was, e.best, s, param, it, if it == [] then 0 else |it| - 1, feature, forward)
  }

  lemma AmongStays(was: SplitEntry, e: SplitEntry, s: Sums, param: Param, it: seq<Entry>, k: nat, feature: nat,
                   forward: bool)
    requires 0 < k <= |it| && Among(was, e, s, param, it[..k], k - 1, feature, forward)
    ensures Among(was, e, s, param, it, k - 1, feature, forward)
  {
    hide SumOf, ScanCut, CutGain, CutValue;
    forall i: nat | 0 < i < k
      ensures ScanCut(s, param, it, i) <==> ScanCut(s, param, it[..k], i)
      ensures CutGain(s, param, it, 0, i) == CutGain(s, param, it[..k], 0, i)
      ensures CutEntry(s, param, it, i, feature, forward) == CutEntry(s, param, it[..k], i, feature, forward)
    {
      CutsStay(s, param, it, k, i);
    }
    NoCut(s, param, it);
    NoCut(s, param, it[..k]);
  }

  lemma NoCut(s: Sums, param: Param, it: seq<Entry>)
    ensures !ScanCut(s, param, it, 0)
  {
  }

  /** One more cut is looked at. */
  lemma AmongNext(was: SplitEntry, e: SplitEntry, next: SplitEntry, s: Sums, param: Param, it: seq<Entry>, n: nat,
                  feature: nat, forward: bool)
    requires Among(was, e, s, param, it, n, feature, forward) && n < |it|
    requires next == if ScanCut(s, param, it, n + 1) then Update(e, CutEntry(s, param, it, n + 1, feature, forward))
      else e
    ensures Among(was, next, s, param, it, n + 1, feature, forward)
  {
    hide SumOf, ScanCut, CutGain, CutValue;
  }

  lemma HitScanned(was: SplitEntry, e: ThreadEntry, s: Sums, param: Param, it: seq<Entry>, x: Entry, feature: nat,
                   forward: bool)
    requires Scanned(was, e, s, param, it, feature, forward)
    requires Known(s, it + [x]) && x.feature < |s.grad| && Regular(s, param, it + [x])
    ensures Scanned(was, Hit(s, param, e, x, feature, forward), s, param, it + [x], feature, forward)
  {
    var all, n := it + [x], |it|;
    hide Among;
    assert all[..n] == it;
    SumFirst(s.grad, all, n, n);
    SumFirst(s.hess, all, n, n);
    if n == 0 {
      NothingAmong(was, e.best, s, param, it, all, feature, forward);
    } else {
      NoWeightYet(s, param, all, n);
      AmongStays(was, e.best, s, param, all, n, feature, forward);
      AmongNext(was, e.best, Hit(s, param, e, x, feature, forward).best, s, param, all, n - 1, feature, forward);
    }
  }

  lemma NothingAmong(was: SplitEntry, e: SplitEntry, s: Sums, param: Param, it: seq<Entry>, all: seq<Entry>,
                     feature: nat, forward: bool)
    requires Among(was, e, s, param, it, 0, feature, forward)
    ensures Among(was, e, s, param, all, 0, feature, forward)
  {
    NoCut(s, param, it);
    NoCut(s, param, all);
  }

  lemma StartScanned(e: ThreadEntry, s: Sums, param: Param, feature: nat, forward: bool)
    ensures Scanned(e.best, Cleared(e), s, param, [], feature, forward)
  {
    NoCut(s, param, []);
  }

  lemma {:induction false} ScanIsScanned(e: ThreadEntry, s: Sums, param: Param, it: seq<Entry>, feature: nat,
                                         forward: bool)
    requires Known(s, it) && Regular(s, param, it)
    ensures Scanned(e.best, Scan(s, param, e, it, feature, forward), s, param, it, feature, forward)
  {
    if it == [] {
      StartScanned(e, s, param, feature, forward);
    } else {
      var n := |it| - 1;
      ScanIsScanned(e, s, param, it[..n], feature, forward);
      assert it == it[..n] + [it[n]];
      HitScanned(e.best, Scan(s, param, e, it[..n], feature, forward), s, param, it[..n], it[n], feature, forward);
    }
  }

  /** When the pass is over, the best of all cuts is known. */
  lemma LastIsBest(was: SplitEntry, e: ThreadEntry, s: Sums, param: Param, it: seq<Entry>, feature: nat, forward: bool)
    requires Scanned(was, e, s, param, it, feature, forward) && param.minChildWeight > 0.0
    ensures Among(was, Last(s, param, e, feature, forward).best, s, param, it, |it|, feature, forward)
  {
    hide Among;
    if it != [] {
      AmongNext(was, e.best, Last(s, param, e, feature, forward).best, s, param, it, |it| - 1, feature, forward);
    }
  }

  /** The row maker gives up at entry k: what is met is heavy enough, and the rest is too light. */
  predicate Stops(s: Sums, param: Param, it: seq<Entry>, k: nat, best: SplitEntry, feature: nat, forward: bool)
    requires Known(s, it)
  {
    k < |it| &&
    var e := Scan(s, param, ThreadEntry(0.0, 0.0, 0.0, best), it[..k], feature, forward);
    && e.sumHess != 0.0 && Abs(it[k].value - e.lastValue) > 2.0 * RT_EPS && e.sumHess >= param.minChildWeight
    && s.rsumHess - e.sumHess < param.minChildWeight
  }

  /** What the row maker answers: the whole pass, or the pass up to where it gives up. */
  ghost predicate Passed(s: Sums, param: Param, it: seq<Entry>, best: SplitEntry, r: SplitEntry, feature: nat,
                         forward: bool)
    requires Known(s, it)
  {
    var e := ThreadEntry(0.0, 0.0, 0.0, best);
    || r == Last(s, param, Scan(s, param, e, it, feature, forward), feature, forward).best
    || exists k: nat ::
      Stops(s, param, it, k, best, feature, forward) && r == Scan(s, param, e, it[..k], feature, forward).best
  }

  /** Whether it gives up or not, it has found the best cut. */
  lemma PassedIsBest(s: Sums, param: Param, it: seq<Entry>, best: SplitEntry, r: SplitEntry, feature: nat,
                     forward: bool)
    requires Known(s, it) && Regular(s, param, it) && Passed(s, param, it, best, r, feature, forward)
    ensures Among(best, r, s, param, it, |it|, feature, forward)
  {
    hide Among, Scanned, SumOf;
    var e := ThreadEntry(0.0, 0.0, 0.0, best);
    var all := Scan(s, param, e, it, feature, forward);
    if r == Last(s, param, all, feature, forward).best {
      ScanIsScanned(e, s, param, it, feature, forward);
      LastIsBest(best, all, s, param, it, feature, forward);
    } else {
      var k: nat :| Stops(s, param, it, k, best, feature, forward)
        && r == Scan(s, param, e, it[..k], feature, forward).best;
      ScanIsScanned(e, s, param, it[..k], feature, forward);
      RegularIsNonNegative(s, param, it);
      NothingFollows(best, Scan(s, param, e, it[..k], feature, forward), s, param, it, k, feature, forward);
    }
  }

  /** No pass loses anything, or names another feature. */
  lemma {:induction false} ScanKeeps(s: Sums, param: Param, e: ThreadEntry, it: seq<Entry>, feature: nat, forward: bool)
    requires Known(s, it)
    ensures var r := Scan(s, param, e, it, feature, forward).best;
      r.lossChg >= e.best.lossChg && (r == e.best || r.feature == feature)
  {
    if it != [] { ScanKeeps(s, param, e, it[..|it| - 1], feature, forward); }
  }

  lemma PassedKeeps(s: Sums, param: Param, it: seq<Entry>, best: SplitEntry, r: SplitEntry, feature: nat, forward: bool)
    requires Known(s, it) && Passed(s, param, it, best, r, feature, forward)
    ensures r.lossChg >= best.lossChg && (r == best || r.feature == feature)
  {
    var e := ThreadEntry(0.0, 0.0, 0.0, best);
    ScanKeeps(s, param, e, it, feature, forward);
    if r != Last(s, param, Scan(s, param, e, it, feature, forward), feature, forward).best {
      var k: nat :| Stops(s, param, it, k, best, feature, forward)
        && r == Scan(s, param, e, it[..k], feature, forward).best;
      ScanKeeps(s, param, e, it[..k], feature, forward);
    }
  }

  /** Once what is left is too light, it stays so, and no further cut is heavy enough. */
  lemma NothingFollows(was: SplitEntry, e: ThreadEntry, s: Sums, param: Param, it: seq<Entry>, k: nat, feature: nat,
                       forward: bool)
    requires 0 < k <= |it| && Scanned(was, e, s, param, it[..k], feature, forward) && NonNegative(s.hess, it)
    requires s.rsumHess - e.sumHess < param.minChildWeight
    ensures Among(was, e.best, s, param, it, |it|, feature, forward)
  {
    hide SumOf, CutValue, NonNegative;
    AmongStays(was, e.best, s, param, it, k, feature, forward);
    SumFirst(s.hess, it, k, k);
    forall i: nat | k <= i <= |it| ensures !ScanCut(s, param, it, i) { SumGrows(s.hess, it, 0, k, i); }
  }

  // ----- the cuts of the sorted column -----

  /** The best of the cuts that leave small values on the right is known, and e is one of them or what was known. */
  lemma ForwardBest(was: SplitEntry, e: SplitEntry, s: Sums, param: Param, col: seq<Entry>, feature: nat)
    requires SortedByValue(col) && NonNegative(s.hess, col) && param.forward
    requires Among(was, e, s, param, col, |col|, feature, true)
    ensures e == was || (e.feature == feature && Parted(e.defaultLeft, e.cond, e.lossChg, s, param, col))
    ensures NoBetterPrefix(e.lossChg, s, param, col, |col|)
    ensures forall k: nat :: CutAt(false, k, e.lossChg, s, param, col) ==> e.feature <= feature
  {
    hide SumOf, NonNegative, CutGain, HeavyEnough, Parted;
    forall i: nat | 0 < i <= |col| && HeavyEnough(s, param, col, 0, i)
      ensures ScanCut(s, param, col, i) <==> Gap(col, i)
      ensures ReachedUp(s, param, col, i)
    {
      HeavyIsReached(s, param, col, i);
    }
    if e != was {
      var i: nat :| i <= |col| && ScanCut(s, param, col, i) && e == CutEntry(s, param, col, i, feature, true);
      CutParts(s, param, col, i, feature);
    }
  }

  lemma CutParts(s: Sums, param: Param, col: seq<Entry>, i: nat, feature: nat)
    requires SortedByValue(col) && param.forward && ScanCut(s, param, col, i) && ReachedUp(s, param, col, i)
    ensures var e := CutEntry(s, param, col, i, feature, true);
      Parted(e.defaultLeft, e.cond, e.lossChg, s, param, col)
  {
    hide SumOf, HeavyEnough, ReachedUp;
    assert CutAt(false, i, CutGain(s, param, col, 0, i), s, param, col);
  }

  lemma {:induction false} ReverseAt<T>(s: seq<T>, i: nat)
    ensures |Reverse(s)| == |s| && (i < |s| ==> Reverse(s)[i] == s[|s| - 1 - i])
  {
    if s != [] { ReverseAt(s[1..], i); }
  }

  lemma {:induction false} SumReversed(v: seq<real>, col: seq<Entry>, i: nat)
    requires i <= |col| && forall k :: 0 <= k < |col| ==> col[k].feature < |v|
    ensures |Reverse(col)| == |col| && SumOf(v, Reverse(col), 0, i) == SumOf(v, col, |col| - i, |col|)
  {
    ReverseAt(col, if i == 0 then 0 else i - 1);
    if i != 0 {
      SumReversed(v, col, i - 1);
      SumFront(v, col, |col| - i, |col|);
    }
  }

  /** A cut met from the other end is the one of the sorted column. */
  lemma CutReversed(s: Sums, param: Param, col: seq<Entry>, i: nat)
    requires SortedByValue(col) && Known(s, col) && 0 < i <= |col|
    ensures |Reverse(col)| == |col|
    ensures ScanCut(s, param, Reverse(col), i) <==> Gap(col, |col| - i) && HeavyEnough(s, param, col, |col| - i, |col|)
    ensures CutGain(s, param, Reverse(col), 0, i) == CutGain(s, param, col, |col| - i, |col|)
    ensures CutValue(Reverse(col), i, false)
      == if i < |col| then 0.5 * (col[|col| - i - 1].value + col[|col| - i].value) else col[0].value - RT_EPS
  {
    hide SumOf;
    ReverseAt(col, i);
    ReverseAt(col, i - 1);
    SumReversed(s.grad, col, i);
    SumReversed(s.hess, col, i);
  }

  lemma BackwardBest(was: SplitEntry, e: SplitEntry, s: Sums, param: Param, col: seq<Entry>, feature: nat)
    requires SortedByValue(col) && NonNegative(s.hess, col) && Known(s, col) && param.backward
    requires Among(was, e, s, param, Reverse(col), |col|, feature, false)
    ensures e == was || (e.feature == feature && Parted(e.defaultLeft, e.cond, e.lossChg, s, param, col))
    ensures NoBetterSuffix(e.lossChg, s, param, col, 0)
    ensures forall k: nat :: CutAt(true, k, e.lossChg, s, param, col) ==> e.feature <= feature
  {
    hide SumOf, NonNegative, CutGain, HeavyEnough, Parted, Gap, SortedByValue, Known, Reverse, CutValue;
    forall k: nat | k < |col| && HeavyEnough(s, param, col, k, |col|) && Gap(col, k)
      ensures CutGain(s, param, col, k, |col|) <= e.lossChg
      ensures CutGain(s, param, col, k, |col|) == e.lossChg ==> e.feature <= feature
    {
      CutReversed(s, param, col, |col| - k);
    }
    if e != was {
      var i: nat :| i <= |col| && ScanCut(s, param, Reverse(col), i)
        && e == CutEntry(s, param, Reverse(col), i, feature, false);
      CutReversed(s, param, col, i);
      HeavyIsReached(s, param, col, |col| - i);
      CutPartsDown(s, param, col, i, e);
    }
  }

  lemma CutPartsDown(s: Sums, param: Param, col: seq<Entry>, i: nat, e: SplitEntry)
    requires SortedByValue(col) && param.backward && 0 < i <= |col| && Gap(col, |col| - i)
    requires HeavyEnough(s, param, col, |col| - i, |col|) && ReachedDown(s, param, col, |col| - i)
    requires e.lossChg == CutGain(s, param, col, |col| - i, |col|) && e.defaultLeft
    requires e.cond
      == if i < |col| then 0.5 * (col[|col| - i - 1].value + col[|col| - i].value) else col[0].value - RT_EPS
    ensures Parted(e.defaultLeft, e.cond, e.lossChg, s, param, col)
  {
    hide SumOf, HeavyEnough, ReachedDown, CutGain;
    assert CutAt(true, |col| - i, e.lossChg, s, param, col);
  }

  /** What both passes over a column have found: the best of its cuts, or what was known. */
  ghost predicate ColumnSearched(was: SplitEntry, e: SplitEntry, s: Sums, param: Param, col: seq<Entry>, feature: nat) {
    && was.lossChg <= e.lossChg && NoBetter(e.lossChg, s, param, col)
    && (e.lossChg == was.lossChg ==> e.feature <= was.feature) && NoTie(e.lossChg, e.feature, s, param, col, feature)
    && (e == was || (e.feature == feature && Parted(e.defaultLeft, e.cond, e.lossChg, s, param, col)))
  }

  lemma BothPasses(was: SplitEntry, mid: SplitEntry, e: SplitEntry, s: Sums, param: Param, col: seq<Entry>,
                   feature: nat)
    requires SortedByValue(col) && Known(s, col) && Regular(s, param, col)
    requires if param.forward then Among(was, mid, s, param, col, |col|, feature, true) else mid == was
    requires if param.backward then Among(mid, e, s, param, Reverse(col), |col|, feature, false) else e == mid
    ensures ColumnSearched(was, e, s, param, col, feature)
  {
    hide SumOf, Regular, NonNegative, Parted, NoBetterPrefix, NoBetterSuffix, SortedByValue, Known, ScanCut;
    RegularIsNonNegative(s, param, col);
    if param.forward { ForwardBest(was, mid, s, param, col, feature); }
    if param.backward { BackwardBest(mid, e, s, param, col, feature); }
    NoBetterMonotone(mid.lossChg, e.lossChg, s, param, col);
    forall left: bool, k: nat | CutAt(left, k, e.lossChg, s, param, col) ensures e.feature <= feature {
      if !left {
        UpwardCut(k, e.lossChg, mid.lossChg, s, param, col);
        assert CutAt(false, k, mid.lossChg, s, param, col);
      }
    }
  }

  lemma UpwardCut(k: nat, loss: real, bound: real, s: Sums, param: Param, col: seq<Entry>)
    requires CutAt(false, k, loss, s, param, col) && NoBetterPrefix(bound, s, param, col, |col|)
    ensures loss <= bound && param.forward
  {
  }

  /** Row i of the order in which the column is met is one of the column. */
  lemma ReversedKnown(s: Sums, param: Param, col: seq<Entry>)
    requires Known(s, col)
    ensures |Reverse(col)| == |col| && Known(s, Reverse(col))
    ensures Regular(s, param, col) ==> Regular(s, param, Reverse(col))
  {
    ReverseAt(col, 0);
    forall k: nat | k < |col| ensures Reverse(col)[k] == col[|col| - 1 - k] { ReverseAt(col, k); }
  }

  /** A complete pass loses nothing, and names no other feature. */
  lemma PassKeeps(s: Sums, param: Param, e: ThreadEntry, it: seq<Entry>, feature: nat, forward: bool)
    requires Known(s, it)
    ensures var r := Last(s, param, Scan(s, param, e, it, feature, forward), feature, forward).best;
      r.lossChg >= e.best.lossChg && (r == e.best || r.feature == feature)
  {
    ScanKeeps(s, param, e, it, feature, forward);
  }

  /** Two complete passes of the column maker find the best of all cuts. */
  lemma PassesFind(s: Sums, param: Param, col: seq<Entry>, was: ThreadEntry, mid: ThreadEntry, now: ThreadEntry,
                   feature: nat)
    requires SortedByValue(col) && Known(s, col) && Regular(s, param, col)
    requires |Reverse(col)| == |col| && Known(s, Reverse(col))
    requires if param.forward then mid == Last(s, param, Scan(s, param, was, col, feature, true), feature, true)
      else mid == was
    requires if param.backward
      then now == Last(s, param, Scan(s, param, mid, Reverse(col), feature, false), feature, false)
      else now == mid
    ensures ColumnSearched(was.best, now.best, s, param, col, feature)
  {
    hide Scan, Last, Among, Scanned, ColumnSearched, Reverse, SortedByValue, Known, Regular;
    ReversedKnown(s, param, col);
    if param.forward {
      ScanIsScanned(was, s, param, col, feature, true);
      LastIsBest(was.best, Scan(s, param, was, col, feature, true), s, param, col, feature, true);
    }
    if param.backward {
      ScanIsScanned(mid, s, param, Reverse(col), feature, false);
      LastIsBest(mid.best, Scan(s, param, mid, Reverse(col), feature, false), s, param, Reverse(col), feature, false);
    }
    BothPasses(was.best, mid.best, now.best, s, param, col, feature);
  }

  // ----- rows without a hessian -----

  /** As long as the hessians met add up to zero, each entry replaces those before it: so many are dropped. */
  function Dropped(s: Sums, it: seq<Entry>): nat {
    if |it| <= 1 then 0
    else if SumOf(s.hess, it, 0, |it| - 1) == 0.0 then |it| - 1
    else Dropped(s, it[..|it| - 1])
  }

  /** The gradients recorded are those of the entries met, exactly when the dropped ones add up to zero. */
  lemma GradientsMet(s: Sums, param: Param, e: ThreadEntry, it: seq<Entry>, feature: nat,
                     forward: bool)
    requires Known(s, it)
    ensures Dropped(s, it) <= |it|
    ensures var r := Scan(s, param, e, it, feature, forward);
      && r.sumHess == SumOf(s.hess, it, 0, |it|)
      && (r.sumGrad == SumOf(s.grad, it, 0, |it|) <==> SumOf(s.grad, it, 0, Dropped(s, it)) == 0.0)
  {
    GradientsDropped(s, param, e, it, feature, forward);
  }

  lemma {:induction false} GradientsDropped(s: Sums, param: Param, e: ThreadEntry, it: seq<Entry>, feature: nat,
                                            forward: bool)
    requires Known(s, it)
    ensures Dropped(s, it) <= |it|
    ensures var r := Scan(s, param, e, it, feature, forward);
      && r.sumHess == SumOf(s.hess, it, 0, |it|)
      && r.sumGrad == SumOf(s.grad, it, 0, |it|) - SumOf(s.grad, it, 0, Dropped(s, it))
  {
    if it != [] {
      var n := |it| - 1;
      GradientsDropped(s, param, e, it[..n], feature, forward);
      SumFirst(s.grad, it, n, n);
      SumFirst(s.hess, it, n, n);
      SumFirst(s.grad, it, n, Dropped(s, it[..n]));
    }
  }

  /** A first row without a hessian, whose gradient is dropped, hides a cut that gains 50. */
  lemma CutMissed() returns (s: Sums, param: Param, it: seq<Entry>)
    ensures Known(s, it) && SortedByValue(it) && ScanCut(s, param, it, 2) && CutGain(s, param, it, 0, 2) == 50.0
    ensures var e := ThreadEntry(0.0, 0.0, 0.0, NoEntry);
      Last(s, param, Scan(s, param, e, it, 0, true), 0, true).best == NoEntry
  {
    s := Sums([5.0, 0.0, -5.0], [0.0, 1.0, 1.0], 0.0, 2.0, 0.0, 0.0);
    param := Param((g: real, h: real, weight: real) => g * g, 1.0, true, false);
    it := [Entry(0, 1.0), Entry(1, 2.0), Entry(2, 3.0)];
    var e := ThreadEntry(0.0, 0.0, 0.0, NoEntry);
    assert it[..0] == [] && it[..1][..0] == [] && it[..2][..1] == it[..1] && it[..3] == it && it[..2] == it[..3][..2];
    assert Scan(s, param, e, it[..1], 0, true) == ThreadEntry(5.0, 0.0, 1.0, NoEntry);
    assert Scan(s, param, e, it[..2], 0, true) == ThreadEntry(0.0, 1.0, 2.0, NoEntry);
    assert Scan(s, param, e, it, 0, true) == ThreadEntry(-5.0, 2.0, 3.0, NoEntry);
    assert SumOf(s.grad, it, 0, 1) == 5.0 && SumOf(s.grad, it, 0, 2) == 5.0;
    assert SumOf(s.hess, it, 0, 1) == 0.0 && SumOf(s.hess, it, 0, 2) == 1.0;
  }
}
