/** The split search of xgboost_svdf_tree.hpp over the sorted entries of one feature. */
module SvdfSplits {
  import opened SplitCuts
  import opened TreeGrowth
  import opened TreeWalk

  /** RTSelecter::Entry: the entries [start, start + len) leave the default branch. */
  datatype Candidate = Candidate(lossChg: real, start: nat, len: nat, feature: nat, splitValue: real, defaultLeft: bool)

  /** RTSelecter before anything is pushed. */
  const NoSplit: Candidate := Candidate(0.0, 0, 0, 0, 0.0, false)

  /** RTSelecter::push_back */
  function Better(best: Candidate, e: Candidate): Candidate {
    if e.lossChg > best.lossChg then e else best
  }

  /** The entries of the interval are exactly those of [lo, hi) that GetNext sends to the child that is
      not the default one. */
  predicate GoodSplit(c: Candidate, entry: seq<Entry>, lo: nat, hi: nat) {
    && lo <= c.start && 1 <= c.len && c.start + c.len <= hi <= |entry|
    && forall j :: lo <= j < hi ==>
      (c.start <= j < c.start + c.len <==> (entry[j].value < c.splitValue) != c.defaultLeft)
  }

  predicate Sorted(entry: seq<Entry>, lo: nat, hi: nat) {
    hi <= |entry| && forall i, j :: lo <= i < j < hi ==> entry[i].value <= entry[j].value
  }

  /** What a search over [lo, hi) may answer: nothing, or a good split of the feature. */
  predicate Found(c: Candidate, entry: seq<Entry>, lo: nat, hi: nat, feature: nat) {
    c == NoSplit || (c.lossChg > 0.0 && c.feature == feature && GoodSplit(c, entry, lo, hi))
  }

  /** Where the interval of a candidate is cut off its column, which starts at lo. */
  function CutOf(c: Candidate, lo: nat): nat {
    if c.start < lo then 0 else if c.defaultLeft then c.start - lo else c.start + c.len - lo
  }

  /** The candidate is a cut of the column, with its gain and its threshold. */
  predicate Attained(c: Candidate, s: Sums, param: Param, entry: seq<Entry>, lo: nat, hi: nat) {
    && lo <= c.start && c.start + c.len <= hi <= |entry|
    && (if c.defaultLeft then c.start + c.len == hi else c.start == lo)
    && CutAt(c.defaultLeft, CutOf(c, lo), c.lossChg, s, param, entry[lo..hi])
    && Halfway(c.splitValue, entry[lo..hi], CutOf(c, lo))
  }

  /** What a search needs: sorted entries of known rows. */
  predicate Searchable(s: Sums, entry: seq<Entry>, lo: nat, hi: nat) {
    lo < hi <= |entry| && Sorted(entry, lo, hi) && |s.grad| == |s.hess|
      && forall j :: lo <= j < hi ==> entry[j].feature < |s.grad|
  }

  /** An admissible cut, or nothing, after entry j of the interval. */
  predicate After(entry: seq<Entry>, lo: nat, hi: nat, j: nat) {
    lo <= j < hi <= |entry| && (j == hi - 1 || entry[j].value + 2.0 * RT_EPS < entry[j + 1].value)
  }

  predicate Before(entry: seq<Entry>, lo: nat, hi: nat, j: nat) {
    lo <= j < hi <= |entry| && (j == lo || entry[j - 1].value + 2.0 * RT_EPS < entry[j].value)
  }

  lemma ForwardFound(entry: seq<Entry>, lo: nat, hi: nat, j: nat, feature: nat, lossChg: real, value: real,
                     best: Candidate)
    requires Sorted(entry, lo, hi) && After(entry, lo, hi, j) && Found(best, entry, lo, hi, feature)
    requires value == if j == hi - 1 then entry[j].value + RT_EPS else 0.5 * (entry[j].value + entry[j + 1].value)
    ensures Found(Better(best, Candidate(lossChg, lo, j + 1 - lo, feature, value, false)), entry, lo, hi, feature)
  {
  }

  lemma BackwardFound(entry: seq<Entry>, lo: nat, hi: nat, j: nat, feature: nat, lossChg: real, value: real,
                      best: Candidate)
    requires Sorted(entry, lo, hi) && Before(entry, lo, hi, j) && Found(best, entry, lo, hi, feature)
    requires value == if j == lo then entry[j].value - RT_EPS else 0.5 * (entry[j - 1].value + entry[j].value)
    ensures Found(Better(best, Candidate(lossChg, j, hi - j, feature, value, true)), entry, lo, hi, feature)
  {
  }

  lemma SumsNext(s: Sums, entry: seq<Entry>, lo: nat, hi: nat, j: nat)
    requires Searchable(s, entry, lo, hi) && lo <= j < hi
    ensures var col, f := entry[lo..hi], entry[j].feature;
      && f < |s.grad| && f < |s.hess|
      && SumOf(s.grad, col, 0, j + 1 - lo) == SumOf(s.grad, col, 0, j - lo) + s.grad[f]
      && SumOf(s.hess, col, 0, j + 1 - lo) == SumOf(s.hess, col, 0, j - lo) + s.hess[f]
      && SumOf(s.grad, col, j - lo, |col|) == s.grad[f] + SumOf(s.grad, col, j + 1 - lo, |col|)
      && SumOf(s.hess, col, j - lo, |col|) == s.hess[f] + SumOf(s.hess, col, j + 1 - lo, |col|)
    ensures Gap(entry[lo..hi], j + 1 - lo) <==> After(entry, lo, hi, j)
    ensures Gap(entry[lo..hi], j - lo) <==> Before(entry, lo, hi, j)
  {
    var col := entry[lo..hi];
    assert col[j - lo] == entry[j] && (j < hi - 1 ==> col[j + 1 - lo] == entry[j + 1])
      && (lo < j ==> col[j - 1 - lo] == entry[j - 1]);
    SumFront(s.grad, col, j - lo, |col|);
    SumFront(s.hess, col, j - lo, |col|);
  }

  /** From small values to big ones, default right. */
  method SearchForward(slocal: Candidate, s: Sums, entry: seq<Entry>, lo: nat, hi: nat, feature: nat, param: Param)
    returns (best: Candidate)
    requires Searchable(s, entry, lo, hi) && Found(slocal, entry, lo, hi, feature) && param.forward
    requires slocal == NoSplit || Attained(slocal, s, param, entry, lo, hi)
    ensures Found(best, entry, lo, hi, feature) && best.lossChg >= slocal.lossChg
    ensures best == NoSplit || Attained(best, s, param, entry, lo, hi)
    ensures NoBetterPrefix(best.lossChg, s, param, entry[lo..hi], hi - lo)
  {
    hide SumOf, Found, NoBetterPrefix, ReachedUp, Gap, Sorted;
    best := slocal;
    ghost var col := entry[lo..hi];
    var csumGrad, csumHess := 0.0, 0.0;
    NoPrefix(best.lossChg, s, param, col);
    for j := lo to hi
      invariant Found(best, entry, lo, hi, feature) && best.lossChg >= slocal.lossChg
      invariant csumGrad == SumOf(s.grad, col, 0, j - lo) && csumHess == SumOf(s.hess, col, 0, j - lo)
      invariant NoBetterPrefix(best.lossChg, s, param, col, j - lo)
      invariant best == NoSplit || Attained(best, s, param, entry, lo, hi)
      invariant j < hi ==> ReachedUp(s, param, col, j + 1 - lo)
    {
      SumsNext(s, entry, lo, hi, j);
      ghost var loss := best.lossChg;
      csumGrad := csumGrad + s.grad[entry[j].feature];
      csumHess := csumHess + s.hess[entry[j].feature];
      if j == hi - 1 || entry[j].value + 2.0 * RT_EPS < entry[j + 1].value {
        var dsumHess := s.rsumHess - csumHess;
        if csumHess >= param.minChildWeight {
          if dsumHess < param.minChildWeight {
            RestOfPrefixes(best.lossChg, s, param, col, j - lo);
            break;
          }
          var lossChg := param.gain(csumGrad, csumHess, s.weight)
            + param.gain(s.rsumGrad - csumGrad, dsumHess, s.weight) - s.rootGain;
          var value := if j == hi - 1 then entry[j].value + RT_EPS else 0.5 * (entry[j].value + entry[j + 1].value);
          ForwardFound(entry, lo, hi, j, feature, lossChg, value, best);
          best := Better(best, Candidate(lossChg, lo, j + 1 - lo, feature, value, false));
        }
      }
      StillUp(s, param, col, j - lo);
      NextPrefix(loss, best.lossChg, s, param, col, j - lo);
    }
  }

  /** From big values to small ones, default left. */
  method SearchBackward(slocal: Candidate, s: Sums, entry: seq<Entry>, lo: nat, hi: nat, feature: nat, param: Param)
    returns (best: Candidate)
    requires Searchable(s, entry, lo, hi) && Found(slocal, entry, lo, hi, feature) && param.backward
    requires slocal == NoSplit || Attained(slocal, s, param, entry, lo, hi)
    ensures Found(best, entry, lo, hi, feature) && best.lossChg >= slocal.lossChg
    ensures best == NoSplit || Attained(best, s, param, entry, lo, hi)
    ensures NoBetterSuffix(best.lossChg, s, param, entry[lo..hi], 0)
  {
    hide SumOf, Found, NoBetterSuffix, ReachedDown, Gap, Sorted;
    best := slocal;
    ghost var col := entry[lo..hi];
    var csumGrad, csumHess := 0.0, 0.0;
    NoPrefix(best.lossChg, s, param, col);
    for j := hi downto lo
      invariant Found(best, entry, lo, hi, feature) && best.lossChg >= slocal.lossChg
      invariant csumGrad == SumOf(s.grad, col, j - lo, |col|) && csumHess == SumOf(s.hess, col, j - lo, |col|)
      invariant NoBetterSuffix(best.lossChg, s, param, col, j - lo)
      invariant best == NoSplit || Attained(best, s, param, entry, lo, hi)
      invariant lo < j ==> ReachedDown(s, param, col, j - 1 - lo)
    {
      SumsNext(s, entry, lo, hi, j);
      ghost var loss := best.lossChg;
      csumGrad := csumGrad + s.grad[entry[j].feature];
      csumHess := csumHess + s.hess[entry[j].feature];
      if j == lo || entry[j - 1].value + 2.0 * RT_EPS < entry[j].value {
        var dsumHess := s.rsumHess - csumHess;
        if csumHess >= param.minChildWeight {
          if dsumHess < param.minChildWeight {
            RestOfSuffixes(best.lossChg, s, param, col, j - lo);
            break;
          }
          var lossChg := param.gain(csumGrad, csumHess, s.weight)
            + param.gain(s.rsumGrad - csumGrad, dsumHess, s.weight) - s.rootGain;
          var value := if j == lo then entry[j].value - RT_EPS else 0.5 * (entry[j - 1].value + entry[j].value);
          BackwardFound(entry, lo, hi, j, feature, lossChg, value, best);
          best := Better(best, Candidate(lossChg, j, hi - j, feature, value, true));
        }
      }
      StillDown(s, param, col, j - lo);
      NextSuffix(loss, best.lossChg, s, param, col, j - lo);
    }
  }

  /** enumerate_split: the best of both searches competes with the best of the other features. */
  method EnumerateSplit(sglobal: Candidate, s: Sums, entry: seq<Entry>, lo: nat, hi: nat, feature: nat, param: Param)
    returns (best: Candidate)
    requires Searchable(s, entry, lo, hi) && sglobal.lossChg >= 0.0
    ensures best == sglobal || (best.lossChg > sglobal.lossChg && best.feature == feature
      && GoodSplit(best, entry, lo, hi) && Attained(best, s, param, entry, lo, hi))
    ensures NoBetter(best.lossChg, s, param, entry[lo..hi])
  {
    hide NoBetterPrefix, NoBetterSuffix, GoodSplit, Attained;
    var slocal := NoSplit;
    if param.forward {
      slocal := SearchForward(slocal, s, entry, lo, hi, feature, param);
    }
    ghost var first := slocal.lossChg;
    if param.backward {
      slocal := SearchBackward(slocal, s, entry, lo, hi, feature, param);
    }
    best := Better(sglobal, slocal);
    NoBetterMonotone(first, best.lossChg, s, param, entry[lo..hi]);
    NoBetterMonotone(slocal.lossChg, best.lossChg, s, param, entry[lo..hi]);
  }
}
