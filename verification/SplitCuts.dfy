/** The cuts that a split search may make in the sorted column of a feature, and their gains. An entry of a column
    holds the index of its row where an entry of a row holds the feature. */
module SplitCuts {
  import opened TreeGrowth
  import opened TreeWalk

  /** The training parameters the search needs; gain stands for CalcGain of a sum of gradients, a sum of hessians and
      the weight of the node that is split. */
  datatype Param = Param(gain: (real, real, real) -> real, minChildWeight: real, forward: bool, backward: bool)

  /** Gradients and hessians of all rows, their sums over the rows of the node, its own gain and its weight. */
  datatype Sums = Sums(grad: seq<real>, hess: seq<real>, rsumGrad: real, rsumHess: real, rootGain: real, weight: real)

  // ----- the gain of every admissible cut -----

  /** The sum of v over the rows of col[from..to]. */
  function SumOf(v: seq<real>, col: seq<Entry>, from: nat, to: nat): real
    requires to <= |col|
  {
    if to <= from then 0.0
    else SumOf(v, col, from, to - 1) + if col[to - 1].feature < |v| then v[col[to - 1].feature] else 0.0
  }

  lemma {:induction false} SumFront(v: seq<real>, col: seq<Entry>, from: nat, to: nat)
    requires from < to <= |col| && col[from].feature < |v|
    ensures SumOf(v, col, from, to) == v[col[from].feature] + SumOf(v, col, from + 1, to)
  {
    if from + 1 < to { SumFront(v, col, from, to - 1); }
  }

  /** No row of the column has a negative value. */
  predicate NonNegative(v: seq<real>, col: seq<Entry>) {
    forall k :: 0 <= k < |col| && col[k].feature < |v| ==> v[col[k].feature] >= 0.0
  }

  lemma {:induction false} SumGrows(v: seq<real>, col: seq<Entry>, from: nat, mid: nat, to: nat)
    requires NonNegative(v, col) && from <= mid <= to <= |col|
    ensures SumOf(v, col, mid, to) >= 0.0
    ensures SumOf(v, col, from, mid) <= SumOf(v, col, from, to)
    ensures SumOf(v, col, mid, to) <= SumOf(v, col, from, to)
  {
    if mid < to { SumGrows(v, col, from, mid, to - 1); }
      else if from < mid { SumGrows(v, col, from, mid - 1, mid - 1); NoSum(v, col, from, mid); }
  }

  lemma {:induction false} NoSum(v: seq<real>, col: seq<Entry>, from: nat, to: nat)
    requires NonNegative(v, col) && from <= to <= |col|
    ensures SumOf(v, col, from, to) >= 0.0 && SumOf(v, col, to, to) == 0.0
  {
    if from < to { NoSum(v, col, from, to - 1); }
  }

  /** The gain of taking the entries [from, to) of a column off the default branch. */
  function CutGain(s: Sums, param: Param, col: seq<Entry>, from: nat, to: nat): real
    requires to <= |col|
  {
    var g, h := SumOf(s.grad, col, from, to), SumOf(s.hess, col, from, to);
    param.gain(g, h, s.weight) + param.gain(s.rsumGrad - g, s.rsumHess - h, s.weight) - s.rootGain
  }

  /** Both children would be heavy enough. */
  predicate HeavyEnough(s: Sums, param: Param, col: seq<Entry>, from: nat, to: nat)
    requires to <= |col|
  {
    SumOf(s.hess, col, from, to) >= param.minChildWeight
      && s.rsumHess - SumOf(s.hess, col, from, to) >= param.minChildWeight
  }

  /** The column may be cut before k. */
  predicate Gap(col: seq<Entry>, k: nat) { 0 < k < |col| ==> col[k - 1].value + 2.0 * RT_EPS < col[k].value }

  /** The search gives up at a cut whose one side is heavy enough and the other is not. */
  predicate GivesUp(s: Sums, param: Param, col: seq<Entry>, k: nat, from: nat, to: nat)
    requires to <= |col|
  {
    && Gap(col, k) && SumOf(s.hess, col, from, to) >= param.minChildWeight
    && s.rsumHess - SumOf(s.hess, col, from, to) < param.minChildWeight
  }

  /** The cut before k is looked at, from small values on. */
  predicate ReachedUp(s: Sums, param: Param, col: seq<Entry>, k: nat)
    requires k <= |col|
  {
    forall i :: 0 < i < k ==> !GivesUp(s, param, col, i, 0, i)
  }

  /** The cut before k is looked at, from big values on. */
  predicate ReachedDown(s: Sums, param: Param, col: seq<Entry>, k: nat)
    requires k <= |col|
  {
    forall i :: k < i < |col| ==> !GivesUp(s, param, col, i, i, |col|)
  }

  /** No cut of the first `upto` that sends small values off the default branch gains more than loss. */
  ghost predicate NoBetterPrefix(loss: real, s: Sums, param: Param, col: seq<Entry>, upto: nat) {
    forall k :: 0 < k <= upto <= |col| && Gap(col, k) && ReachedUp(s, param, col, k) ==>
      HeavyEnough(s, param, col, 0, k) ==> CutGain(s, param, col, 0, k) <= loss
  }

  /** No cut from `down` on that sends big values off the default branch gains more than loss. */
  ghost predicate NoBetterSuffix(loss: real, s: Sums, param: Param, col: seq<Entry>, down: nat) {
    forall k :: down <= k < |col| && Gap(col, k) && ReachedDown(s, param, col, k) ==>
      HeavyEnough(s, param, col, k, |col|) ==> CutGain(s, param, col, k, |col|) <= loss
  }

  /** No admissible cut of the column that is reached, in the directions that are searched, gains more than loss. */
  ghost predicate NoBetter(loss: real, s: Sums, param: Param, col: seq<Entry>) {
    && (param.forward ==> NoBetterPrefix(loss, s, param, col, |col|))
    && (param.backward ==> NoBetterSuffix(loss, s, param, col, 0))
  }

  /** One of the cuts that are looked at: small values leave the default branch to the right, or big ones to the
      left. Its gain is loss. */
  predicate CutAt(left: bool, k: nat, loss: real, s: Sums, param: Param, col: seq<Entry>) {
    k <= |col| && Gap(col, k)
    && if left then
        && param.backward && k < |col| && ReachedDown(s, param, col, k) && HeavyEnough(s, param, col, k, |col|)
        && loss == CutGain(s, param, col, k, |col|)
      else
        && param.forward && 0 < k && ReachedUp(s, param, col, k) && HeavyEnough(s, param, col, 0, k)
        && loss == CutGain(s, param, col, 0, k)
  }

  /** The threshold of a cut before k: half way between both neighbours, or 1e-5 beyond the last value. */
  predicate Halfway(cond: real, col: seq<Entry>, k: nat) {
    && (0 < k < |col| ==> cond - col[k - 1].value == col[k].value - cond)
    && (0 < k == |col| ==> cond == col[k - 1].value + 0.00001)
    && (0 == k < |col| ==> cond == col[k].value - 0.00001)
  }

  /** The threshold parts the column at a cut that is looked at, whose gain is loss. */
  ghost predicate Parted(left: bool, cond: real, loss: real, s: Sums, param: Param, col: seq<Entry>) {
    exists k: nat :: CutAt(left, k, loss, s, param, col) && Halfway(cond, col, k)
      && forall j :: 0 <= j < |col| ==> (j < k <==> col[j].value < cond)
  }

  /** With equal gains the lower feature has won. */
  ghost predicate NoTie(loss: real, e: nat, s: Sums, param: Param, col: seq<Entry>, feature: nat) {
    forall left: bool, k: nat :: CutAt(left, k, loss, s, param, col) ==> e <= feature
  }

  lemma RestOfPrefixes(loss: real, s: Sums, param: Param, col: seq<Entry>, k: nat)
    requires k < |col| && NoBetterPrefix(loss, s, param, col, k) && GivesUp(s, param, col, k + 1, 0, k + 1)
    ensures NoBetterPrefix(loss, s, param, col, |col|)
  {
  }

  lemma RestOfSuffixes(loss: real, s: Sums, param: Param, col: seq<Entry>, k: nat)
    requires k < |col| && NoBetterSuffix(loss, s, param, col, k + 1) && GivesUp(s, param, col, k, k, |col|)
    ensures NoBetterSuffix(loss, s, param, col, 0)
  {
  }

  /** No admissible cut at all gains more than loss, in the directions that are searched. */
  ghost predicate Unbeaten(loss: real, s: Sums, param: Param, col: seq<Entry>) {
    && (param.forward ==> forall k :: 0 < k <= |col| && Gap(col, k) && HeavyEnough(s, param, col, 0, k) ==>
        CutGain(s, param, col, 0, k) <= loss)
    && (param.backward ==> forall k :: 0 <= k < |col| && Gap(col, k) && HeavyEnough(s, param, col, k, |col|) ==>
        CutGain(s, param, col, k, |col|) <= loss)
  }

  /** Without negative hessians the rest stays too light once it is so, and giving up misses nothing. */
  lemma NothingMissed(loss: real, s: Sums, param: Param, col: seq<Entry>)
    requires NoBetter(loss, s, param, col) && NonNegative(s.hess, col)
    ensures Unbeaten(loss, s, param, col)
  {
    hide SumOf, NonNegative, Gap, CutGain, HeavyEnough;
    forall k | 0 < k <= |col| && HeavyEnough(s, param, col, 0, k) ensures ReachedUp(s, param, col, k) {
      HeavyIsReached(s, param, col, k);
    }
    forall k | 0 <= k < |col| && HeavyEnough(s, param, col, k, |col|) ensures ReachedDown(s, param, col, k) {
      HeavyIsReached(s, param, col, k);
    }
  }

  lemma HeavyIsReached(s: Sums, param: Param, col: seq<Entry>, k: nat)
    requires NonNegative(s.hess, col) && k <= |col|
    ensures HeavyEnough(s, param, col, 0, k) ==> ReachedUp(s, param, col, k)
    ensures HeavyEnough(s, param, col, k, |col|) ==> ReachedDown(s, param, col, k)
  {
    hide SumOf, NonNegative, Gap;
    forall i | 0 < i < k && HeavyEnough(s, param, col, 0, k) ensures !GivesUp(s, param, col, i, 0, i) {
      SumGrows(s.hess, col, 0, i, k);
    }
    forall i | k < i < |col| && HeavyEnough(s, param, col, k, |col|) ensures !GivesUp(s, param, col, i, i, |col|) {
      SumGrows(s.hess, col, k, i, |col|);
    }
  }

  lemma NextPrefix(loss: real, more: real, s: Sums, param: Param, col: seq<Entry>, k: nat)
    requires k < |col| && NoBetterPrefix(loss, s, param, col, k) && loss <= more
    requires Gap(col, k + 1) && HeavyEnough(s, param, col, 0, k + 1) && ReachedUp(s, param, col, k + 1) ==>
      CutGain(s, param, col, 0, k + 1) <= more
    ensures NoBetterPrefix(more, s, param, col, k + 1)
  {
  }

  lemma NextSuffix(loss: real, more: real, s: Sums, param: Param, col: seq<Entry>, k: nat)
    requires k < |col| && NoBetterSuffix(loss, s, param, col, k + 1) && loss <= more
    requires Gap(col, k) && HeavyEnough(s, param, col, k, |col|) && ReachedDown(s, param, col, k) ==>
      CutGain(s, param, col, k, |col|) <= more
    ensures NoBetterSuffix(more, s, param, col, k)
  {
  }

  lemma StillUp(s: Sums, param: Param, col: seq<Entry>, k: nat)
    requires k < |col| && ReachedUp(s, param, col, k + 1) && !GivesUp(s, param, col, k + 1, 0, k + 1)
    ensures k + 2 <= |col| ==> ReachedUp(s, param, col, k + 2)
  {
  }

  lemma StillDown(s: Sums, param: Param, col: seq<Entry>, k: nat)
    requires k < |col| && ReachedDown(s, param, col, k) && !GivesUp(s, param, col, k, k, |col|)
    ensures k > 0 ==> ReachedDown(s, param, col, k - 1)
  {
  }

  lemma NoPrefix(loss: real, s: Sums, param: Param, col: seq<Entry>)
    ensures NoBetterPrefix(loss, s, param, col, 0) && NoBetterSuffix(loss, s, param, col, |col|)
    ensures SumOf(s.grad, col, 0, 0) == SumOf(s.hess, col, 0, 0) == 0.0
    ensures SumOf(s.grad, col, |col|, |col|) == SumOf(s.hess, col, |col|, |col|) == 0.0
    ensures col != [] ==> ReachedUp(s, param, col, 1) && ReachedDown(s, param, col, |col| - 1)
  {
  }

  lemma NoBetterMonotone(loss: real, more: real, s: Sums, param: Param, col: seq<Entry>)
    requires loss <= more
    ensures NoBetterPrefix(loss, s, param, col, |col|) ==> NoBetterPrefix(more, s, param, col, |col|)
    ensures NoBetterSuffix(loss, s, param, col, 0) ==> NoBetterSuffix(more, s, param, col, 0)
    ensures NoBetter(loss, s, param, col) ==> NoBetter(more, s, param, col)
  {
  }
}
