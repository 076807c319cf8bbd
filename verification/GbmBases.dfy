/** The cached predictions of xgboost_gbmbase.h, and how the learner of xgboost_reg.h uses the slots. Adding
    predictions is an operation about which nothing is assumed, not even that it is associative. */
module GbmBases {
  import opened Lists

  /** The operations on predictions; minus is only used by the interactive update. */
  datatype Arithmetic<!V> = Arithmetic(zero: V, plus: (V, V) -> V, minus: (V, V) -> V)

  /** The prediction of the first n boosters for a row, added from the left. */
  function Sum<R, V>(a: Arithmetic<V>, boosters: seq<R -> V>, row: R, n: nat): V
    requires n <= |boosters|
  {
    if n == 0 then a.zero else a.plus(Sum(a, boosters, row, n - 1), boosters[n - 1](row))
  }

  /** The prediction computed from scratch */
  function Total<R, V>(a: Arithmetic<V>, boosters: seq<R -> V>, row: R): V { Sum(a, boosters, row, |boosters|) }

  /** From nothing, one booster after the other */
  lemma SumMeans<R, V>(a: Arithmetic<V>, boosters: seq<R -> V>, row: R, n: nat)
    requires n < |boosters|
    ensures Sum(a, boosters, row, 0) == a.zero && Total(a, boosters, row) == Sum(a, boosters, row, |boosters|)
    ensures Sum(a, boosters, row, n + 1) == a.plus(Sum(a, boosters, row, n), boosters[n](row))
  {
  }

  lemma {:induction false} SumKept<R, V>(a: Arithmetic<V>, boosters: seq<R -> V>, more: seq<R -> V>, row: R, n: nat)
    requires n <= |boosters| <= |more| && more[..|boosters|] == boosters
    ensures Sum(a, more, row, n) == Sum(a, boosters, row, n)
  {
    if n != 0 {
      assert more[n - 1] == more[..|boosters|][n - 1];
      SumKept(a, boosters, more, row, n - 1);
    }
  }

  /** GBMBase; a booster is its prediction function. rowOf says which row a slot of the buffer is for. */
  class GBMBase<!R(!new), !V(0)> {
    const a: Arithmetic<V>
    const doReboost: bool
    var boosters: seq<R -> V>
    var predBuffer: seq<V>
    var predCounter: seq<nat>
    ghost const rowOf: seq<R>

    constructor (a: Arithmetic<V>, doReboost: bool, numPbuffer: nat, ghost rowOf: seq<R>)
      requires |rowOf| == numPbuffer
      ensures this.a == a && this.doReboost == doReboost && this.rowOf == rowOf && boosters == [] && Valid()
    {
      this.a, this.doReboost, this.rowOf := a, doReboost, rowOf;
      boosters, predBuffer, predCounter := [], seq(numPbuffer, _ => a.zero), seq(numPbuffer, _ => 0);
    }

    /** Every slot holds the sum of as many boosters as its counter says. */
    ghost predicate Valid()
      reads this
    {
      && |predBuffer| == |predCounter| == |rowOf|
      && (!doReboost ==> forall b :: 0 <= b < |predBuffer| ==> SlotOk(b))
    }

    ghost predicate SlotOk(b: nat)
      requires b < |predBuffer| && |predBuffer| == |predCounter| == |rowOf|
      reads this
    {
      predCounter[b] <= |boosters| && predBuffer[b] == Sum(a, boosters, rowOf[b], predCounter[b])
    }

    /** Predict: the buffered result and the boosters after it, -1 for no buffer; the same as from scratch. */
    method Predict(row: R, bufferIndex: int) returns (psum: V)
      requires Valid() && bufferIndex < |predBuffer| && (bufferIndex >= 0 ==> rowOf[bufferIndex] == row)
      modifies this`predBuffer, this`predCounter
      ensures Valid() && psum == Total(a, boosters, row)
      ensures !doReboost && bufferIndex >= 0 ==>
        predBuffer[bufferIndex] == psum && predCounter[bufferIndex] == |boosters|
      ensures |predBuffer| == old(|predBuffer|)
      ensures forall b :: 0 <= b < |predBuffer| && b != bufferIndex ==>
        predBuffer[b] == old(predBuffer[b]) && predCounter[b] == old(predCounter[b])
    {
      var istart: nat := 0;
      psum := a.zero;
      if !doReboost && bufferIndex >= 0 {
        assert SlotOk(bufferIndex);
        istart := predCounter[bufferIndex];
        psum := predBuffer[bufferIndex];
      }
      for i := istart to |boosters|
        invariant psum == Sum(a, boosters, row, i)
        invariant predBuffer == old(predBuffer) && predCounter == old(predCounter)
      {
        psum := a.plus(psum, boosters[i](row));
      }
      if !doReboost && bufferIndex >= 0 {
        predCounter := predCounter[bufferIndex := |boosters|];
        predBuffer := predBuffer[bufferIndex := psum];
        forall b: nat | b < |predBuffer| ensures SlotOk(b) { assert b != bufferIndex ==> old(SlotOk(b)); }
      }
    }

    /** DoBoost: without a booster to update again, a new one, or the last one when boosters are trained
        repeatedly. trained is the booster after training. */
    method DoBoost(trained: R -> V)
      requires Valid()
      modifies this`boosters
      ensures Valid()
      ensures boosters == if !doReboost || old(boosters) == [] then old(boosters) + [trained]
        else old(boosters)[|old(boosters)| - 1 := trained]
    {
      ghost var before := boosters;
      if !doReboost || |boosters| == 0 {
        boosters := boosters + [trained];
      } else {
        boosters := boosters[|boosters| - 1 := trained];
      }
      if !doReboost {
        forall b: nat | b < |predBuffer| ensures SlotOk(b) {
          assert old(SlotOk(b));
          SumKept(a, before, boosters, rowOf[b], predCounter[b]);
        }
      }
    }

    // ----- updating booster bid again -----

    /** Slot b holds the sum without booster bid, with the counter of a complete one. */
    ghost predicate TakenOut(bid: nat, b: nat)
      requires b < |predBuffer| && |predBuffer| == |predCounter| == |rowOf| && bid < |boosters|
      reads this
    {
      predCounter[b] == |boosters| && predBuffer[b] == a.minus(Total(a, boosters, rowOf[b]), boosters[bid](rowOf[b]))
    }

    /** InteractPredict of one row */
    method InteractPredict(row: R, bufferIndex: nat, bid: nat) returns (psum: V)
      requires |predBuffer| == |predCounter| == |rowOf| && !doReboost && bid < |boosters|
      requires bufferIndex < |predBuffer| && rowOf[bufferIndex] == row && SlotOk(bufferIndex)
      modifies this`predBuffer, this`predCounter
      ensures |predBuffer| == |predCounter| == |rowOf| && TakenOut(bid, bufferIndex) && psum == predBuffer[bufferIndex]
      ensures forall b :: 0 <= b < |predBuffer| && b != bufferIndex ==>
        predBuffer[b] == old(predBuffer[b]) && predCounter[b] == old(predCounter[b])
    {
      var istart := predCounter[bufferIndex];
      psum := predBuffer[bufferIndex];
      for i := istart to |boosters|
        invariant psum == Sum(a, boosters, row, i)
        invariant predBuffer == old(predBuffer) && predCounter == old(predCounter)
      {
        psum := a.plus(psum, boosters[i](row));
      }
      predCounter := predCounter[bufferIndex := |boosters|];
      psum := a.minus(psum, boosters[bid](row));
      predBuffer := predBuffer[bufferIndex := psum];
    }

    /** InteractRePredict of one row */
    method InteractRePredict(row: R, bufferIndex: nat, bid: nat)
      requires |predBuffer| == |predCounter| == |rowOf| && !doReboost && bid < |boosters| && bufferIndex < |predBuffer|
      modifies this`predBuffer
      ensures |predBuffer| == |rowOf|
      ensures predBuffer == old(predBuffer)[bufferIndex := a.plus(old(predBuffer)[bufferIndex], boosters[bid](row))]
    {
      predBuffer := predBuffer[bufferIndex := a.plus(predBuffer[bufferIndex], boosters[bid](row))];
    }
  }

  /** Addition and subtraction of real numbers */
  ghost predicate Reals(a: Arithmetic<real>) {
    a.zero == 0.0 && forall x: real, y: real :: a.plus(x, y) == x + y && a.minus(x, y) == x - y
  }

  lemma {:induction false} SumReplaced<R>(a: Arithmetic<real>, boosters: seq<R -> real>, bid: nat, trained: R -> real,
                                          row: R, n: nat)
    requires Reals(a) && bid < |boosters| && n <= |boosters|
    ensures Sum(a, boosters[bid := trained], row, n)
      == Sum(a, boosters, row, n) + if bid < n then trained(row) - boosters[bid](row) else 0.0
  {
    if n != 0 {
      SumReplaced(a, boosters, bid, trained, row, n - 1);
      var before := Sum(a, boosters, row, n - 1);
      assert a.plus(before, boosters[n - 1](row)) == before + boosters[n - 1](row);
      var after, last := Sum(a, boosters[bid := trained], row, n - 1), boosters[bid := trained][n - 1](row);
      assert a.plus(after, last) == after + last;
    }
  }

  // ----- the learner -----

  /** The first slot of part i. */
  function Offset<R>(parts: seq<seq<R>>, i: nat): nat
    requires i <= |parts|
  {
    |Flatten(parts[..i])|
  }

  lemma {:induction false} SlotIs<R>(parts: seq<seq<R>>, i: nat)
    requires i < |parts|
    ensures Offset(parts, i + 1) == Offset(parts, i) + |parts[i]| <= |Flatten(parts)|
    ensures Flatten(parts)[Offset(parts, i)..Offset(parts, i + 1)] == parts[i]
    decreases |parts|
  {
    assert parts[..i + 1][..i] == parts[..i];
    FlattenLast(parts[..i + 1]);
    FlattenLast(parts);
    if i == |parts| - 1 {
      assert parts[..i + 1] == parts;
    } else {
      var front := parts[..|parts| - 1];
      SlotIs(front, i);
      assert front[..i] == parts[..i] && front[..i + 1] == parts[..i + 1];
      assert Flatten(parts)[Offset(parts, i)..Offset(parts, i + 1)]
        == Flatten(front)[Offset(parts, i)..Offset(parts, i + 1)];
    }
  }

  lemma {:induction false} OffsetsGrow<R>(parts: seq<seq<R>>, i: nat, j: nat)
    requires i <= j <= |parts|
    ensures Offset(parts, i) <= Offset(parts, j)
    decreases j
  {
    if i < j {
      OffsetsGrow(parts, i, j - 1);
      SlotIs(parts, j - 1);
    }
  }

  /** Different rows of the training data and the evaluation sets never share a slot. */
  lemma SlotsDistinct<R>(parts: seq<seq<R>>, i: nat, j: nat, k: nat, l: nat)
    requires i < |parts| && j < |parts[i]| && k < |parts| && l < |parts[k]|
    requires Offset(parts, i) + j == Offset(parts, k) + l
    ensures i == k && j == l
  {
    SlotIs(parts, i);
    SlotIs(parts, k);
    if i < k { OffsetsGrow(parts, i + 1, k); }
    if k < i { OffsetsGrow(parts, k + 1, i); }
  }

  /** What the learner predicts for some rows, computed from scratch. */
  function Preds<R, V>(a: Arithmetic<V>, boosters: seq<R -> V>, rows: seq<R>, transform: V -> V): (p: seq<V>)
    ensures |p| == |rows| && forall j :: 0 <= j < |p| ==> p[j] == transform(Total(a, boosters, rows[j]))
  {
    seq(|rows|, j requires 0 <= j < |rows| => transform(Total(a, boosters, rows[j])))
  }

  /** RegBoostLearner: part 0 is the training data, the others are the evaluation sets. */
  class RegBoostLearner<!R(!new), !V(0)> {
    const gbm: GBMBase<R, V>
    const parts: seq<seq<R>>
    /** PredTransform of base_score plus a prediction */
    const transform: V -> V

    /** SetData */
    constructor (a: Arithmetic<V>, parts: seq<seq<R>>, transform: V -> V)
      requires parts != []
      ensures this.parts == parts && this.transform == transform && fresh(gbm) && Valid() && gbm.a == a
        && gbm.boosters == []
    {
      this.parts, this.transform := parts, transform;
      var size := SizeOf(parts);
      gbm := new GBMBase(a, false, size, Flatten(parts));
    }

    ghost predicate Valid()
      reads gbm
    {
      gbm.Valid() && !gbm.doReboost && gbm.rowOf == Flatten(parts) && parts != []
    }

    /** PredictBuffer of part i, whose first slot is bufferOffset */
    method PredictBuffer(i: nat, bufferOffset: nat) returns (preds: seq<V>)
      requires Valid() && i < |parts| && bufferOffset == Offset(parts, i)
      modifies gbm`predBuffer, gbm`predCounter
      ensures Valid() && preds == Preds(gbm.a, gbm.boosters, parts[i], transform)
    {
      SlotIs(parts, i);
      preds := [];
      for j := 0 to |parts[i]|
        invariant Valid() && |preds| == j
        invariant forall k :: 0 <= k < j ==> preds[k] == transform(Total(gbm.a, gbm.boosters, parts[i][k]))
      {
        assert Flatten(parts)[bufferOffset..bufferOffset + |parts[i]|][j] == parts[i][j];
        var p := gbm.Predict(parts[i][j], bufferOffset + j);
        preds := preds + [transform(p)];
      }
    }

    /** UpdateOneIter: learn stands for the gradients and the training of the new booster. */
    method UpdateOneIter(learn: seq<V> -> (R -> V))
      requires Valid()
      modifies gbm
      ensures Valid()
      ensures gbm.boosters == old(gbm.boosters) + [learn(Preds(gbm.a, old(gbm.boosters), parts[0], transform))]
    {
      assert Flatten(parts[..0]) == [];
      var preds := PredictBuffer(0, 0);
      gbm.DoBoost(learn(preds));
    }

    /** EvalOneIter: the predictions of every evaluation set */
    method EvalOneIter() returns (evalPreds: seq<seq<V>>)
      requires Valid()
      modifies gbm`predBuffer, gbm`predCounter
      ensures Valid() && |evalPreds| == |parts| - 1
      ensures forall i :: 1 <= i < |parts| ==> evalPreds[i - 1] == Preds(gbm.a, gbm.boosters, parts[i], transform)
    {
      evalPreds := [];
      SlotIs(parts, 0);
      assert Flatten(parts[..0]) == [];
      var bufferOffset := |parts[0]|;
      for i := 1 to |parts|
        invariant Valid() && bufferOffset == Offset(parts, i) && |evalPreds| == i - 1
        invariant forall k :: 1 <= k < i ==> evalPreds[k - 1] == Preds(gbm.a, gbm.boosters, parts[k], transform)
      {
        var preds := PredictBuffer(i, bufferOffset);
        evalPreds := evalPreds + [preds];
        SlotIs(parts, i);
        bufferOffset := bufferOffset + |parts[i]|;
      }
    }
  }

  /** buffer_size of SetData */
  method SizeOf<R>(parts: seq<seq<R>>) returns (size: nat)
    ensures size == |Flatten(parts)|
  {
    size := 0;
    for i := 0 to |parts|
      invariant size == Offset(parts, i)
    {
      SlotIs(parts, i);
      size := size + |parts[i]|;
    }
    assert parts[..|parts|] == parts;
  }

  // ----- the interactive update, over real numbers -----

  /** Slots before `upto` are without booster bid, the others as they should be. */
  ghost predicate TakenUpTo<R(!new)>(gbm: GBMBase<R, real>, bid: nat, upto: nat)
    reads gbm
  {
    && |gbm.predBuffer| == |gbm.predCounter| == |gbm.rowOf| && bid < |gbm.boosters| && upto <= |gbm.rowOf|
    && (forall b :: 0 <= b < upto ==> gbm.TakenOut(bid, b))
    && forall b :: upto <= b < |gbm.rowOf| ==> gbm.SlotOk(b)
  }

  /** What the learner predicts for some rows without booster bid */
  function PredsWithout<R>(a: Arithmetic<real>, boosters: seq<R -> real>, bid: nat, rows: seq<R>,
                           transform: real -> real): (p: seq<real>)
    requires bid < |boosters|
    ensures |p| == |rows|
    ensures forall j :: 0 <= j < |p| ==> p[j] == transform(a.minus(Total(a, boosters, rows[j]), boosters[bid](rows[j])))
  {
    seq(|rows|, j requires 0 <= j < |rows| => transform(a.minus(Total(a, boosters, rows[j]), boosters[bid](rows[j]))))
  }

  /** InteractPredict of a part */
  method TakePart<R(!new)>(gbm: GBMBase<R, real>, rows: seq<R>, offset: nat, bid: nat, transform: real -> real)
    returns (preds: seq<real>)
    requires TakenUpTo(gbm, bid, offset) && !gbm.doReboost && offset + |rows| <= |gbm.rowOf|
    requires gbm.rowOf[offset..offset + |rows|] == rows
    modifies gbm`predBuffer, gbm`predCounter
    ensures TakenUpTo(gbm, bid, offset + |rows|)
    ensures preds == PredsWithout(gbm.a, gbm.boosters, bid, rows, transform)
  {
    preds := [];
    for j := 0 to |rows|
      invariant TakenUpTo(gbm, bid, offset + j) && |preds| == j
      invariant preds == PredsWithout(gbm.a, gbm.boosters, bid, rows, transform)[..j]
    {
      assert gbm.rowOf[offset..offset + |rows|][j] == rows[j] && gbm.SlotOk(offset + j);
      label before:
      var p := gbm.InteractPredict(rows[j], offset + j, bid);
      preds := preds + [transform(p)];
      forall b: nat | b < offset + j ensures gbm.TakenOut(bid, b) { assert old@before(gbm.TakenOut(bid, b)); }
      forall b: nat | offset + j < b < |gbm.rowOf| ensures gbm.SlotOk(b) { assert old@before(gbm.SlotOk(b)); }
    }
  }

  /** Slots before `upto` hold complete sums again, the others what they held without booster bid. */
  ghost predicate PutBackUpTo<R(!new)>(gbm: GBMBase<R, real>, before: seq<R -> real>, bid: nat, upto: nat)
    reads gbm
  {
    && |gbm.predBuffer| == |gbm.predCounter| == |gbm.rowOf| && bid < |gbm.boosters| == |before| && upto <= |gbm.rowOf|
    && (forall b :: 0 <= b < |gbm.rowOf| ==> gbm.predCounter[b] == |gbm.boosters|)
    && (forall b :: 0 <= b < upto ==> gbm.predBuffer[b] == Total(gbm.a, gbm.boosters, gbm.rowOf[b]))
    && forall b :: upto <= b < |gbm.rowOf| ==>
       gbm.predBuffer[b] == Total(gbm.a, before, gbm.rowOf[b]) - before[bid](gbm.rowOf[b])
  }

  /** InteractRePredict of a part */
  method PutBackPart<R(!new)>(gbm: GBMBase<R, real>, rows: seq<R>, offset: nat, ghost before: seq<R -> real>, bid: nat)
    requires Reals(gbm.a) && PutBackUpTo(gbm, before, bid, offset) && !gbm.doReboost && offset + |rows| <= |gbm.rowOf|
    requires gbm.boosters == before[bid := gbm.boosters[bid]] && gbm.rowOf[offset..offset + |rows|] == rows
    modifies gbm`predBuffer
    ensures PutBackUpTo(gbm, before, bid, offset + |rows|)
  {
    for j := 0 to |rows|
      invariant PutBackUpTo(gbm, before, bid, offset + j)
    {
      ghost var row := gbm.rowOf[offset + j];
      assert gbm.rowOf[offset..offset + |rows|][j] == rows[j] == row;
      SumReplaced(gbm.a, before, bid, gbm.boosters[bid], row, |before|);
      ghost var x := gbm.predBuffer[offset + j];
      assert gbm.a.plus(x, gbm.boosters[bid](row)) == x + gbm.boosters[bid](row);
      gbm.InteractRePredict(rows[j], offset + j, bid);
    }
  }

  /** UpdateInteract("update") with reupdate_booster bid: the booster is trained again on the predictions of all
      the others, and every slot ends up with the sum of all boosters, among them the one trained again. learn
      stands for the gradients of some predictions and the training of an existing booster with them. */
  method UpdateInteract<R(!new)>(learner: RegBoostLearner<R, real>, bid: nat,
                                 learn: (seq<real>, R -> real) -> (R -> real))
    requires learner.Valid() && Reals(learner.gbm.a) && bid < |learner.gbm.boosters|
    modifies learner.gbm
    ensures learner.Valid()
    ensures var boosters := old(learner.gbm.boosters);
      learner.gbm.boosters == boosters[bid :=
        learn(PredsWithout(learner.gbm.a, boosters, bid, learner.parts[0], learner.transform), boosters[bid])]
    ensures forall b :: 0 <= b < |learner.gbm.predBuffer| ==>
      learner.gbm.predBuffer[b] == Total(learner.gbm.a, learner.gbm.boosters, learner.gbm.rowOf[b])
  {
    var gbm, parts := learner.gbm, learner.parts;
    var offset: nat := 0;
    assert Flatten(parts[..0]) == [] && parts[..|parts|] == parts;
    SlotIs(parts, 0);
    var preds := TakePart(gbm, parts[0], offset, bid, learner.transform);
    offset := |parts[0]|;
    for i := 1 to |parts|
      invariant offset == Offset(parts, i) && TakenUpTo(gbm, bid, offset)
      invariant gbm.boosters == old(gbm.boosters)
    {
      SlotIs(parts, i);
      var _ := TakePart(gbm, parts[i], offset, bid, learner.transform);
      offset := offset + |parts[i]|;
    }
    ghost var before := gbm.boosters;
    var trained := learn(preds, gbm.boosters[bid]);
    TakenAll(gbm, bid);
    gbm.boosters := gbm.boosters[bid := trained];
    offset := 0;
    for i := 0 to |parts|
      invariant offset == Offset(parts, i) && PutBackUpTo(gbm, before, bid, offset)
      invariant gbm.boosters == before[bid := trained]
    {
      SlotIs(parts, i);
      PutBackPart(gbm, parts[i], offset, before, bid);
      offset := offset + |parts[i]|;
    }
    forall b: nat | b < |gbm.predBuffer| ensures gbm.SlotOk(b) { }
  }

  lemma TakenAll<R(!new)>(gbm: GBMBase<R, real>, bid: nat)
    requires Reals(gbm.a) && TakenUpTo(gbm, bid, |gbm.rowOf|)
    ensures PutBackUpTo(gbm, gbm.boosters, bid, 0)
  {
    forall b: nat | b < |gbm.rowOf| ensures gbm.predCounter[b] == |gbm.boosters|
      && gbm.predBuffer[b] == Total(gbm.a, gbm.boosters, gbm.rowOf[b]) - gbm.boosters[bid](gbm.rowOf[b])
    {
      assert gbm.TakenOut(bid, b);
      var x, y := Total(gbm.a, gbm.boosters, gbm.rowOf[b]), gbm.boosters[bid](gbm.rowOf[b]);
      assert gbm.a.minus(x, y) == x - y;
    }
  }
}
