/** Snapshots of an hpda dataflow graph: the rows every functor still owes its successor,
    and why one process() call, wherever it happens, does not change what the others owe. */
module Dataflow {
  import opened Options
  import opened StreamOps

  datatype Status = Null | ToProcess | Processing | End

  datatype Functor = Functor(op: Op, preds: seq<nat>, hasValue: bool, status: Status)

  /** Evidence that the graph is a forest of in-trees: a height and the successor of each functor. */
  datatype Plan = Plan(rank: seq<nat>, succ: seq<nat>, top: nat)

  ghost predicate InForest(fs: seq<Functor>, plan: Plan) {
    && |plan.rank| == |plan.succ| == |fs|
    && (forall i :: 0 <= i < |fs| ==> plan.rank[i] < plan.top)
    && (forall i :: 0 <= i < |fs| ==> Arity(fs[i].op, |fs[i].preds|))
    && (forall i, k :: 0 <= i < |fs| && 0 <= k < |fs[i].preds| ==>
          var p := fs[i].preds[k];
          p < |fs| && plan.rank[p] < plan.rank[i] && plan.succ[p] == i && !fs[p].op.MemoryOutput?)
    && (forall i, k, l :: 0 <= i < |fs| && 0 <= k < l < |fs[i].preds| ==> fs[i].preds[k] != fs[i].preds[l])
  }

  /** Every functor but the memory outputs feeds its successor. */
  ghost predicate EndsInOutputs(fs: seq<Functor>, plan: Plan)
    requires InForest(fs, plan)
  {
    forall i :: 0 <= i < |fs| && !fs[i].op.MemoryOutput? ==>
      plan.succ[i] < |fs| && i in fs[plan.succ[i]].preds
  }

  /** What process() of functor f sees: the value of every predecessor that has one. */
  function HeadsAt(fs: seq<Functor>, f: nat): (h: Heads)
    requires f < |fs| && forall k :: 0 <= k < |fs[f].preds| ==> fs[f].preds[k] < |fs|
    ensures |h| == |fs[f].preds|
  {
    seq(|fs[f].preds|, k requires 0 <= k < |fs[f].preds| =>
      var p := fs[f].preds[k]; if fs[p].hasValue then Some(Shown(fs[p].op)) else None)
  }

  /** All rows functor i will still show: the one it holds and those it can still compute. */
  ghost function Owed(fs: seq<Functor>, plan: Plan, i: nat): seq<Row>
    requires InForest(fs, plan) && i < |fs|
    decreases plan.rank[i], 2
  {
    (if fs[i].hasValue then [Shown(fs[i].op)] else []) + Future(fs, plan, i)
  }

  ghost function Future(fs: seq<Functor>, plan: Plan, i: nat): seq<Row>
    requires InForest(fs, plan) && i < |fs|
    decreases plan.rank[i], 1
  {
    Denote(fs[i].op, Inputs(fs, plan, i))
  }

  ghost function Inputs(fs: seq<Functor>, plan: Plan, i: nat): (ins: Streams)
    requires InForest(fs, plan) && i < |fs|
    ensures |ins| == |fs[i].preds|
    decreases plan.rank[i], 0
  {
    seq(|fs[i].preds|, k requires 0 <= k < |fs[i].preds| => Owed(fs, plan, fs[i].preds[k]))
  }

  /** The state after process() of f, before the engine sets has_value or m_status. */
  ghost predicate Called(fs: seq<Functor>, f: nat, o: Outcome, fs': seq<Functor>)
    requires f < |fs|
  {
    && |fs'| == |fs|
    && |o.consumed| == |fs[f].preds|
    && fs'[f] == fs[f].(op := o.op)
    && (forall k :: 0 <= k < |fs[f].preds| && fs[f].preds[k] < |fs| && fs[f].preds[k] != f ==>
          var p := fs[f].preds[k];
          fs'[p] == if o.consumed[k] then fs[p].(hasValue := false) else fs[p])
    && (forall i :: 0 <= i < |fs| && i != f && i !in fs[f].preds ==> fs'[i] == fs[i])
  }

  /** Every predecessor of f has a value or is exhausted. */
  ghost predicate Ready(fs: seq<Functor>, plan: Plan, f: nat)
    requires InForest(fs, plan) && f < |fs|
  {
    forall k :: 0 <= k < |fs[f].preds| ==>
      var p := fs[f].preds[k]; fs[p].hasValue || Future(fs, plan, p) == []
  }

  // ----- Owed is local -----

  /** fs' differs from fs only at f and in the has_value flags of f's inputs. */
  ghost predicate LocalChange(fs: seq<Functor>, fs': seq<Functor>, f: nat) {
    && f < |fs| == |fs'|
    && (forall i :: 0 <= i < |fs| ==> fs'[i].preds == fs[i].preds)
    && (forall i :: 0 <= i < |fs| && i != f ==> fs'[i].op == fs[i].op)
    && (forall i :: 0 <= i < |fs| && i != f && i !in fs[f].preds ==> fs'[i].hasValue == fs[i].hasValue)
  }

  /** If f owes the same rows, so does everything that is not an input of f. */
  lemma {:induction false} OwedElsewhere(fs: seq<Functor>, fs': seq<Functor>, plan: Plan, f: nat, g: nat)
    requires InForest(fs, plan) && InForest(fs', plan) && LocalChange(fs, fs', f)
    requires fs[f].op.MemoryOutput? || Owed(fs', plan, f) == Owed(fs, plan, f)
    requires g < |fs| && g != f && g !in fs[f].preds
    ensures Owed(fs', plan, g) == Owed(fs, plan, g)
    ensures Future(fs', plan, g) == Future(fs, plan, g)
    decreases plan.rank[g]
  {
    FutureElsewhere(fs, fs', plan, f, g);
  }

  lemma {:induction false} FutureElsewhere(fs: seq<Functor>, fs': seq<Functor>, plan: Plan, f: nat, g: nat)
    requires InForest(fs, plan) && InForest(fs', plan) && LocalChange(fs, fs', f)
    requires fs[f].op.MemoryOutput? || Owed(fs', plan, f) == Owed(fs, plan, f)
    requires g < |fs| && g != f
    ensures Future(fs', plan, g) == Future(fs, plan, g)
    decreases plan.rank[g], 0
  {
    forall k | 0 <= k < |fs[g].preds|
      ensures Owed(fs', plan, fs[g].preds[k]) == Owed(fs, plan, fs[g].preds[k])
    {
      var p := fs[g].preds[k];
      assert plan.succ[p] == g;
      if p != f { OwedElsewhere(fs, fs', plan, f, p); }
    }
    assert Inputs(fs', plan, g) == Inputs(fs, plan, g);
  }

  /** The inputs of f keep their future even before anything is known about f. */
  lemma {:induction false} FutureBelow(fs: seq<Functor>, fs': seq<Functor>, plan: Plan, f: nat, g: nat)
    requires InForest(fs, plan) && InForest(fs', plan) && LocalChange(fs, fs', f)
    requires g < |fs| && plan.rank[g] < plan.rank[f]
    ensures Future(fs', plan, g) == Future(fs, plan, g)
    decreases plan.rank[g]
  {
    forall k | 0 <= k < |fs[g].preds|
      ensures Owed(fs', plan, fs[g].preds[k]) == Owed(fs, plan, fs[g].preds[k])
    {
      var p := fs[g].preds[k];
      assert plan.succ[p] == g;
      FutureBelow(fs, fs', plan, f, p);
    }
    assert Inputs(fs', plan, g) == Inputs(fs, plan, g);
  }

  // ----- one call -----

  lemma StepProgress(op: Op, heads: Heads)
    requires Arity(op, |heads|)
    ensures var o := Step(op, heads); o.ok ==> Progress(op, o)
    ensures var o := Step(op, heads); |heads| == 0 && Progress(op, o) ==> op.RawData? && o.ok
  {
    var o := Step(op, heads);
    match op
    case RawData(_, _) =>
    case Filter(_, _) =>
      if o.ok { assert o.consumed[0]; }
    case MemoryOutput(_) =>
      if o.ok { assert o.consumed[0]; }
    case Concat(next, _) =>
      if o.ok { assert o.consumed[FirstWithValue(heads, next)]; }
    case _ =>
      if o.ok {
        var m := MinHead(op.traits, heads, |heads|).value;
        assert o.consumed[m];
      }
  }

  /** A call without progress changes nothing but the index of a raw source or a concat. */
  lemma StuckKeepsOp(op: Op, heads: Heads)
    requires Arity(op, |heads|) && !Progress(op, Step(op, heads))
    ensures var o := Step(op, heads); !o.ok && (o.op == op || op.RawData? || op.Concat?)
    ensures !Progress(Step(op, heads).op, Step(Step(op, heads).op, heads))
  {
    StepProgress(op, heads);
    var o := Step(op, heads);
    if op.Concat? {
      var i := FirstWithValue(heads, op.next);
      assert FirstWithValue(heads, i) == i;
      assert Step(o.op, heads).consumed == NoneConsumed(|heads|);
    } else if op.RawData? {
      assert Step(o.op, heads).consumed == NoneConsumed(|heads|);
    }
  }

  /** An operator that could do nothing can still do nothing on the same streams. */
  lemma StuckStaysStuck(op: Op, ins: Streams)
    requires Arity(op, |ins|) && !Progress(op, Step(op, HeadsOf(ins)))
    ensures Denote(Step(op, HeadsOf(ins)).op, ins) == []
  {
    StuckKeepsOp(op, HeadsOf(ins));
  }

  /** One unfolding of Denote. */
  lemma DenoteStep(op: Op, ins: Streams, heads: Heads)
    requires Arity(op, |ins|) && heads == HeadsOf(ins)
    ensures var o := Step(op, heads);
      Denote(op, ins) == (if o.ok then [Shown(o.op)] else []) + Denote(o.op, Advance(ins, o.consumed))
    ensures !Progress(op, Step(op, heads)) ==>
      Advance(ins, Step(op, heads).consumed) == ins && Denote(Step(op, heads).op, ins) == []
  {
    var o := Step(op, heads);
    if !Progress(op, o) {
      StepProgress(op, heads);
      forall k | 0 <= k < |ins| ensures !o.consumed[k] {}
      assert Advance(ins, o.consumed) == ins;
      StuckStaysStuck(op, ins);
    }
  }

  lemma CalledIsLocal(fs: seq<Functor>, fs': seq<Functor>, plan: Plan, f: nat, o: Outcome)
    requires InForest(fs, plan) && f < |fs|
    requires o == Step(fs[f].op, HeadsAt(fs, f)) && Called(fs, f, o, fs')
    ensures InForest(fs', plan) && LocalChange(fs, fs', f)
  {
    forall i | 0 <= i < |fs| && i != f ensures fs'[i].op == fs[i].op && fs'[i].preds == fs[i].preds {
      if i in fs[f].preds {
        var k :| 0 <= k < |fs[f].preds| && fs[f].preds[k] == i;
      }
    }
  }

  /** A call on a ready functor splits its future into the row it returns and the rest. */
  lemma CallSplitsFuture(fs: seq<Functor>, fs': seq<Functor>, plan: Plan, f: nat, o: Outcome)
    requires InForest(fs, plan) && f < |fs| && Ready(fs, plan, f)
    requires o == Step(fs[f].op, HeadsAt(fs, f)) && Called(fs, f, o, fs')
    ensures InForest(fs', plan) && LocalChange(fs, fs', f)
    ensures Future(fs, plan, f) == (if o.ok then [Shown(o.op)] else []) + Future(fs', plan, f)
    ensures !Progress(fs[f].op, o) ==> Future(fs', plan, f) == []
  {
    CalledIsLocal(fs, fs', plan, f, o);
    InputsAfterCall(fs, fs', plan, f, o);
    DenoteStep(fs[f].op, Inputs(fs, plan, f), HeadsAt(fs, f));
  }

  lemma InputsAfterCall(fs: seq<Functor>, fs': seq<Functor>, plan: Plan, f: nat, o: Outcome)
    requires InForest(fs, plan) && InForest(fs', plan) && LocalChange(fs, fs', f) && Ready(fs, plan, f)
    requires o == Step(fs[f].op, HeadsAt(fs, f)) && Called(fs, f, o, fs')
    ensures HeadsOf(Inputs(fs, plan, f)) == HeadsAt(fs, f)
    ensures Inputs(fs', plan, f) == Advance(Inputs(fs, plan, f), o.consumed)
  {
    forall k | 0 <= k < |fs[f].preds|
      ensures HeadsOf(Inputs(fs, plan, f))[k] == HeadsAt(fs, f)[k]
      ensures Inputs(fs', plan, f)[k] == Advance(Inputs(fs, plan, f), o.consumed)[k]
    {
      InputAfterCall(fs, fs', plan, f, o, k);
    }
  }

  lemma InputAfterCall(fs: seq<Functor>, fs': seq<Functor>, plan: Plan, f: nat, o: Outcome, k: nat)
    requires InForest(fs, plan) && InForest(fs', plan) && LocalChange(fs, fs', f) && Ready(fs, plan, f)
    requires |o.consumed| == |fs[f].preds| && Called(fs, f, o, fs') && k < |fs[f].preds|
    requires o.consumed[k] ==> HeadsAt(fs, f)[k].Some?
    ensures var p := fs[f].preds[k];
      && (Owed(fs, plan, p) == [] <==> HeadsAt(fs, f)[k].None?)
      && (fs[p].hasValue ==> Owed(fs, plan, p)[0] == Shown(fs[p].op))
      && Owed(fs', plan, p) == if o.consumed[k] then Owed(fs, plan, p)[1..] else Owed(fs, plan, p)
  {
    var p := fs[f].preds[k];
    FutureBelow(fs, fs', plan, f, p);
  }
}
