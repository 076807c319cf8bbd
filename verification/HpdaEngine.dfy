/** engine::run of hpda: breadth-first requests, a processing stack, and restarts at the outputs. */
module HpdaEngine {
  import opened StreamOps
  import opened Schedule
  import opened Dataflow
  import opened Options

  /** f has its own distinct predecessors and an operator made for that many. */
  predicate Wired(fs: seq<Functor>, f: nat)
    requires f < |fs|
  {
    && (forall k :: 0 <= k < |fs[f].preds| ==> fs[f].preds[k] < |fs| && fs[f].preds[k] != f)
    && (forall k, l :: 0 <= k < l < |fs[f].preds| ==> fs[f].preds[k] != fs[f].preds[l])
    && Arity(fs[f].op, |fs[f].preds|)
  }

  /** fs is fs0 with the value of every marked input of f below n taken away. */
  ghost predicate ResetUpTo(fs0: seq<Functor>, f: nat, marks: seq<bool>, n: nat, fs: seq<Functor>)
    requires f < |fs0| && |marks| == |fs0[f].preds|
  {
    && |fs| == |fs0|
    && fs[f] == fs0[f]
    && (forall k :: 0 <= k < |marks| && fs0[f].preds[k] < |fs0| && fs0[f].preds[k] != f ==>
          var p := fs0[f].preds[k];
          fs[p] == if k < n && marks[k] then fs0[p].(hasValue := false) else fs0[p])
    && (forall i :: 0 <= i < |fs0| && i !in fs0[f].preds ==> fs[i] == fs0[i])
  }

  lemma ResetNext(fs0: seq<Functor>, f: nat, marks: seq<bool>, n: nat, fs: seq<Functor>)
    requires f < |fs0| && Wired(fs0, f) && n < |marks| == |fs0[f].preds| && ResetUpTo(fs0, f, marks, n, fs)
    ensures var p := fs0[f].preds[n]; p != f && p < |fs| && fs[p] == fs0[p]
    ensures var p := fs0[f].preds[n];
      ResetUpTo(fs0, f, marks, n + 1, if marks[n] then fs[p := fs[p].(hasValue := false)] else fs)
  {
    forall k | 0 <= k < |marks| && k != n ensures fs0[f].preds[k] != fs0[f].preds[n] {
      if k < n { assert fs0[f].preds[k] != fs0[f].preds[n]; } else { assert fs0[f].preds[n] != fs0[f].preds[k]; }
    }
    assert fs0[f].preds[n] in fs0[f].preds;
  }

  /** Whether a head other than `skip` is marked among the first n. */
  predicate AnyBut(marks: seq<bool>, n: nat, skip: nat)
    requires n <= |marks|
    ensures AnyBut(marks, n, skip) <==> exists k :: 0 <= k < n && k != skip && marks[k]
  {
    n != 0 && ((n - 1 != skip && marks[n - 1]) || AnyBut(marks, n - 1, skip))
  }

  lemma UnionOnLeast(traits: seq<Row -> Key>, out: Row, heads: Heads, index: nat, val: Key)
    requires 2 <= |heads| == |traits| && MinHead(traits, heads, |heads|) == Some(index)
      && val == traits[index](heads[index].value)
    ensures Matching(traits, heads, val)[index]
    ensures StepUnion(traits, out, heads)
      == Outcome(Union(traits, out + heads[index].value), true, Matching(traits, heads, val))
  {
  }

  lemma IntersectionOnLeast(traits: seq<Row -> Key>, out: Row, heads: Heads, index: nat, val: Key)
    requires 2 <= |heads| == |traits| && MinHead(traits, heads, |heads|) == Some(index)
      && val == traits[index](heads[index].value)
    requires AllHeads(heads)
    ensures StepIntersection(traits, out, heads)
      == Outcome(Intersection(traits, if AllEqual(traits, heads) then Overlay(out, heads, |heads|) else out),
                 AllEqual(traits, heads), Matching(traits, heads, val))
  {
  }

  lemma DifferenceOnLeast(traits: seq<Row -> Key>, out: Row, heads: Heads, index: nat, val: Key, hit: bool)
    requires 2 <= |heads| == |traits| && MinHead(traits, heads, |heads|) == Some(index)
      && val == traits[index](heads[index].value)
    requires heads[0].Some? && hit == AnyBut(Matching(traits, heads, val), |heads|, 0)
    ensures var least := Matching(traits, heads, val);
      && (least[0] <==> traits[0](heads[0].value) == val)
      && (!hit ==> least[0])
      && StepDifference(traits, out, heads)
        == Outcome(Difference(traits, if hit then out else out + heads[0].value), !hit, least)
  {
    var least := Matching(traits, heads, val);
    assert least[index];
    assert hit <==> exists k :: 1 <= k < |heads| && least[k];
  }

  function Except(marks: seq<bool>, skip: nat): (r: seq<bool>)
    ensures |r| == |marks|
  {
    if skip < |marks| then marks[skip := false] else marks
  }

  predicate Edge(m: map<nat, set<nat>>, i: nat, j: nat) { i in m && j in m[i] }

  class Engine {
    var fs: seq<Functor>
    var successors: map<nat, set<nat>>
    ghost const plan: Plan

    constructor (functors: seq<Functor>, ghost plan: Plan)
      ensures fs == functors && this.plan == plan
    {
      fs := functors;
      successors := map[];
      this.plan := plan;
    }

    // ----- process() of each functor kind -----

    /** The call Step describes, on the functor's actual predecessors. */
    ghost predicate Performed(before: seq<Functor>, f: nat, b: bool)
      requires f < |before| && Wired(before, f)
      reads this`fs
    {
      var o := Step(before[f].op, HeadsAt(before, f));
      b == o.ok && Called(before, f, o, fs)
    }

    method Process(f: nat) returns (b: bool)
      requires f < |fs| && Wired(fs, f)
      modifies this`fs
      ensures Performed(old(fs), f, b)
    {
      match fs[f].op
      case RawData(_, _) => b := ProcessRawData(f);
      case Filter(_, _) => b := ProcessFilter(f);
      case Concat(_, _) => b := ProcessConcat(f);
      case Union(_, _) => b := ProcessUnion(f);
      case Intersection(_, _) => b := ProcessIntersection(f);
      case Difference(_, _) => b := ProcessDifference(f);
      case MemoryOutput(_) => b := ProcessMemoryOutput(f);
    }

    method ProcessRawData(f: nat) returns (b: bool)
      requires f < |fs| && Wired(fs, f) && fs[f].op.RawData?
      modifies this`fs
      ensures Performed(old(fs), f, b)
    {
      var data, index := fs[f].op.data, fs[f].op.index;
      if data == [] { return false; }
      index := index + 1;
      fs := fs[f := fs[f].(op := RawData(data, index))];
      return index < |data|;
    }

    method ProcessFilter(f: nat) returns (b: bool)
      requires f < |fs| && Wired(fs, f) && fs[f].op.Filter?
      modifies this`fs
      ensures Performed(old(fs), f, b)
      ensures var up := old(fs)[old(fs)[f].preds[0]];
        (b <==> up.hasValue && old(fs)[f].op.keep(Shown(up.op))) && (b ==> Shown(fs[f].op) == Shown(up.op))
    {
      var up := fs[f].preds[0];
      if !fs[up].hasValue { return false; }
      var value := Shown(fs[up].op);
      b := fs[f].op.keep(value);
      if b { fs := fs[f := fs[f].(op := Filter(fs[f].op.keep, value))]; }
      fs := fs[up := fs[up].(hasValue := false)];
    }

    method ProcessMemoryOutput(f: nat) returns (b: bool)
      requires f < |fs| && Wired(fs, f) && fs[f].op.MemoryOutput?
      modifies this`fs
      ensures Performed(old(fs), f, b)
    {
      var up := fs[f].preds[0];
      if !fs[up].hasValue { return false; }
      fs := fs[f := fs[f].(op := MemoryOutput(fs[f].op.values + [Shown(fs[up].op)]))];
      fs := fs[up := fs[up].(hasValue := false)];
      return true;
    }

    method ProcessConcat(f: nat) returns (b: bool)
      requires f < |fs| && Wired(fs, f) && fs[f].op.Concat?
      modifies this`fs
      ensures Performed(old(fs), f, b)
    {
      var ups, i := fs[f].preds, fs[f].op.next;
      ghost var heads := HeadsAt(fs, f);
      while i < |ups| && !fs[ups[i]].hasValue
        invariant FirstWithValue(heads, fs[f].op.next) == FirstWithValue(heads, i)
      {
        i := i + 1;
      }
      fs := fs[f := fs[f].(op := Concat(i, fs[f].op.out))];
      if i >= |ups| { return false; }
      fs := fs[f := fs[f].(op := Concat(i, Shown(fs[ups[i]].op)))];
      fs := fs[ups[i] := fs[ups[i]].(hasValue := false)];
      return true;
    }

    static lemma NoLeast(traits: seq<Row -> Key>, heads: Heads)
      requires |heads| == |traits|
      ensures MinHead(traits, heads, 0) == None
    {
    }

    static lemma LeastNext(traits: seq<Row -> Key>, heads: Heads, i: nat)
      requires i < |heads| == |traits|
      ensures var r := MinHead(traits, heads, i);
        MinHead(traits, heads, i + 1) == if heads[i].None? then r
          else if r.None? || traits[r.value](heads[r.value].value) > traits[i](heads[i].value) then Some(i)
          else r
    {
    }

    /** The first input with the least key. */
    method FindLeast(f: nat) returns (flag: bool, index: nat, val: Key)
      requires f < |fs| && Wired(fs, f) && (fs[f].op.Union? || fs[f].op.Intersection? || fs[f].op.Difference?)
      ensures var traits, heads := fs[f].op.traits, HeadsAt(fs, f);
        MinHead(traits, heads, |heads|) == (if flag then Some(index) else None)
        && (flag ==> index < |heads| && val == traits[index](heads[index].value))
    {
      var ups, traits := fs[f].preds, fs[f].op.traits;
      ghost var heads := HeadsAt(fs, f);
      hide MinHead;
      NoLeast(traits, heads);
      flag, index, val := false, 0, 0;
      for i := 0 to |ups|
        invariant flag ==> index < i
        invariant MinHead(traits, heads, i) == if flag then Some(index) else None
        invariant flag ==> val == traits[index](heads[index].value)
      {
        LeastNext(traits, heads, i);
        if fs[ups[i]].hasValue {
          var tmp := traits[i](Shown(fs[ups[i]].op));
          if !flag { val, index, flag := tmp, i, true; }
          if val > tmp { val, index := tmp, i; }
        }
      }
    }

    /** Takes the value of every input but one that shows this key; says whether there was any. */
    method TakeKey(f: nat, val: Key, skip: nat) returns (hit: bool)
      requires f < |fs| && Wired(fs, f) && (fs[f].op.Union? || fs[f].op.Intersection? || fs[f].op.Difference?)
      modifies this`fs
      ensures var least := Matching(old(fs)[f].op.traits, HeadsAt(old(fs), f), val);
        ResetUpTo(old(fs), f, Except(least, skip), |least|, fs)
        && (hit <==> AnyBut(least, |least|, skip))
    {
      var ups, traits := fs[f].preds, fs[f].op.traits;
      ghost var fs0, least := fs, Matching(traits, HeadsAt(fs, f), val);
      hit := false;
      for i := 0 to |ups|
        invariant ResetUpTo(fs0, f, Except(least, skip), i, fs)
        invariant hit == AnyBut(least, i, skip)
      {
        ResetNext(fs0, f, Except(least, skip), i, fs);
        if fs[ups[i]].hasValue {
          var tmp := traits[i](Shown(fs[ups[i]].op));
          if i != skip && tmp == val {
            hit := true;
            fs := fs[ups[i] := fs[ups[i]].(hasValue := false)];
          }
        }
      }
    }

    method ProcessUnion(f: nat) returns (b: bool)
      requires f < |fs| && Wired(fs, f) && fs[f].op.Union?
      modifies this`fs
      ensures Performed(old(fs), f, b)
    {
      hide Step, StepUnion, StepIntersection, StepDifference, MinHead, Matching, ResetUpTo, Except;
      StepCases(fs[f].op, HeadsAt(fs, f));
      var ups, traits := fs[f].preds, fs[f].op.traits;
      if |ups| < 2 { StepIdle(fs[f].op, HeadsAt(fs, f)); return false; }
      ghost var fs0 := fs;
      var flag, index, val := FindLeast(f);
      if !flag { StepIdle(fs[f].op, HeadsAt(fs, f)); return false; }
      var _ := TakeKey(f, val, index);
      var first := ups[index];
      ghost var marks, mid := Matching(traits, HeadsAt(fs0, f), val), fs;
      InputsKept(fs0, f, Except(marks, index), |marks|, fs);
      fs := fs[f := fs[f].(op := Union(traits, fs[f].op.out + Shown(fs[first].op)))];
      fs := fs[first := fs[first].(hasValue := false)];
      UnionOnLeast(traits, fs0[f].op.out, HeadsAt(fs0, f), index, val);
      UnionDone(fs0, mid, fs, f, marks, index);
      return true;
    }

    lemma InputsKept(fs0: seq<Functor>, f: nat, marks: seq<bool>, n: nat, fs: seq<Functor>)
      requires f < |fs0| && Wired(fs0, f) && |marks| == |fs0[f].preds| && ResetUpTo(fs0, f, marks, n, fs)
      ensures |fs| == |fs0| && fs[f] == fs0[f]
      ensures forall k :: 0 <= k < |fs0[f].preds| ==> fs[fs0[f].preds[k]].op == fs0[fs0[f].preds[k]].op
    {
    }

    lemma UnionDone(fs0: seq<Functor>, mid: seq<Functor>, fs: seq<Functor>, f: nat, marks: seq<bool>, index: nat)
      requires f < |fs0| && Wired(fs0, f) && |marks| == |fs0[f].preds| && index < |marks| && marks[index]
      requires ResetUpTo(fs0, f, Except(marks, index), |marks|, mid)
      requires |fs| == |mid| && fs[f].preds == mid[f].preds && fs[f] == mid[f].(op := fs[f].op)
      requires var first := fs0[f].preds[index]; fs == mid[f := fs[f]][first := mid[first].(hasValue := false)]
      ensures Called(fs0, f, Outcome(fs[f].op, true, marks), fs) && Called(fs0, f, Outcome(fs[f].op, false, marks), fs)
    {
      LastOneToo(fs0, f, marks, index, fs);
    }

    /** All marked inputs but one were reset, then the operator was updated and the last one reset. */
    lemma LastOneToo(fs0: seq<Functor>, f: nat, marks: seq<bool>, index: nat, fs: seq<Functor>)
      requires f < |fs0| && Wired(fs0, f) && |marks| == |fs0[f].preds| && index < |marks| && marks[index]
      requires |fs| == |fs0| && fs[f] == fs0[f].(op := fs[f].op)
      requires fs[fs0[f].preds[index]] == fs0[fs0[f].preds[index]].(hasValue := false)
      requires forall k :: 0 <= k < |marks| && k != index ==>
        var p := fs0[f].preds[k]; fs[p] == if marks[k] then fs0[p].(hasValue := false) else fs0[p]
      requires forall i :: 0 <= i < |fs0| && i != f && i !in fs0[f].preds ==> fs[i] == fs0[i]
      ensures Called(fs0, f, Outcome(fs[f].op, true, marks), fs) && Called(fs0, f, Outcome(fs[f].op, false, marks), fs)
    {
    }

    method AllPresent(f: nat) returns (b: bool)
      requires f < |fs| && Wired(fs, f)
      ensures b <==> AllHeads(HeadsAt(fs, f))
    {
      ghost var heads := HeadsAt(fs, f);
      for i := 0 to |fs[f].preds|
        invariant forall k :: 0 <= k < i ==> heads[k].Some?
      {
        if !fs[fs[f].preds[i]].hasValue { assert heads[i].None?; return false; }
      }
      return true;
    }

    predicate HasIntersection(f: nat)
      requires f < |fs| && fs[f].op.Intersection? && 2 <= |fs[f].preds| == |fs[f].op.traits|
      requires forall k :: 0 <= k < |fs[f].preds| ==> fs[f].preds[k] < |fs|
      reads this`fs
    {
      forall i :: 1 <= i < |fs[f].preds| ==>
        fs[f].op.traits[0](Shown(fs[fs[f].preds[0]].op)) == fs[f].op.traits[i](Shown(fs[fs[f].preds[i]].op))
    }

    method FillOutput(f: nat)
      requires f < |fs| && Wired(fs, f) && fs[f].op.Intersection? && AllHeads(HeadsAt(fs, f))
      modifies this`fs
      ensures var heads := HeadsAt(old(fs), f);
        fs == old(fs)[f := old(fs)[f].(op := Intersection(old(fs)[f].op.traits,
          Overlay(old(fs)[f].op.out, heads, |heads|)))]
    {
      var ups, out := fs[f].preds, fs[f].op.out;
      ghost var heads := HeadsAt(fs, f);
      for i := 0 to |ups|
        invariant out == Overlay(fs[f].op.out, heads, i)
      {
        assert heads[i].Some?;
        out := out + Shown(fs[ups[i]].op);
      }
      fs := fs[f := fs[f].(op := Intersection(fs[f].op.traits, out))];
    }

    /** Takes the least key from every input. */
    method NextValue(f: nat) returns (ghost index: nat, ghost least: Key)
      requires f < |fs| && Wired(fs, f) && fs[f].op.Intersection? && 2 <= |fs[f].preds| && AllHeads(HeadsAt(fs, f))
      modifies this`fs
      ensures var traits, heads := old(fs)[f].op.traits, HeadsAt(old(fs), f);
        && MinHead(traits, heads, |heads|) == Some(index)
        && least == traits[index](heads[index].value)
        && ResetUpTo(old(fs), f, Matching(traits, heads, least), |heads|, fs)
    {
      hide MinHead, Matching;
      assert HeadsAt(fs, f)[0].Some?;
      var flag, i, val := FindLeast(f);
      var _ := TakeKey(f, val, |fs[f].preds|);
      index, least := i, val;
    }

    method ProcessIntersection(f: nat) returns (b: bool)
      requires f < |fs| && Wired(fs, f) && fs[f].op.Intersection?
      modifies this`fs
      ensures Performed(old(fs), f, b)
    {
      hide Step, StepIntersection, AllHeads;
      var ups := fs[f].preds;
      if |ups| < 2 { StepIdle(fs[f].op, HeadsAt(fs, f)); return false; }
      var present := AllPresent(f);
      if !present { StepIdle(fs[f].op, HeadsAt(fs, f)); return false; }
      StepCases(fs[f].op, HeadsAt(fs, f));
      b := Intersect(f);
    }

    /** has_intersection, which fills m_data when all inputs carry one key */
    method Show(f: nat) returns (b: bool)
      requires f < |fs| && Wired(fs, f) && fs[f].op.Intersection? && 2 <= |fs[f].preds| && AllHeads(HeadsAt(fs, f))
      modifies this`fs
      ensures var op, heads := old(fs)[f].op, HeadsAt(old(fs), f);
        && b == AllEqual(op.traits, heads) && f < |fs| && Wired(fs, f) && HeadsAt(fs, f) == heads
        && fs == old(fs)[f := old(fs)[f].(op :=
             Intersection(op.traits, if b then Overlay(op.out, heads, |heads|) else op.out))]
    {
      hide Overlay;
      ghost var fs0, heads := fs, HeadsAt(fs, f);
      b := HasIntersection(f);
      assert b == AllEqual(fs[f].op.traits, heads);
      if b { FillOutput(f); }
      assert fs == fs0[f := fs0[f].(op := fs[f].op)];
      assert HeadsAt(fs, f) == heads;
    }

    method Intersect(f: nat) returns (b: bool)
      requires f < |fs| && Wired(fs, f) && fs[f].op.Intersection? && 2 <= |fs[f].preds| && AllHeads(HeadsAt(fs, f))
      modifies this`fs
      ensures var o := StepIntersection(old(fs)[f].op.traits, old(fs)[f].op.out, HeadsAt(old(fs), f));
        b == o.ok && Called(old(fs), f, o, fs)
    {
      hide StepIntersection, MinHead, Matching, Called, ResetUpTo, AllEqual, Overlay;
      ghost var fs0, heads := fs, HeadsAt(fs, f);
      b := Show(f);
      ghost var op1 := fs[f].op;
      ghost var index, val := NextValue(f);
      IntersectionOnLeast(op1.traits, fs0[f].op.out, heads, index, val);
      ResetAfterUpdate(fs0, f, Outcome(op1, b, Matching(op1.traits, heads, val)), fs);
    }

    /** The operator was updated first and the marked inputs were reset after. */
    lemma ResetAfterUpdate(fs0: seq<Functor>, f: nat, o: Outcome, fs: seq<Functor>)
      requires f < |fs0| && Wired(fs0, f) && |o.consumed| == |fs0[f].preds|
      requires ResetUpTo(fs0[f := fs0[f].(op := o.op)], f, o.consumed, |o.consumed|, fs)
      ensures Called(fs0, f, o, fs)
    {
    }

    method ProcessDifference(f: nat) returns (b: bool)
      requires f < |fs| && Wired(fs, f) && fs[f].op.Difference?
      modifies this`fs
      ensures Performed(old(fs), f, b)
    {
      hide Step, StepDifference;
      var ups := fs[f].preds;
      if |ups| < 2 || !fs[ups[0]].hasValue { StepIdle(fs[f].op, HeadsAt(fs, f)); return false; }
      StepCases(fs[f].op, HeadsAt(fs, f));
      b := HasDifference(f);
    }

    method HasDifference(f: nat) returns (b: bool)
      requires f < |fs| && Wired(fs, f) && fs[f].op.Difference? && 2 <= |fs[f].preds| && fs[fs[f].preds[0]].hasValue
      modifies this`fs
      ensures var o := StepDifference(old(fs)[f].op.traits, old(fs)[f].op.out, HeadsAt(old(fs), f));
        b == o.ok && Called(old(fs), f, o, fs)
    {
      hide StepDifference, MinHead, Matching;
      var ups, traits := fs[f].preds, fs[f].op.traits;
      ghost var fs0, heads := fs, HeadsAt(fs, f);
      var val0 := traits[0](Shown(fs[ups[0]].op));
      assert heads[0].Some?;
      var _, index, valMin := FindLeast(f);
      var flagMin := TakeKey(f, valMin, 0);
      DifferenceOnLeast(traits, fs0[f].op.out, heads, index, valMin, flagMin);
      if flagMin && val0 != valMin {
        NothingElse(fs0, f, Matching(traits, heads, valMin), fs);
        return false;
      }
      if !flagMin { fs := fs[f := fs[f].(op := Difference(traits, fs[f].op.out + Shown(fs[ups[0]].op)))]; }
      fs := fs[ups[0] := fs[ups[0]].(hasValue := false)];
      LastOneToo(fs0, f, Matching(traits, heads, valMin), 0, fs);
      return !flagMin;
    }

    lemma NothingElse(fs0: seq<Functor>, f: nat, marks: seq<bool>, fs: seq<Functor>)
      requires f < |fs0| && Wired(fs0, f) && |marks| == |fs0[f].preds| && marks != [] && !marks[0]
      requires ResetUpTo(fs0, f, Except(marks, 0), |marks|, fs)
      ensures Called(fs0, f, Outcome(fs0[f].op, false, marks), fs)
    {
      assert Except(marks, 0) == marks;
    }

    // ----- the scheduler -----

    ghost predicate Valid()
      reads this
    {
      && InForest(fs, plan) && EndsInOutputs(fs, plan)
      && (forall i :: 0 <= i < |fs| && fs[i].op.MemoryOutput? ==> !fs[i].hasValue)
    }

    /** Adds f to the successors of each of its predecessors. */
    method LinkInputs(f: nat)
      requires f < |fs|
      modifies this`successors
      ensures old(successors).Keys <= successors.Keys
      ensures forall i: nat, j: nat :: Edge(successors, i, j) <==>
        Edge(old(successors), i, j) || (j == f && i in fs[f].preds)
    {
      var preds := fs[f].preds;
      for k := 0 to |preds|
        invariant old(successors).Keys <= successors.Keys
        invariant forall i: nat, j: nat :: Edge(successors, i, j) <==>
          Edge(old(successors), i, j) || (j == f && i in preds[..k])
      {
        var input := preds[k];
        if input !in successors { successors := successors[input := {}]; }
        successors := successors[input := successors[input] + {f}];
        assert preds[..k + 1] == preds[..k] + [input];
      }
      assert preds[..|preds|] == preds;
    }

    /** m_successors of every functor, and all statuses back to null. */
    method BuildGraph()
      requires InForest(fs, plan)
      modifies this
      ensures |fs| == |old(fs)|
      ensures forall i :: 0 <= i < |fs| ==> fs[i] == old(fs)[i].(status := Null)
      ensures forall i :: 0 <= i < |fs| ==> i in successors
      ensures forall i :: 0 <= i < |fs| ==> (successors[i] == {} <==> forall j :: 0 <= j < |fs| ==> i !in fs[j].preds)
    {
      ghost var fs0 := fs;
      successors := map[];
      for f := 0 to |fs|
        invariant |fs| == |fs0|
          && forall i :: 0 <= i < |fs| ==> fs[i] == if i < f then fs0[i].(status := Null) else fs0[i]
        invariant forall i :: 0 <= i < f ==> i in successors
        invariant forall i: nat, j: nat :: Edge(successors, i, j) <==> j < f && i in fs0[j].preds
      {
        ghost var before := successors;
        if f !in successors { successors := successors[f := {}]; }
        assert forall i: nat, j: nat :: Edge(successors, i, j) <==> Edge(before, i, j);
        LinkInputs(f);
        fs := fs[f := fs[f].(status := Null)];
      }
      forall i | 0 <= i < |fs| ensures successors[i] == {} <==> forall j :: 0 <= j < |fs| ==> i !in fs[j].preds {
        if successors[i] == {} {
          forall j: nat | j < |fs| ensures i !in fs[j].preds { assert !Edge(successors, i, j); }
        } else {
          var j :| j in successors[i];
          assert Edge(successors, i, j);
        }
      }
    }

    method FindOutputs() returns (ret: seq<nat>)
      requires Valid() && forall i :: 0 <= i < |fs| ==> i in successors
      requires forall i :: 0 <= i < |fs| ==> (successors[i] == {} <==> forall j :: 0 <= j < |fs| ==> i !in fs[j].preds)
      ensures NoDuplicates(ret)
      ensures forall k :: 0 <= k < |ret| ==> ret[k] < |fs| && fs[ret[k]].op.MemoryOutput?
      ensures forall i :: 0 <= i < |fs| && fs[i].op.MemoryOutput? ==> i in ret
    {
      ret := [];
      for i := 0 to |fs|
        invariant NoDuplicates(ret)
        invariant forall k :: 0 <= k < |ret| ==> ret[k] < i && fs[ret[k]].op.MemoryOutput?
        invariant forall j :: 0 <= j < i && fs[j].op.MemoryOutput? ==> j in ret
      {
        if fs[i].op.MemoryOutput? {
          forall j | 0 <= j < |fs| ensures i !in fs[j].preds {
            assert forall k :: 0 <= k < |fs[j].preds| ==> !fs[fs[j].preds[k]].op.MemoryOutput?;
          }
        } else {
          assert i in fs[plan.succ[i]].preds;
        }
        if successors[i] == {} { ret := ret + [i]; }
      }
    }

    /** Queues every predecessor of f that has no value, is not queued and has not ended. */
    method RequestInputs(f: nat, queue: seq<nat>, ghost stack: seq<nat>) returns (queue': seq<nat>, end: bool)
      requires stack != [] && stack[|stack| - 1] == f && Inv(fs, plan, queue, stack, |stack| - 1)
      modifies this`fs
      ensures Asked(old(fs), fs, plan, queue, queue', stack, |old(fs)[f].preds|, end)
    {
      var inputs := fs[f].preds;
      hide InForest, Inv, Asked, Kept, Below;
      AskedNothing(fs, plan, queue, stack);
      queue', end := queue, true;
      ghost var fs0 := fs;
      for k := 0 to |inputs|
        invariant Asked(fs0, fs, plan, queue, queue', stack, k, end)
      {
        var input := inputs[k];
        AskedNext(fs0, fs, plan, queue, queue', stack, k, end);
        if Missing(fs, input) {
          queue' := queue' + [input];
          fs := fs[input := fs[input].(status := ToProcess)];
          end := false;
        }
      }
    }

    /** process() of f; on success done_value and status null, otherwise the status stays.
        The scheduler calls it only when every predecessor has a value or is over. */
    method Call(f: nat) returns (b: bool)
      requires f < |fs| && Wired(fs, f) && !fs[f].hasValue
      requires forall k :: 0 <= k < |fs[f].preds| ==> fs[fs[f].preds[k]].hasValue || fs[fs[f].preds[k]].status == End
      modifies this`fs
      ensures var o := Step(old(fs)[f].op, HeadsAt(old(fs), f));
        b == o.ok && CalledAndMarked(old(fs), f, o, if b then Null else old(fs)[f].status, fs)
    {
      hide Step;
      ghost var fs0 := fs;
      b := Process(f);
      ghost var fs1 := fs;
      if b {
        // done_value is overridden by outputs to leave has_value false
        fs := fs[f := fs[f].(hasValue := !fs[f].op.MemoryOutput?, status := Null)];
      } else {
        fs := fs[f := fs[f].(hasValue := false)];
      }
      assert fs[f := fs0[f].(op := fs1[f].op)] == fs1;
    }

    /** Empties the queue: extractors are called at once, the others are stacked and ask for inputs. */
    method BreadthFirst(queue0: seq<nat>, stack0: seq<nat>) returns (stack: seq<nat>)
      requires Inv(fs, plan, queue0, stack0, |stack0|) && queue0 != []
      modifies this`fs
      ensures Inv(fs, plan, [], stack, |stack|) && InForest(fs, plan) && InForest(old(fs), plan)
      ensures Kept(old(fs), fs, plan) && Below(old(fs), fs, plan)
    {
      hide Inv, Kept, Honest, Asked, Step, CalledAndMarked, Future, Work, Running, Idle;
      var queue := queue0;
      stack := stack0;
      ghost var fs0 := fs;
      KeptAtStart(fs, plan, queue, stack);
      while queue != []
        invariant Inv(fs, plan, queue, stack, |stack|) && InForest(fs0, plan) && InForest(fs, plan)
          && Kept(fs0, fs, plan)
        invariant (fs == fs0 && queue == queue0) || Below(fs0, fs, plan)
        decreases Work(fs, plan), Running(fs), Idle(fs)
      {
        ghost var fs1 := fs;
        QueueHead(fs, plan, queue, stack);
        var f := queue[0];
        if fs[f].preds == [] {
          ghost var o := Step(fs[f].op, HeadsAt(fs, f));
          var b := Call(f);
          if !b {
            MarkOver(fs1, fs, f, o, ToProcess, End);
            fs := fs[f := fs[f].(status := End)];
          }
          ExtractorCalled(fs0, fs1, fs, plan, queue, stack, o);
          queue := queue[1..];
        } else {
          Stacked(fs0, fs, plan, queue, stack);
          fs := fs[f := fs[f].(status := Processing)];
          stack := stack + [f];
          ghost var fs2, queue2 := fs, queue[1..];
          ghost var end;
          queue, end := RequestInputs(f, queue[1..], stack);
          AskedAll(fs0, fs2, fs, plan, queue2, queue, stack, end);
          BelowTransitive(fs1, fs2, fs, plan);
        }
      }
    }

    /** Calls the stack from the top until it is empty or a functor needs more input. */
    method Unwind(stack0: seq<nat>) returns (queue: seq<nat>, stack: seq<nat>)
      requires Inv(fs, plan, [], stack0, |stack0|)
      modifies this`fs
      ensures Inv(fs, plan, queue, stack, |stack|) && InForest(fs, plan) && InForest(old(fs), plan)
      ensures queue == [] ==> stack == []
      ensures Kept(old(fs), fs, plan) && (fs == old(fs) || Below(old(fs), fs, plan))
    {
      hide Inv, Kept, Honest, Asked, Step, CalledAndMarked, Future, Work, Running, Idle, Missing;
      queue, stack := [], stack0;
      ghost var fs0 := fs;
      KeptAtStart(fs, plan, queue, stack);
      while stack != []
        invariant queue == []
        invariant Inv(fs, plan, [], stack, |stack|) && InForest(fs0, plan) && InForest(fs, plan) && Kept(fs0, fs, plan)
        invariant fs == fs0 || Below(fs0, fs, plan)
        decreases Work(fs, plan), Running(fs), Idle(fs)
      {
        ghost var fs1 := fs;
        var f := stack[|stack| - 1];
        StackTop(fs, plan, stack);
        ghost var o := Step(fs[f].op, HeadsAt(fs, f));
        var b := Call(f);
        if b {
          TopCalled(fs0, fs1, fs, plan, stack, o);
          stack := stack[..|stack| - 1];
        } else {
          ghost var fs2 := fs;
          TopStays(fs0, fs1, fs2, plan, stack, o);
          var end;
          queue, end := RequestInputs(f, [], stack);
          if !end {
            TopWaits(fs0, fs1, fs2, fs, plan, queue, stack, o);
            return;
          }
          TopOver(fs0, fs1, fs2, fs, plan, queue, stack, o);
          stack := stack[..|stack| - 1];
          fs := fs[f := fs[f].(status := End)];
        }
      }
    }

    /** Queues every output that is not over. */
    method Restart(outputs: seq<nat>, queue0: seq<nat>) returns (queue: seq<nat>)
      requires Inv(fs, plan, queue0, [], 0)
      requires forall k :: 0 <= k < |outputs| ==> outputs[k] < |fs| && fs[outputs[k]].op.MemoryOutput?
      modifies this`fs
      ensures Inv(fs, plan, queue, [], 0) && InForest(fs, plan) && InForest(old(fs), plan) && Kept(old(fs), fs, plan)
      ensures (fs == old(fs) && queue == queue0) || Below(old(fs), fs, plan)
      ensures forall k :: 0 <= k < |outputs| ==> fs[outputs[k]].status == End || outputs[k] in queue
    {
      hide Inv, Kept, Future, Work, Running, Idle, Below;
      ghost var fs0 := fs;
      KeptAtStart(fs, plan, queue0, []);
      queue := queue0;
      for k := 0 to |outputs|
        invariant Inv(fs, plan, queue, [], 0) && InForest(fs0, plan) && InForest(fs, plan) && Kept(fs0, fs, plan)
        invariant (fs == fs0 && queue == queue0) || Below(fs0, fs, plan)
        invariant |fs| == |fs0| && forall i :: 0 <= i < |fs| ==> fs[i].op == fs0[i].op
        invariant forall i :: 0 <= i < k ==> fs[outputs[i]].status == End || outputs[i] in queue
      {
        var output := outputs[k];
        QueuedIfToProcess(fs, plan, queue, output);
        if fs[output].status != End && fs[output].status != ToProcess {
          RestartOne(fs0, fs, plan, queue, output);
          BelowTransitive(fs0, fs, fs[output := fs[output].(status := ToProcess)], plan);
          queue := queue + [output];
          fs := fs[output := fs[output].(status := ToProcess)];
        }
      }
    }

    /** The rounds of run(), from a queue that is empty only if every output is over. */
    method Rounds(outputs: seq<nat>, queue0: seq<nat>)
      requires Inv(fs, plan, queue0, [], 0)
      requires forall k :: 0 <= k < |outputs| ==> outputs[k] < |fs| && fs[outputs[k]].op.MemoryOutput?
      requires queue0 == [] ==> forall k :: 0 <= k < |outputs| ==> fs[outputs[k]].status == End
      modifies this`fs
      ensures Inv(fs, plan, [], [], 0) && InForest(fs, plan) && InForest(old(fs), plan) && Kept(old(fs), fs, plan)
      ensures |fs| == |old(fs)| && forall k :: 0 <= k < |outputs| ==> fs[outputs[k]].status == End
    {
      hide Inv, Kept, Future, Work, Running, Idle;
      KeptAtStart(fs, plan, queue0, []);
      ghost var fs0 := fs;
      var queue, stack := queue0, [];
      while queue != []
        invariant Inv(fs, plan, queue, stack, |stack|) && InForest(fs0, plan) && InForest(fs, plan)
          && Kept(fs0, fs, plan)
        invariant queue == [] ==>
          stack == [] && forall k :: 0 <= k < |outputs| && outputs[k] < |fs| ==> fs[outputs[k]].status == End
        decreases Work(fs, plan), Running(fs), Idle(fs)
      {
        ghost var fs1 := fs;
        stack := BreadthFirst(queue, stack);
        ghost var fs2 := fs;
        queue, stack := Unwind(stack);
        ghost var fs3 := fs;
        KeptAtStart(fs3, plan, queue, stack);
        if queue == [] {
          KeptTransitive(fs0, fs1, fs2, plan);
          KeptTransitive(fs0, fs2, fs3, plan);
          KeptShape(fs0, fs3, plan);
          queue := Restart(outputs, []);
        }
        RoundDone(fs0, fs1, fs2, fs3, fs, plan);
      }
      KeptShape(fs0, fs, plan);
    }

    /** engine::run. False stands for the exception thrown when there is no output. */
    method Run() returns (ok: bool)
      requires Valid()
      modifies this
      ensures ok <==> old(fs) != []
      ensures |fs| == |old(fs)|
      ensures forall i :: 0 <= i < |fs| && old(fs)[i].op.MemoryOutput? ==>
        fs[i].op == MemoryOutput(old(fs)[i].op.values + Future(old(fs), plan, i))
    {
      hide Inv, Kept, Future;
      ghost var fsOld := fs;
      BuildGraph();
      ShapeKeepsForest(fsOld, fs, plan);
      ghost var fs0 := fs;
      var outputs := FindOutputs();
      if outputs == [] {
        if fs != [] { var o := SomeOutput(fs, plan, 0); }
        return false;
      }
      assert outputs[0] < |fs|;
      StartsIdle(fs, plan);
      KeptAtStart(fs, plan, [], []);
      var queue := Restart(outputs, []);
      ghost var fs1 := fs;
      KeptShape(fs0, fs, plan);
      Rounds(outputs, queue);
      KeptTransitive(fs0, fs1, fs, plan);
      forall i | 0 <= i < |fs0| && fs0[i].op.MemoryOutput?
        ensures fs[i].op == MemoryOutput(fsOld[i].op.values + Future(fsOld, plan, i))
      {
        AllDelivered(fs0, fs, plan, i);
        StatusesAreIrrelevant(fsOld, fs0, plan, i);
      }
      return true;
    }
  }
}
