/** What each hpda operator computes over whole streams, stated without its process() loop. */
module OperatorMeaning {
  import opened StreamOps
  import opened Dataflow
  import opened Lists

  // ----- sources, filter, concat, output -----

  function Kept(keep: Row -> bool, s: seq<Row>): seq<Row> {
    if s == [] then [] else (if keep(s[0]) then [s[0]] else []) + Kept(keep, s[1..])
  }

  /** Which rows these are: index by index, in order, all that pass and no other. */
  lemma {:induction false} KeptFrom(keep: Row -> bool, s: seq<Row>) returns (at: seq<nat>)
    decreases |s|
    ensures |at| == |Kept(keep, s)|
    ensures forall i :: 0 <= i < |at| ==> at[i] < |s| && Kept(keep, s)[i] == s[at[i]] && keep(s[at[i]])
    ensures forall i, j :: 0 <= i < j < |at| ==> at[i] < at[j]
    ensures forall n :: 0 <= n < |s| && keep(s[n]) ==> n in at
  {
    at := [];
    if s != [] {
      var m := |s| - 1;
      var front := KeptFrom(keep, s[..m]);
      at := front + if keep(s[m]) then [m] else [];
      KeptLast(keep, s);
      hide Kept;
      forall n | 0 <= n < |s| && keep(s[n]) ensures n in at {
        if n < m { assert s[..m][n] == s[n]; }
      }
    }
  }

  lemma KeptLast(keep: Row -> bool, s: seq<Row>)
    requires s != []
    ensures var m := |s| - 1; Kept(keep, s) == Kept(keep, s[..m]) + if keep(s[m]) then [s[m]] else []
  {
    var m := |s| - 1;
    KeptAppends(keep, s[..m], [s[m]]);
    KeptFirst(keep, s[m], []);
    assert s == s[..m] + [s[m]] && [s[m]] + [] == [s[m]];
  }

  /** Where a row of a list of lists stands */
  datatype Place = Place(list: nat, index: nat)

  predicate Precedes(p: Place, q: Place) { p.list < q.list || (p.list == q.list && p.index < q.index) }

  /** The same over the lists of all sources: every row that passes once, by source and then by index. */
  lemma {:induction false} KeptPlaces(keep: Row -> bool, ins: Streams) returns (at: seq<Place>)
    ensures |at| == |Kept(keep, Flatten(ins))|
    ensures forall i :: 0 <= i < |at| ==>
      && at[i].list < |ins| && at[i].index < |ins[at[i].list]|
      && Kept(keep, Flatten(ins))[i] == ins[at[i].list][at[i].index] && keep(ins[at[i].list][at[i].index])
    ensures forall i, j :: 0 <= i < j < |at| ==> Precedes(at[i], at[j])
    ensures forall k: nat, n: nat :: k < |ins| && n < |ins[k]| && keep(ins[k][n]) ==> Place(k, n) in at
    decreases |ins|
  {
    at := [];
    if ins != [] {
      var m := |ins| - 1;
      var front := KeptPlaces(keep, ins[..m]);
      var last := KeptFrom(keep, ins[m]);
      FlattenLast(ins);
      KeptAppends(keep, Flatten(ins[..m]), ins[m]);
      var more := seq(|last|, i requires 0 <= i < |last| => Place(m, last[i]));
      at := front + more;
      hide Kept, Flatten;
      forall n: nat | n < |ins[m]| && keep(ins[m][n]) ensures Place(m, n) in more {
        var i :| 0 <= i < |last| && last[i] == n;
        assert more[i] == Place(m, n);
      }
      forall k: nat, n: nat | k < m && n < |ins[k]| && keep(ins[k][n]) ensures Place(k, n) in front {
        assert ins[..m][k] == ins[k];
      }
    }
  }

  lemma {:induction false} KeptAppends(keep: Row -> bool, a: seq<Row>, b: seq<Row>)
    ensures Kept(keep, a + b) == Kept(keep, a) + Kept(keep, b)
  {
    if a == [] {
      assert a + b == b;
    } else {
      KeptAppends(keep, a[1..], b);
      KeptFirst(keep, a[0], a[1..]);
      KeptFirst(keep, a[0], a[1..] + b);
      hide Kept;
      assert a == [a[0]] + a[1..] && a + b == [a[0]] + (a[1..] + b);
    }
  }

  lemma KeptFirst(keep: Row -> bool, x: Row, s: seq<Row>)
    ensures Kept(keep, [x] + s) == (if keep(x) then [x] else []) + Kept(keep, s)
  {
    assert ([x] + s)[1..] == s;
  }

  lemma StuckAtEnd(data: seq<Row>, index: int)
    requires -1 <= index && |data| <= index + 1
    ensures !Progress(RawData(data, index), Step(RawData(data, index), HeadsOf([])))
  {
  }

  lemma {:induction false} RawDataDelivers(data: seq<Row>, index: int)
    requires -1 <= index
    ensures Denote(RawData(data, index), []) == if index + 1 < |data| then data[index + 1..] else []
    decreases |data| - index
  {
    hide Denote;
    Dataflow.DenoteStep(RawData(data, index), [], HeadsOf([]));
    var o := Step(RawData(data, index), HeadsOf([]));
    assert Advance([], o.consumed) == [];
    if index + 1 < |data| {
      RawDataDelivers(data, index + 1);
      assert data[index + 1..] == [data[index + 1]] + data[index + 2..];
    } else {
      StuckAtEnd(data, index);
    }
  }

  lemma {:induction false} FilterKeeps(keep: Row -> bool, out: Row, s: seq<Row>)
    ensures Denote(Filter(keep, out), [s]) == Kept(keep, s)
    decreases s
  {
    var o := Step(Filter(keep, out), HeadsOf([s]));
    if s != [] {
      assert o.consumed[0];
      assert Advance([s], o.consumed) == [s[1..]];
      FilterKeeps(keep, if keep(s[0]) then s[0] else out, s[1..]);
    }
  }

  lemma {:induction false} OutputCollects(values: seq<Row>, s: seq<Row>)
    ensures Denote(MemoryOutput(values), [s]) == s
    decreases s
  {
    var o := Step(MemoryOutput(values), HeadsOf([s]));
    if s != [] {
      assert o.consumed[0];
      assert Advance([s], o.consumed) == [s[1..]];
      OutputCollects(values + [s[0]], s[1..]);
    }
  }

  lemma {:induction false} FlattenEmpty(a: Streams)
    requires forall k :: 0 <= k < |a| ==> a[k] == []
    ensures Flatten(a) == []
  {
    if a != [] { FlattenEmpty(a[1..]); }
  }

  /** Concat delivers its inputs one after the other, from the one it stands at. */
  lemma {:induction false} ConcatFlattens(next: nat, out: Row, ins: Streams)
    requires 1 <= |ins| && next <= |ins|
    ensures Denote(Concat(next, out), ins) == Flatten(ins[next..])
    decreases TotalLength(ins)
  {
    hide Denote, Flatten;
    var heads := HeadsOf(ins);
    var i := FirstWithValue(heads, next);
    forall k | next <= k < i ensures ins[k] == [] { assert heads[k].None?; }
    assert ins[next..] == ins[next..i] + ins[i..];
    FlattenSplit(ins[next..i], ins[i..]);
    FlattenEmpty(ins[next..i]);
    ConcatOnce(next, out, ins);
    if i < |ins| {
      var marks := NoneConsumed(|ins|)[i := true];
      assert marks[i];
      AdvanceShrinks(ins, marks);
      ConcatFlattens(i, ins[i][0], Advance(ins, marks));
      FlattenAfterTake(ins, i);
    } else {
      assert ins[i..] == [];
      FlattenEmpty(ins[i..]);
    }
  }

  lemma ConcatOnce(next: nat, out: Row, ins: Streams)
    requires 1 <= |ins| && next <= |ins|
    ensures var i := FirstWithValue(HeadsOf(ins), next);
      Denote(Concat(next, out), ins) == if i < |ins|
        then [ins[i][0]] + Denote(Concat(i, ins[i][0]), Advance(ins, NoneConsumed(|ins|)[i := true])) else []
  {
    var o := Step(Concat(next, out), HeadsOf(ins));
    var i := FirstWithValue(HeadsOf(ins), next);
    if i < |ins| { assert o.consumed[i]; }
  }

  lemma FlattenAfterTake(ins: Streams, i: nat)
    requires i < |ins| && ins[i] != []
    ensures Flatten(ins[i..]) == [ins[i][0]] + Flatten(Advance(ins, NoneConsumed(|ins|)[i := true])[i..])
  {
    var rest := Advance(ins, NoneConsumed(|ins|)[i := true]);
    assert rest[i..][1..] == ins[i..][1..];
    assert ins[i] == [ins[i][0]] + ins[i][1..];
  }

  /** A memory_output on a filter on a concat of raw_data sources, all fresh. */
  ghost predicate FilterOverConcat(fs: seq<Functor>, o: nat) {
    && o < |fs| && fs[o].op.MemoryOutput? && |fs[o].preds| == 1 && fs[o].preds[0] < |fs|
    && var f := fs[o].preds[0];
    && fs[f].op.Filter? && !fs[f].hasValue && |fs[f].preds| == 1 && fs[f].preds[0] < |fs|
    && var c := fs[f].preds[0];
    && fs[c].op.Concat? && fs[c].op.next == 0 && !fs[c].hasValue && 1 <= |fs[c].preds|
    && FreshSources(fs, c)
  }

  function SourceLists(fs: seq<Functor>, c: nat): Streams
    requires c < |fs| && forall k :: 0 <= k < |fs[c].preds| ==> fs[c].preds[k] < |fs| && fs[fs[c].preds[k]].op.RawData?
  {
    seq(|fs[c].preds|, k requires 0 <= k < |fs[c].preds| => fs[fs[c].preds[k]].op.data)
  }

  lemma FilterOverConcatMeans(fs: seq<Functor>, plan: Plan, o: nat)
    requires InForest(fs, plan) && FilterOverConcat(fs, o)
    ensures var f := fs[o].preds[0];
      Future(fs, plan, o) == Kept(fs[f].op.keep, Flatten(SourceLists(fs, fs[f].preds[0])))
  {
    hide Denote;
    var f := fs[o].preds[0];
    var c := fs[f].preds[0];
    FreshConcatMeans(fs, plan, c);
    var rows := Flatten(SourceLists(fs, c));
    assert Owed(fs, plan, c) == Future(fs, plan, c);
    assert Inputs(fs, plan, f) == [rows];
    FilterKeeps(fs[f].op.keep, fs[f].op.out, rows);
    assert Owed(fs, plan, f) == Future(fs, plan, f) == Kept(fs[f].op.keep, rows);
    assert Inputs(fs, plan, o) == [Kept(fs[f].op.keep, rows)];
    OutputCollects(fs[o].op.values, Kept(fs[f].op.keep, rows));
  }

  /** The same, row by row and without a word on how they are computed. */
  lemma FilterOverConcatRows(fs: seq<Functor>, plan: Plan, o: nat) returns (at: seq<Place>)
    requires InForest(fs, plan) && FilterOverConcat(fs, o)
    ensures |at| == |Future(fs, plan, o)|
    ensures var keep, sources := fs[fs[o].preds[0]].op.keep, fs[fs[fs[o].preds[0]].preds[0]].preds;
      && (forall i :: 0 <= i < |at| ==>
        && at[i].list < |sources| && at[i].index < |fs[sources[at[i].list]].op.data|
        && Future(fs, plan, o)[i] == fs[sources[at[i].list]].op.data[at[i].index] && keep(Future(fs, plan, o)[i]))
      && (forall k: nat, n: nat :: k < |sources| && n < |fs[sources[k]].op.data| && keep(fs[sources[k]].op.data[n]) ==>
        Place(k, n) in at)
    ensures forall i, j :: 0 <= i < j < |at| ==> Precedes(at[i], at[j])
  {
    FilterOverConcatMeans(fs, plan, o);
    var keep, lists := fs[fs[o].preds[0]].op.keep, SourceLists(fs, fs[fs[o].preds[0]].preds[0]);
    hide Kept, Flatten, Future, InForest;
    at := KeptPlaces(keep, lists);
  }

  /** All inputs of f are raw_data sources that have shown nothing yet. */
  predicate FreshSources(fs: seq<Functor>, f: nat)
    requires f < |fs|
  {
    forall k :: 0 <= k < |fs[f].preds| ==>
      var r := fs[f].preds[k]; r < |fs| && fs[r].op.RawData? && fs[r].op.index == -1 && !fs[r].hasValue
  }

  lemma SourcesDeliver(fs: seq<Functor>, plan: Plan, f: nat)
    requires InForest(fs, plan) && f < |fs| && FreshSources(fs, f)
    ensures Inputs(fs, plan, f) == SourceLists(fs, f)
  {
    hide Denote;
    forall k | 0 <= k < |fs[f].preds| ensures Inputs(fs, plan, f)[k] == SourceLists(fs, f)[k] {
      var r := fs[f].preds[k];
      assert Inputs(fs, plan, r) == [];
      RawDataDelivers(fs[r].op.data, -1);
      assert fs[r].op == RawData(fs[r].op.data, -1);
      assert Owed(fs, plan, r) == Future(fs, plan, r) == fs[r].op.data;
    }
  }

  lemma FreshConcatMeans(fs: seq<Functor>, plan: Plan, c: nat)
    requires InForest(fs, plan) && c < |fs| && fs[c].op.Concat? && fs[c].op.next == 0 && 1 <= |fs[c].preds|
    requires FreshSources(fs, c)
    ensures Future(fs, plan, c) == Flatten(SourceLists(fs, c))
  {
    hide Denote;
    SourcesDeliver(fs, plan, c);
    ConcatFlattens(0, fs[c].op.out, SourceLists(fs, c));
    assert SourceLists(fs, c)[0..] == SourceLists(fs, c);
  }

  /** A memory_output on an operator that holds no value collects what the operator computes. */
  lemma OutputOn(fs: seq<Functor>, plan: Plan, o: nat)
    requires InForest(fs, plan) && o < |fs| && fs[o].op.MemoryOutput? && |fs[o].preds| == 1
    requires fs[o].preds[0] < |fs| && !fs[fs[o].preds[0]].hasValue
    ensures Future(fs, plan, o) == Future(fs, plan, fs[o].preds[0])
  {
    hide Denote;
    var u := fs[o].preds[0];
    assert Owed(fs, plan, u) == Future(fs, plan, u);
    assert Inputs(fs, plan, o) == [Future(fs, plan, u)];
    OutputCollects(fs[o].op.values, Future(fs, plan, u));
  }

  /** Why every functor must feed one successor only: once one of two successors has taken the value of a
      shared input, the other does not see it. */
  lemma SharedValueIsTaken(fs: seq<Functor>, f: nat, o: Outcome, fs': seq<Functor>, k: nat, g: nat, l: nat)
    requires f < |fs| && g < |fs| && f != g && Called(fs, f, o, fs') && k < |fs[f].preds| && l < |fs[g].preds|
    requires fs[f].preds[k] == fs[g].preds[l] < |fs| && fs[f].preds[k] != f && g !in fs[f].preds && o.consumed[k]
    requires forall i :: 0 <= i < |fs[g].preds| ==> fs[g].preds[i] < |fs|
    ensures fs'[g].preds == fs[g].preds && HeadsAt(fs', g)[l].None?
  {
  }
}
