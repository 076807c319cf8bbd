/** The ordered set operators on strictly ascending key streams: their output is given key by key,
    in ascending order, over exactly the keys in the union, the intersection, or the difference. */
module OrderedSets {
  import opened Dataflow
  import opened KeySets
  import opened OperatorMeaning
  import opened Options
  import opened StreamOps

  // ----- streams by key -----

  ghost predicate Ascending(trait_: Row -> Key, s: seq<Row>) {
    forall i, j :: 0 <= i < j < |s| ==> trait_(s[i]) < trait_(s[j])
  }

  ghost predicate AllAscending(traits: seq<Row -> Key>, ins: Streams) {
    |traits| == |ins| && forall k :: 0 <= k < |ins| ==> Ascending(traits[k], ins[k])
  }

  function KeysOf(trait_: Row -> Key, s: seq<Row>): set<Key> { set r | r in s :: trait_(r) }

  /** The row that carries a key in a stream. */
  function Find(trait_: Row -> Key, s: seq<Row>, key: Key): (r: Option<Row>)
    ensures r.Some? <==> key in KeysOf(trait_, s)
    ensures r.Some? ==> r.value in s && trait_(r.value) == key
  {
    if s == [] then None
    else if trait_(s[0]) == key then assert s[0] in s; Some(s[0])
    else
      assert forall r :: r in s <==> r == s[0] || r in s[1..];
      Find(trait_, s[1..], key)
  }

  /** The rows that carry a key, stream by stream. */
  function HeadsFor(traits: seq<Row -> Key>, ins: Streams, key: Key): (h: Heads)
    requires |traits| == |ins|
    ensures |h| == |ins|
  {
    seq(|ins|, k requires 0 <= k < |ins| => Find(traits[k], ins[k], key))
  }

  // ----- the three set operations -----

  datatype SetOp = U | I | D

  ghost function Wanted(kind: SetOp, traits: seq<Row -> Key>, ins: Streams): set<Key>
    requires |traits| == |ins| && 1 <= |ins|
  {
    match kind
    case U => set k, r | 0 <= k < |ins| && r in ins[k] :: traits[k](r)
    case I =>
      set r | r in ins[0] && (forall k :: 1 <= k < |ins| ==> traits[0](r) in KeysOf(traits[k], ins[k])) :: traits[0](r)
    case D =>
      set r | r in ins[0] && (forall k :: 1 <= k < |ins| ==> traits[0](r) !in KeysOf(traits[k], ins[k])) :: traits[0](r)
  }

  /** The row shown for a key: the previous row overlaid with the rows that carry the key
      (union: the first of them; intersection: all; difference: the one of stream 0). */
  function Laid(kind: SetOp, out: Row, heads: Heads): Row {
    match kind
    case U => var i := FirstWithValue(heads, 0); if i < |heads| then out + heads[i].value else out
    case I => if AllHeads(heads) then Overlay(out, heads, |heads|) else out
    case D => if heads != [] && heads[0].Some? then out + heads[0].value else out
  }

  ghost function ByKey(kind: SetOp, traits: seq<Row -> Key>, ins: Streams, out: Row, keys: seq<Key>): seq<Row>
    requires |traits| == |ins|
    decreases keys
  {
    if keys == [] then []
    else
      var row := Laid(kind, out, HeadsFor(traits, ins, keys[0]));
      [row] + ByKey(kind, traits, ins, row, keys[1..])
  }

  function Operator(kind: SetOp, traits: seq<Row -> Key>, out: Row): Op {
    match kind
    case U => Union(traits, out)
    case I => Intersection(traits, out)
    case D => Difference(traits, out)
  }

  /** The key an operator compares next, if it can go on. */
  ghost function Current(kind: SetOp, traits: seq<Row -> Key>, ins: Streams): Option<Key>
    requires |traits| == |ins|
  {
    var heads := HeadsOf(ins);
    match MinHead(traits, heads, |heads|)
    case None => None
    case Some(m) =>
      if (kind.I? && !AllHeads(heads)) || (kind.D? && heads[0].None?) then None
      else Some(traits[m](heads[m].value))
  }

  /** The streams without one key. */
  function Without(traits: seq<Row -> Key>, ins: Streams, key: Key): (r: Streams)
    requires |traits| == |ins|
    ensures |r| == |ins|
  {
    Advance(ins, Matching(traits, HeadsOf(ins), key))
  }

  lemma DroppedHead(trait_: Row -> Key, s: seq<Row>, key: Key)
    requires Ascending(trait_, s) && forall r :: r in s ==> key <= trait_(r)
    ensures var s' := if s != [] && trait_(s[0]) == key then s[1..] else s;
      && Ascending(trait_, s') && KeysOf(trait_, s') == KeysOf(trait_, s) - {key}
      && SameElsewhere(trait_, s, s', key)
      && (key in KeysOf(trait_, s) <==> s != [] && trait_(s[0]) == key)
      && (s != [] && trait_(s[0]) == key ==> Find(trait_, s, key) == Some(s[0]))
  {
    var s' := if s != [] && trait_(s[0]) == key then s[1..] else s;
    if s != [] {
      assert s == [s[0]] + s[1..] && s[0] in s;
      assert forall i :: 1 <= i < |s| ==> trait_(s[i]) > key;
    }
    KeysOfDropped(trait_, s, s', key);
  }

  lemma KeysOfDropped(trait_: Row -> Key, s: seq<Row>, s': seq<Row>, key: Key)
    requires s' == if s != [] && trait_(s[0]) == key then s[1..] else s
    requires forall i :: 0 <= i < |s'| ==> trait_(s'[i]) != key
    ensures KeysOf(trait_, s') == KeysOf(trait_, s) - {key}
  {
    forall x ensures x in KeysOf(trait_, s') <==> x in KeysOf(trait_, s) - {key} {
      if x in KeysOf(trait_, s) && x != key {
        var r :| r in s && trait_(r) == x;
        assert r in s';
      }
    }
  }

  /** The compared key is at most every key that is left. */
  lemma CurrentIsLeast(kind: SetOp, traits: seq<Row -> Key>, ins: Streams)
    requires AllAscending(traits, ins) && Current(kind, traits, ins).Some?
    ensures var key := Current(kind, traits, ins).value;
      && (forall k, r :: 0 <= k < |ins| && r in ins[k] ==> key <= traits[k](r))
      && (exists k :: 0 <= k < |ins| && ins[k] != [] && traits[k](ins[k][0]) == key)
  {
    var key := Current(kind, traits, ins).value;
    var heads := HeadsOf(ins);
    var m := MinHead(traits, heads, |heads|).value;
    forall k, r | 0 <= k < |ins| && r in ins[k] ensures key <= traits[k](r) {
      assert heads[k].Some? && heads[k].value == ins[k][0];
      assert Ascending(traits[k], ins[k]);
    }
    assert ins[m] != [] && traits[m](ins[m][0]) == key;
  }

  lemma StreamsWithout(kind: SetOp, traits: seq<Row -> Key>, ins: Streams, key: Key)
    requires AllAscending(traits, ins)
    requires forall k, r :: 0 <= k < |ins| && r in ins[k] ==> key <= traits[k](r)
    ensures var ins' := Without(traits, ins, key);
      && AllAscending(traits, ins')
      && (forall k :: 0 <= k < |ins| ==> KeysOf(traits[k], ins'[k]) == KeysOf(traits[k], ins[k]) - {key})
      && (forall x :: x != key ==> HeadsFor(traits, ins', x) == HeadsFor(traits, ins, x))
  {
    var ins' := Without(traits, ins, key);
    forall k | 0 <= k < |ins|
      ensures Ascending(traits[k], ins'[k]) && KeysOf(traits[k], ins'[k]) == KeysOf(traits[k], ins[k]) - {key}
      ensures SameElsewhere(traits[k], ins[k], ins'[k], key)
    {
      StreamWithout(traits, ins, key, k);
    }
    hide Ascending, KeysOf, Find;
    forall x | x != key ensures HeadsFor(traits, ins', x) == HeadsFor(traits, ins, x) {
      forall k | 0 <= k < |ins| ensures HeadsFor(traits, ins', x)[k] == HeadsFor(traits, ins, x)[k] {
        assert SameElsewhere(traits[k], ins[k], ins'[k], key);
      }
    }
  }

  ghost predicate SameElsewhere(trait_: Row -> Key, s: seq<Row>, s': seq<Row>, key: Key) {
    forall x :: x != key ==> Find(trait_, s', x) == Find(trait_, s, x)
  }

  lemma StreamWithout(traits: seq<Row -> Key>, ins: Streams, key: Key, k: nat)
    requires AllAscending(traits, ins) && k < |ins| && forall r :: r in ins[k] ==> key <= traits[k](r)
    ensures var s := Without(traits, ins, key)[k];
      && Ascending(traits[k], s) && KeysOf(traits[k], s) == KeysOf(traits[k], ins[k]) - {key}
      && SameElsewhere(traits[k], ins[k], s, key)
  {
    hide Ascending, KeysOf, Find, SameElsewhere;
    StreamAt(traits, ins, key, k);
    DroppedHead(traits[k], ins[k], key);
  }

  lemma StreamAt(traits: seq<Row -> Key>, ins: Streams, key: Key, k: nat)
    requires |traits| == |ins| && k < |ins|
    ensures Without(traits, ins, key)[k] == if ins[k] != [] && traits[k](ins[k][0]) == key then ins[k][1..] else ins[k]
  {
  }

  /** Membership in Wanted, by the key sets of the streams. */
  lemma WantedByKeys(kind: SetOp, traits: seq<Row -> Key>, ins: Streams, x: Key)
    requires |traits| == |ins| && 1 <= |ins|
    ensures x in Wanted(kind, traits, ins) <==>
      match kind
      case U => exists k :: 0 <= k < |ins| && x in KeysOf(traits[k], ins[k])
      case I => forall k :: 0 <= k < |ins| ==> x in KeysOf(traits[k], ins[k])
      case D => x in KeysOf(traits[0], ins[0]) && forall k :: 1 <= k < |ins| ==> x !in KeysOf(traits[k], ins[k])
  {
    match kind
    case U =>
      if k :| 0 <= k < |ins| && x in KeysOf(traits[k], ins[k]) {
        var r :| r in ins[k] && traits[k](r) == x;
      }
    case _ =>
  }

  lemma WantedWithout(kind: SetOp, traits: seq<Row -> Key>, ins: Streams, key: Key)
    requires AllAscending(traits, ins) && 1 <= |ins|
    requires forall k, r :: 0 <= k < |ins| && r in ins[k] ==> key <= traits[k](r)
    ensures Wanted(kind, traits, Without(traits, ins, key)) == Wanted(kind, traits, ins) - {key}
  {
    var ins' := Without(traits, ins, key);
    StreamsWithout(kind, traits, ins, key);
    forall x ensures x in Wanted(kind, traits, ins') <==> x in Wanted(kind, traits, ins) - {key} {
      WantedByKeys(kind, traits, ins, x);
      WantedByKeys(kind, traits, ins', x);
      assert x in KeysOf(traits[0], ins'[0]) <==> x in KeysOf(traits[0], ins[0]) - {key};
    }
  }

  /** An operator that cannot compare is over, and no key is wanted any more. */
  lemma NoKey(kind: SetOp, traits: seq<Row -> Key>, out: Row, ins: Streams)
    requires |traits| == |ins| && 2 <= |ins| && Current(kind, traits, ins).None?
    ensures Denote(Operator(kind, traits, out), ins) == [] && Wanted(kind, traits, ins) == {}
  {
    hide Step;
    StepIdle(Operator(kind, traits, out), HeadsOf(ins));
    Dataflow.DenoteStep(Operator(kind, traits, out), ins, HeadsOf(ins));
    NothingWanted(kind, traits, ins);
  }

  /** The whole run of the operator */
  function Whole(kind: SetOp, traits: seq<Row -> Key>, out: Row, ins: Streams): seq<Row>
    requires |traits| == |ins|
  {
    Denote(Operator(kind, traits, out), ins)
  }

  /** One unfolding: the compared key is shown if it is wanted, and leaves every stream. */
  lemma OneKey(kind: SetOp, traits: seq<Row -> Key>, out: Row, ins: Streams, key: Key, ins': Streams, row: Row)
    requires AllAscending(traits, ins) && 2 <= |ins| && Current(kind, traits, ins) == Some(key)
    requires ins' == Without(traits, ins, key) && row == Laid(kind, out, HeadsFor(traits, ins, key))
    ensures TotalLength(ins') < TotalLength(ins)
    ensures Whole(kind, traits, out, ins) ==
      if key in Wanted(kind, traits, ins) then [row] + Whole(kind, traits, row, ins')
        else Whole(kind, traits, out, ins')
  {
    hide Denote, Step, Wanted, Laid, Current, AllAscending, HeadsFor, Matching, TotalLength;
    StepOnCurrent(kind, traits, out, ins);
    KeyLeaves(kind, traits, ins, key);
    Dataflow.DenoteStep(Operator(kind, traits, out), ins, HeadsOf(ins));
  }

  lemma KeyLeaves(kind: SetOp, traits: seq<Row -> Key>, ins: Streams, key: Key)
    requires AllAscending(traits, ins) && Current(kind, traits, ins) == Some(key)
    ensures TotalLength(Without(traits, ins, key)) < TotalLength(ins)
  {
    CurrentIsLeast(kind, traits, ins);
    var k :| 0 <= k < |ins| && ins[k] != [] && traits[k](ins[k][0]) == key;
    var marks := Matching(traits, HeadsOf(ins), key);
    assert marks[k];
    AdvanceShrinks(ins, marks);
  }

  /** A key below every row is the least wanted one, if it is wanted. */
  lemma WantedAbove(kind: SetOp, traits: seq<Row -> Key>, ins: Streams, key: Key)
    requires |traits| == |ins| && 1 <= |ins|
    requires forall k, r :: 0 <= k < |ins| && r in ins[k] ==> key <= traits[k](r)
    ensures forall x :: x in Wanted(kind, traits, ins) ==> key <= x
    ensures key in Wanted(kind, traits, ins) ==> Least(Wanted(kind, traits, ins)) == key
  {
    forall x | x in Wanted(kind, traits, ins) ensures key <= x {
      WantedByKeys(kind, traits, ins, x);
      var k :| 0 <= k < |ins| && x in KeysOf(traits[k], ins[k]);
      var r :| r in ins[k] && traits[k](r) == x;
    }
  }

  lemma NothingWanted(kind: SetOp, traits: seq<Row -> Key>, ins: Streams)
    requires |traits| == |ins| && 2 <= |ins| && Current(kind, traits, ins).None?
    ensures Wanted(kind, traits, ins) == {}
  {
    var heads := HeadsOf(ins);
    if kind.I? && !AllHeads(heads) {
      var k :| 0 <= k < |heads| && heads[k].None?;
      assert KeysOf(traits[k], ins[k]) == {};
    } else if MinHead(traits, heads, |heads|).None? {
      assert forall k :: 0 <= k < |heads| ==> heads[k].None?;
      assert ins[0] == [] by { assert heads[0].None?; }
      forall k | 0 <= k < |ins| ensures ins[k] == [] { assert heads[k].None?; }
    }
  }

  /** The compared key, stream by stream: carried exactly where it is the head. */
  lemma CurrentAtHeads(kind: SetOp, traits: seq<Row -> Key>, ins: Streams, key: Key)
    requires AllAscending(traits, ins) && 1 <= |ins| && Current(kind, traits, ins) == Some(key)
    ensures forall k :: 0 <= k < |ins| ==>
      && (key in KeysOf(traits[k], ins[k]) <==> HasKey(traits, HeadsOf(ins), k, key))
      && HeadsFor(traits, ins, key)[k] == if HasKey(traits, HeadsOf(ins), k, key) then HeadsOf(ins)[k] else None
  {
    CurrentIsLeast(kind, traits, ins);
    forall k | 0 <= k < |ins|
      ensures HeadsFor(traits, ins, key)[k] == if HasKey(traits, HeadsOf(ins), k, key) then HeadsOf(ins)[k] else None
      ensures key in KeysOf(traits[k], ins[k]) <==> HasKey(traits, HeadsOf(ins), k, key)
    {
      DroppedHead(traits[k], ins[k], key);
    }
  }

  ghost predicate StepsOn(kind: SetOp, traits: seq<Row -> Key>, out: Row, ins: Streams, key: Key)
    requires |traits| == |ins| && 2 <= |ins|
  {
    var wanted := key in Wanted(kind, traits, ins);
    var row := Laid(kind, out, HeadsFor(traits, ins, key));
    Step(Operator(kind, traits, out), HeadsOf(ins))
      == Outcome(Operator(kind, traits, if wanted then row else out), wanted, Matching(traits, HeadsOf(ins), key))
  }

  lemma StepOnCurrentUnion(traits: seq<Row -> Key>, out: Row, ins: Streams)
    requires AllAscending(traits, ins) && 2 <= |ins| && Current(U, traits, ins).Some?
    ensures StepsOn(U, traits, out, ins, Current(U, traits, ins).value)
  {
    var key, heads := Current(U, traits, ins).value, HeadsOf(ins);
    var m := MinHead(traits, heads, |heads|).value;
    var at := HeadsFor(traits, ins, key);
    CurrentAtHeads(U, traits, ins, key);
    WantedByKeys(U, traits, ins, key);
    hide MinHead, Wanted, KeysOf;
    StepCases(Union(traits, out), heads);
    assert HasKey(traits, heads, m, key);
    assert FirstWithValue(at, 0) == m;
  }

  lemma StepOnCurrentIntersection(traits: seq<Row -> Key>, out: Row, ins: Streams)
    requires AllAscending(traits, ins) && 2 <= |ins| && Current(I, traits, ins).Some?
    ensures StepsOn(I, traits, out, ins, Current(I, traits, ins).value)
  {
    var key, heads := Current(I, traits, ins).value, HeadsOf(ins);
    var m := MinHead(traits, heads, |heads|).value;
    var at := HeadsFor(traits, ins, key);
    CurrentAtHeads(I, traits, ins, key);
    WantedByKeys(I, traits, ins, key);
    hide MinHead, Wanted, KeysOf;
    StepCases(Intersection(traits, out), heads);
    assert HasKey(traits, heads, m, key);
    assert AllEqual(traits, heads) <==> forall k :: 0 <= k < |ins| ==> HasKey(traits, heads, k, key);
    if AllEqual(traits, heads) { assert at == heads; }
  }

  lemma StepOnCurrentDifference(traits: seq<Row -> Key>, out: Row, ins: Streams)
    requires AllAscending(traits, ins) && 2 <= |ins| && Current(D, traits, ins).Some?
    ensures StepsOn(D, traits, out, ins, Current(D, traits, ins).value)
  {
    var key, heads := Current(D, traits, ins).value, HeadsOf(ins);
    var m := MinHead(traits, heads, |heads|).value;
    var at := HeadsFor(traits, ins, key);
    CurrentAtHeads(D, traits, ins, key);
    WantedByKeys(D, traits, ins, key);
    hide MinHead, Wanted, KeysOf;
    StepCases(Difference(traits, out), heads);
    assert HasKey(traits, heads, m, key);
    assert forall k :: 0 <= k < |ins| ==> Matching(traits, heads, key)[k] == HasKey(traits, heads, k, key);
    assert (exists k :: 1 <= k < |heads| && Matching(traits, heads, key)[k])
      <==> exists k :: 1 <= k < |ins| && HasKey(traits, heads, k, key);
  }

  /** What Step does on the compared key. */
  lemma StepOnCurrent(kind: SetOp, traits: seq<Row -> Key>, out: Row, ins: Streams)
    requires AllAscending(traits, ins) && 2 <= |ins| && Current(kind, traits, ins).Some?
    ensures StepsOn(kind, traits, out, ins, Current(kind, traits, ins).value)
  {
    hide StepsOn;
    match kind
    case U => StepOnCurrentUnion(traits, out, ins);
    case I => StepOnCurrentIntersection(traits, out, ins);
    case D => StepOnCurrentDifference(traits, out, ins);
  }

  lemma {:induction false} SameKeysSameRows(kind: SetOp, traits: seq<Row -> Key>, ins: Streams, ins': Streams,
                                            out: Row, keys: seq<Key>)
    requires |traits| == |ins| == |ins'|
    requires forall i :: 0 <= i < |keys| ==> HeadsFor(traits, ins', keys[i]) == HeadsFor(traits, ins, keys[i])
    ensures ByKey(kind, traits, ins', out, keys) == ByKey(kind, traits, ins, out, keys)
    decreases keys
  {
    if keys != [] {
      SameKeysSameRows(kind, traits, ins, ins', Laid(kind, out, HeadsFor(traits, ins, keys[0])), keys[1..]);
    }
  }

  /** The main result: each operator shows exactly the wanted keys, once each, in ascending order. */
  lemma {:induction false} SetOperatorByKey(kind: SetOp, traits: seq<Row -> Key>, out: Row, ins: Streams)
    requires AllAscending(traits, ins) && 2 <= |ins|
    ensures Denote(Operator(kind, traits, out), ins)
      == ByKey(kind, traits, ins, out, InOrder(Wanted(kind, traits, ins)))
    decreases TotalLength(ins)
  {
    hide Denote, Step, Current, Laid, KeysOf, Wanted, HeadsFor, Without;
    match Current(kind, traits, ins)
    case None =>
      NoKey(kind, traits, out, ins);
    case Some(key) =>
      var ins' := Without(traits, ins, key);
      var wanted, wanted' := Wanted(kind, traits, ins), Wanted(kind, traits, ins');
      CurrentIsLeast(kind, traits, ins);
      OneKey(kind, traits, out, ins, key, ins', Laid(kind, out, HeadsFor(traits, ins, key)));
      StreamsWithout(kind, traits, ins, key);
      WantedWithout(kind, traits, ins, key);
      WantedAbove(kind, traits, ins, key);
      var row := if key in wanted then Laid(kind, out, HeadsFor(traits, ins, key)) else out;
      SetOperatorByKey(kind, traits, row, ins');
      SameKeysSameRows(kind, traits, ins, ins', row, InOrder(wanted'));
      if key !in wanted { assert wanted' == wanted; }
  }

  // ----- what is shown, row by row -----

  lemma {:induction false} OneRowPerKey(kind: SetOp, traits: seq<Row -> Key>, ins: Streams, out: Row, keys: seq<Key>)
    requires |traits| == |ins|
    ensures |ByKey(kind, traits, ins, out, keys)| == |keys|
    decreases keys
  {
    if keys != [] { OneRowPerKey(kind, traits, ins, Laid(kind, out, HeadsFor(traits, ins, keys[0])), keys[1..]); }
  }

  lemma {:induction false} InOrderSize(s: set<Key>)
    ensures |InOrder(s)| == |s|
    decreases |s|
  {
    if s != {} { InOrderSize(s - {Least(s)}); }
  }

  /** The row agrees with the rows that carry its key: union with the first of them, difference with the one
      of stream 0, intersection with each of them, on columns that no later one has. */
  ghost predicate Agrees(kind: SetOp, row: Row, heads: Heads) {
    match kind
    case U => FirstWithValue(heads, 0) < |heads| ==> Covers(row, heads[FirstWithValue(heads, 0)].value)
    case D => heads != [] && heads[0].Some? ==> Covers(row, heads[0].value)
    case I => AllHeads(heads) ==> LaidOver(row, heads, |heads|)
  }

  predicate Covers(row: Row, part: Row) { forall c :: c in part ==> c in row && row[c] == part[c] }

  ghost predicate LaidOver(row: Row, heads: Heads, n: nat)
    requires n <= |heads| && AllHeads(heads)
  {
    forall j, c :: 0 <= j < n && c in heads[j].value && (forall l :: j < l < n ==> c !in heads[l].value) ==>
      c in row && row[c] == heads[j].value[c]
  }

  lemma {:induction false} OverlayLays(out: Row, heads: Heads, n: nat)
    requires n <= |heads| && AllHeads(heads)
    ensures LaidOver(Overlay(out, heads, n), heads, n)
  {
    if n != 0 {
      OverlayLays(out, heads, n - 1);
      var row, front := Overlay(out, heads, n), Overlay(out, heads, n - 1);
      forall j, c | 0 <= j < n && c in heads[j].value && (forall l :: j < l < n ==> c !in heads[l].value)
        ensures c in row && row[c] == heads[j].value[c]
      {
        if j < n - 1 { assert c !in heads[n - 1].value && c in front && front[c] == heads[j].value[c]; }
      }
    }
  }

  lemma LaidAgrees(kind: SetOp, out: Row, heads: Heads)
    ensures Agrees(kind, Laid(kind, out, heads), heads)
  {
    if kind.I? && AllHeads(heads) { OverlayLays(out, heads, |heads|); }
  }

  lemma {:induction false} RowAgrees(kind: SetOp, traits: seq<Row -> Key>, ins: Streams, out: Row, keys: seq<Key>,
                                     i: nat)
    requires |traits| == |ins| && i < |keys|
    ensures |ByKey(kind, traits, ins, out, keys)| == |keys|
    ensures Agrees(kind, ByKey(kind, traits, ins, out, keys)[i], HeadsFor(traits, ins, keys[i]))
    decreases i
  {
    hide Agrees, Laid, HeadsFor;
    OneRowPerKey(kind, traits, ins, out, keys);
    var row := Laid(kind, out, HeadsFor(traits, ins, keys[0]));
    LaidAgrees(kind, out, HeadsFor(traits, ins, keys[0]));
    if i > 0 { RowAgrees(kind, traits, ins, row, keys[1..], i - 1); }
  }

  // ----- driven by the engine -----

  /** A memory_output on a set operator on fresh raw_data sources. */
  ghost predicate SetOverSources(fs: seq<Functor>, o: nat, kind: SetOp, traits: seq<Row -> Key>, out: Row) {
    && o < |fs| && fs[o].op.MemoryOutput? && |fs[o].preds| == 1 && fs[o].preds[0] < |fs|
    && var u := fs[o].preds[0];
    && fs[u].op == Operator(kind, traits, out) && !fs[u].hasValue && 2 <= |fs[u].preds| == |traits|
       && FreshSources(fs, u)
  }

  /** One row for every wanted key, in ascending order of the keys; each agrees with the rows that carry it. */
  ghost predicate ShowsWanted(kind: SetOp, traits: seq<Row -> Key>, ins: Streams, values: seq<Row>)
    requires |traits| == |ins| && 1 <= |ins|
  {
    var keys := InOrder(Wanted(kind, traits, ins));
    && |values| == |Wanted(kind, traits, ins)| == |keys|
    && forall i :: 0 <= i < |keys| ==> Agrees(kind, values[i], HeadsFor(traits, ins, keys[i]))
  }

  /** What the engine adds to the output: one row for every wanted key, in ascending order of the keys,
      and each agrees with the rows of the sources that carry its key. */
  lemma SetOverSourcesMeans(fs: seq<Functor>, plan: Plan, o: nat, kind: SetOp, traits: seq<Row -> Key>, out: Row)
    requires InForest(fs, plan) && SetOverSources(fs, o, kind, traits, out)
    requires AllAscending(traits, SourceLists(fs, fs[o].preds[0]))
    ensures var ins := SourceLists(fs, fs[o].preds[0]);
      && Future(fs, plan, o) == ByKey(kind, traits, ins, out, InOrder(Wanted(kind, traits, ins)))
      && ShowsWanted(kind, traits, ins, Future(fs, plan, o))
  {
    hide Denote, Wanted, Agrees, HeadsFor, ByKey;
    var u := fs[o].preds[0];
    var ins := SourceLists(fs, u);
    var keys := InOrder(Wanted(kind, traits, ins));
    OutputOn(fs, plan, o);
    SourcesDeliver(fs, plan, u);
    SetOperatorByKey(kind, traits, out, ins);
    OneRowPerKey(kind, traits, ins, out, keys);
    InOrderSize(Wanted(kind, traits, ins));
    forall i | 0 <= i < |keys| ensures Agrees(kind, Future(fs, plan, o)[i], HeadsFor(traits, ins, keys[i])) {
      RowAgrees(kind, traits, ins, out, keys, i);
    }
  }
}
