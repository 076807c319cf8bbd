/** The stream operators of hpda: what one call of process() does to an operator that can
    see the head of each upstream, and what the operator computes over whole streams. */
module StreamOps {
  import opened Options

  // A row maps column ids to values; a key is drawn from a totally ordered type.
  type Row = map<int, int>
  type Key = int

  /** An operator with its own mutable fields (m_index, m_data and the collected values). */
  datatype Op =
    | RawData(data: seq<Row>, index: int)
    | Filter(keep: Row -> bool, out: Row)
    | Concat(next: nat, out: Row)
    | Union(traits: seq<Row -> Key>, out: Row)
    | Intersection(traits: seq<Row -> Key>, out: Row)
    | Difference(traits: seq<Row -> Key>, out: Row)
    | MemoryOutput(values: seq<Row>)

  type Heads = seq<Option<Row>>

  /** The result of one process(): new fields, returned flag, and which inputs lost their value. */
  datatype Outcome = Outcome(op: Op, ok: bool, consumed: seq<bool>)

  /** Number of upstreams each operator is built with. */
  predicate Arity(op: Op, n: nat) {
    match op
    case RawData(_, index) => n == 0 && -1 <= index
    case Filter(_, _) => n == 1
    case MemoryOutput(_) => n == 1
    case Concat(_, _) => 1 <= n
    case _ => n == |op.traits|
  }

  // ----- reading heads -----

  predicate AllHeads(heads: Heads) { forall k :: 0 <= k < |heads| ==> heads[k].Some? }

  /** Whether head k carries the key `key`. */
  predicate HasKey(traits: seq<Row -> Key>, heads: Heads, k: nat, key: Key)
    requires k < |heads| == |traits|
  {
    heads[k].Some? && traits[k](heads[k].value) == key
  }

  /** The first head with the least key among the first n, if any head is there. */
  function MinHead(traits: seq<Row -> Key>, heads: Heads, n: nat): (r: Option<nat>)
    requires n <= |heads| == |traits|
    ensures r.None? <==> forall k :: 0 <= k < n ==> heads[k].None?
    ensures r.Some? ==> r.value < n && heads[r.value].Some?
    ensures r.Some? ==> forall k :: 0 <= k < n && heads[k].Some? ==>
      var least := traits[r.value](heads[r.value].value);
      least <= traits[k](heads[k].value) && (k < r.value ==> least < traits[k](heads[k].value))
  {
    if n == 0 then None
    else
      var r := MinHead(traits, heads, n - 1);
      if heads[n - 1].None? then r
      else if r.None? then Some(n - 1)
      else if traits[r.value](heads[r.value].value) > traits[n - 1](heads[n - 1].value) then Some(n - 1)
      else r
  }

  /** The columns of the first n heads laid over a row, later heads winning. */
  function Overlay(out: Row, heads: Heads, n: nat): Row
    requires n <= |heads| && forall k :: 0 <= k < n ==> heads[k].Some?
  {
    if n == 0 then out else Overlay(out, heads, n - 1) + heads[n - 1].value
  }

  /** Marks the heads that carry a key, from position lo on. */
  function Matching(traits: seq<Row -> Key>, heads: Heads, key: Key): (r: seq<bool>)
    requires |heads| == |traits|
    ensures |r| == |heads|
  {
    seq(|heads|, k requires 0 <= k < |heads| => HasKey(traits, heads, k, key))
  }

  function NoneConsumed(n: nat): seq<bool> { seq(n, _ => false) }

  /** The index concat stops at: the first upstream from i on with a value, or the end. */
  function FirstWithValue(heads: Heads, i: nat): (r: nat)
    ensures i <= |heads| ==> i <= r <= |heads|
    ensures i > |heads| ==> r == i
    ensures forall k :: i <= k < r ==> heads[k].None?
    ensures r < |heads| ==> heads[r].Some?
    decreases |heads| - i
  {
    if i < |heads| && heads[i].None? then FirstWithValue(heads, i + 1) else i
  }

  // ----- one call of process() -----

  /** Shows the row with the least key and takes that key from every input. */
  function StepUnion(traits: seq<Row -> Key>, out: Row, heads: Heads): (o: Outcome)
    requires |heads| == |traits|
    ensures |o.consumed| == |heads| && o.op.Union? && o.op.traits == traits
    ensures forall k :: 0 <= k < |heads| && o.consumed[k] ==> heads[k].Some?
  {
    var none := NoneConsumed(|heads|);
    if |heads| < 2 then Outcome(Union(traits, out), false, none) else
    match MinHead(traits, heads, |heads|)
    case None => Outcome(Union(traits, out), false, none)
    case Some(m) =>
      Outcome(Union(traits, out + heads[m].value), true, Matching(traits, heads, traits[m](heads[m].value)))
  }

  /** With every input present: takes the least key, and shows a row if all inputs carry it. */
  function StepIntersection(traits: seq<Row -> Key>, out: Row, heads: Heads): (o: Outcome)
    requires |heads| == |traits|
    ensures |o.consumed| == |heads| && o.op.Intersection? && o.op.traits == traits
    ensures forall k :: 0 <= k < |heads| && o.consumed[k] ==> heads[k].Some?
  {
    if |heads| < 2 || !AllHeads(heads) then Outcome(Intersection(traits, out), false, NoneConsumed(|heads|)) else
    var m := MinHead(traits, heads, |heads|).value;
    var least := Matching(traits, heads, traits[m](heads[m].value));
    if AllEqual(traits, heads) then Outcome(Intersection(traits, Overlay(out, heads, |heads|)), true, least)
    else Outcome(Intersection(traits, out), false, least)
  }

  /** With the first input present: takes the least key, and shows the first row if only it carries that key. */
  function StepDifference(traits: seq<Row -> Key>, out: Row, heads: Heads): (o: Outcome)
    requires |heads| == |traits|
    ensures |o.consumed| == |heads| && o.op.Difference? && o.op.traits == traits
    ensures forall k :: 0 <= k < |heads| && o.consumed[k] ==> heads[k].Some?
  {
    if |heads| < 2 || heads[0].None? then Outcome(Difference(traits, out), false, NoneConsumed(|heads|)) else
    var m := MinHead(traits, heads, |heads|).value;
    var least := Matching(traits, heads, traits[m](heads[m].value));
    if exists k :: 1 <= k < |heads| && least[k] then Outcome(Difference(traits, out), false, least)
    else Outcome(Difference(traits, out + heads[0].value), true, least)
  }

  function Step(op: Op, heads: Heads): (o: Outcome)
    requires Arity(op, |heads|)
    ensures |o.consumed| == |heads|
    ensures Arity(o.op, |heads|)
    ensures op.MemoryOutput? <==> o.op.MemoryOutput?
    ensures forall k :: 0 <= k < |heads| && o.consumed[k] ==> heads[k].Some?
  {
    var none := NoneConsumed(|heads|);
    match op
    case RawData(data, index) =>
      if data == [] then Outcome(op, false, none)
      else Outcome(RawData(data, index + 1), index + 1 < |data|, none)
    case Filter(keep, out) =>
      if heads[0].None? then Outcome(op, false, none)
      else if keep(heads[0].value) then Outcome(Filter(keep, heads[0].value), true, [true])
      else Outcome(op, false, [true])
    case Concat(next, out) =>
      var i := FirstWithValue(heads, next);
      if i >= |heads| then Outcome(Concat(i, out), false, none)
      else Outcome(Concat(i, heads[i].value), true, none[i := true])
    case Union(traits, out) => StepUnion(traits, out, heads)
    case Intersection(traits, out) => StepIntersection(traits, out, heads)
    case Difference(traits, out) => StepDifference(traits, out, heads)
    case MemoryOutput(values) =>
      if heads[0].None? then Outcome(op, false, none)
      else Outcome(MemoryOutput(values + [heads[0].value]), true, [true])
  }

  /** When a set operation cannot compare anything it is over. */
  lemma StepIdle(op: Op, heads: Heads)
    requires Arity(op, |heads|) && (op.Union? || op.Intersection? || op.Difference?)
    requires |heads| < 2 || (op.Union? && MinHead(op.traits, heads, |heads|).None?)
      || (op.Intersection? && !AllHeads(heads)) || (op.Difference? && heads[0].None?)
    ensures Step(op, heads) == Outcome(op, false, NoneConsumed(|heads|))
  {
  }

  lemma StepCases(op: Op, heads: Heads)
    requires Arity(op, |heads|)
    ensures op.Union? ==> Step(op, heads) == StepUnion(op.traits, op.out, heads)
    ensures op.Intersection? ==> Step(op, heads) == StepIntersection(op.traits, op.out, heads)
    ensures op.Difference? ==> Step(op, heads) == StepDifference(op.traits, op.out, heads)
  {
  }

  /** Every head has the key of head 0. */
  predicate AllEqual(traits: seq<Row -> Key>, heads: Heads)
    requires 1 <= |heads| == |traits| && AllHeads(heads)
  {
    forall k :: 1 <= k < |heads| ==> traits[0](heads[0].value) == traits[k](heads[k].value)
  }

  /** The row a functor shows after process() returned true. */
  function Shown(op: Op): Row {
    match op
    case RawData(data, index) => if 0 <= index < |data| then data[index] else map[]
    case MemoryOutput(values) => if values == [] then map[] else values[|values| - 1]
    case _ => op.out
  }

  // ----- whole streams -----

  type Streams = seq<seq<Row>>

  function HeadsOf(ins: Streams): (h: Heads)
    ensures |h| == |ins|
  {
    seq(|ins|, k requires 0 <= k < |ins| => if ins[k] == [] then None else Some(ins[k][0]))
  }

  /** The streams after the marked ones lost their head. */
  function Advance(ins: Streams, consumed: seq<bool>): (r: Streams)
    requires |consumed| == |ins|
    ensures |r| == |ins|
  {
    seq(|ins|, k requires 0 <= k < |ins| => if consumed[k] && ins[k] != [] then ins[k][1..] else ins[k])
  }

  function TotalLength(ins: Streams): nat {
    if ins == [] then 0 else |ins[0]| + TotalLength(ins[1..])
  }

  /** Rows a raw_data source has not delivered yet. */
  function Undelivered(op: Op): nat {
    if op.RawData? && op.index + 1 < |op.data| && 0 <= op.index + 1 then |op.data| - (op.index + 1) else 0
  }

  /** Whether a call made progress: a raw source moved on, or an input was taken. */
  predicate Progress(op: Op, o: Outcome) {
    (op.RawData? && o.ok) || true in o.consumed
  }

  lemma {:induction false} AdvanceShrinks(ins: Streams, consumed: seq<bool>)
    requires |consumed| == |ins|
    requires forall k :: 0 <= k < |ins| && consumed[k] ==> ins[k] != []
    ensures TotalLength(Advance(ins, consumed)) <= TotalLength(ins)
    ensures true in consumed ==> TotalLength(Advance(ins, consumed)) < TotalLength(ins)
  {
    if ins != [] {
      assert Advance(ins, consumed)[1..] == Advance(ins[1..], consumed[1..]);
      AdvanceShrinks(ins[1..], consumed[1..]);
    }
  }

  /** What an operator emits when it alone is called over and over on complete input streams,
      until a call makes no progress. This is the meaning the scheduler has to reproduce. */
  function Denote(op: Op, ins: Streams): seq<Row>
    requires Arity(op, |ins|)
    decreases TotalLength(ins) + Undelivered(op)
  {
    var o := Step(op, HeadsOf(ins));
    if !Progress(op, o) then []
    else
      var rest := Advance(ins, o.consumed);
      AdvanceShrinks(ins, o.consumed);
      (if o.ok then [Shown(o.op)] else []) + Denote(o.op, rest)
  }
}
