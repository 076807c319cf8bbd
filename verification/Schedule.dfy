/** The invariant of the engine's BFS queue and processing stack, one lemma per transition,
    and the measure that every transition lowers. */
module Schedule {
  import opened StreamOps
  import opened Dataflow

  ghost predicate NoDuplicates(s: seq<nat>) { forall i, j :: 0 <= i < j < |s| ==> s[i] != s[j] }

  /** q sits on the stack above position s. */
  ghost predicate Above(stack: seq<nat>, s: nat, q: nat) { exists t :: s < t < |stack| && stack[t] == q }

  /** Predecessor p of the functor at stack position s has a value, is over, or is on its way. */
  ghost predicate Coming(fs: seq<Functor>, stack: seq<nat>, s: nat, p: nat)
    requires s < |stack| && p < |fs|
  {
    fs[p].hasValue || fs[p].status == End || fs[p].status == ToProcess || Above(stack, s, p)
  }

  ghost predicate AllComing(fs: seq<Functor>, plan: Plan, stack: seq<nat>, s: nat, n: nat)
    requires InForest(fs, plan) && s < |stack| && stack[s] < |fs| && n <= |fs[stack[s]].preds|
  {
    forall k :: 0 <= k < n ==> Coming(fs, stack, s, fs[stack[s]].preds[k])
  }

  /** A functor that ended owes nothing; one with a value is idle and no output. */
  ghost predicate Honest(fs: seq<Functor>, plan: Plan)
    requires InForest(fs, plan)
  {
    && (forall i :: 0 <= i < |fs| && fs[i].status == End ==> !fs[i].hasValue && Future(fs, plan, i) == [])
    && (forall i :: 0 <= i < |fs| && fs[i].hasValue ==> fs[i].status == Null && !fs[i].op.MemoryOutput?)
  }

  /** The list holds exactly the functors with this status, once each. */
  ghost predicate Lists(fs: seq<Functor>, list: seq<nat>, status: Status) {
    && NoDuplicates(list)
    && (forall k :: 0 <= k < |list| ==> list[k] < |fs| && fs[list[k]].status == status)
    && (forall q :: 0 <= q < |fs| && fs[q].status == status ==> q in list)
  }

  /** Whatever is queued or stacked was asked for by a functor deeper in the stack. */
  ghost predicate Demanded(fs: seq<Functor>, plan: Plan, queue: seq<nat>, stack: seq<nat>)
    requires InForest(fs, plan)
    requires forall k :: 0 <= k < |queue| ==> queue[k] < |fs|
    requires forall k :: 0 <= k < |stack| ==> stack[k] < |fs|
  {
    && (forall k :: 0 <= k < |queue| && !fs[queue[k]].op.MemoryOutput? ==> plan.succ[queue[k]] in stack)
    && (forall k :: 0 <= k < |stack| && !fs[stack[k]].op.MemoryOutput? ==> plan.succ[stack[k]] in stack[..k])
  }

  ghost predicate Served(fs: seq<Functor>, plan: Plan, stack: seq<nat>, full: nat)
    requires InForest(fs, plan) && full <= |stack|
    requires forall k :: 0 <= k < |stack| ==> stack[k] < |fs|
  {
    forall s :: 0 <= s < full ==> AllComing(fs, plan, stack, s, |fs[stack[s]].preds|)
  }

  /** The scheduler's invariant; the first `full` stack entries have asked for all their inputs. */
  ghost predicate Inv(fs: seq<Functor>, plan: Plan, queue: seq<nat>, stack: seq<nat>, full: nat) {
    && InForest(fs, plan)
    && Honest(fs, plan)
    && Lists(fs, queue, ToProcess) && Lists(fs, stack, Processing)
    && Demanded(fs, plan, queue, stack)
    && full <= |stack| && Served(fs, plan, stack, full)
  }

  // ----- what a call keeps -----

  ghost predicate SameShape(fs: seq<Functor>, fs': seq<Functor>) {
    && |fs'| == |fs|
    && (forall i :: 0 <= i < |fs| ==> fs'[i].preds == fs[i].preds)
    && (forall i :: 0 <= i < |fs| ==>
          Arity(fs'[i].op, |fs[i].preds|) && (fs'[i].op.MemoryOutput? <==> fs[i].op.MemoryOutput?))
  }

  lemma ShapeKeepsForest(fs: seq<Functor>, fs': seq<Functor>, plan: Plan)
    requires InForest(fs, plan) && SameShape(fs, fs')
    ensures InForest(fs', plan)
  {
  }

  ghost predicate SameOwed(fs: seq<Functor>, fs': seq<Functor>, plan: Plan, f: nat)
    requires InForest(fs, plan) && InForest(fs', plan) && |fs| == |fs'| && f < |fs|
  {
    && (forall g :: 0 <= g < |fs| && g != f ==>
          Future(fs', plan, g) == Future(fs, plan, g) && fs'[g].op == fs[g].op)
    && Collected(fs', plan, f) == Collected(fs, plan, f)
  }

  /** For an output: what it holds and will hold. For the others: the rows still owed. */
  ghost function Collected(fs: seq<Functor>, plan: Plan, f: nat): seq<Row>
    requires InForest(fs, plan) && f < |fs|
  {
    (match fs[f].op case MemoryOutput(values) => values case _ => []) + Owed(fs, plan, f)
  }

  /** process() of a ready functor without a value, followed by has_value and m_status of f. */
  ghost predicate CalledAndMarked(fs: seq<Functor>, f: nat, o: Outcome, status: Status, fs': seq<Functor>)
    requires f < |fs|
  {
    && |fs'| == |fs|
    && Called(fs, f, o, fs'[f := fs[f].(op := o.op)])
    && fs'[f] == fs[f].(op := o.op, hasValue := o.ok && !fs[f].op.MemoryOutput?, status := status)
  }

  lemma CallKeepsOwed(fs: seq<Functor>, fs': seq<Functor>, plan: Plan, f: nat, o: Outcome, status: Status)
    requires InForest(fs, plan) && f < |fs| && Ready(fs, plan, f) && !fs[f].hasValue
    requires o == Step(fs[f].op, HeadsAt(fs, f)) && CalledAndMarked(fs, f, o, status, fs')
    ensures InForest(fs', plan) && SameOwed(fs, fs', plan, f)
    ensures !Progress(fs[f].op, o) ==> Future(fs', plan, f) == []
  {
    hide Denote, Step, Progress;
    CallAtFunctor(fs, fs', plan, f, o, status);
    ElsewhereSame(fs, fs', plan, f);
  }

  lemma CallAtFunctor(fs: seq<Functor>, fs': seq<Functor>, plan: Plan, f: nat, o: Outcome, status: Status)
    requires InForest(fs, plan) && f < |fs| && Ready(fs, plan, f) && !fs[f].hasValue
    requires o == Step(fs[f].op, HeadsAt(fs, f)) && CalledAndMarked(fs, f, o, status, fs')
    ensures InForest(fs', plan) && LocalChange(fs, fs', f)
    ensures fs[f].op.MemoryOutput? || Owed(fs', plan, f) == Owed(fs, plan, f)
    ensures Collected(fs', plan, f) == Collected(fs, plan, f)
    ensures !Progress(fs[f].op, o) ==> Future(fs', plan, f) == []
  {
    hide Denote, Step, Progress, Called, InForest, LocalChange, Future;
    var fs1 := fs'[f := fs[f].(op := o.op)];
    CallSplitsFuture(fs, fs1, plan, f, o);
    UpdateAndBack(fs', f, fs[f].(op := o.op));
    assert fs1[f].(hasValue := fs'[f].hasValue, status := fs'[f].status) == fs'[f];
    MarkKeepsFuture(fs1, fs', plan, f);
    LocalChangeMarked(fs, fs1, fs', f);
    RowsAtFunctor(fs, fs', plan, f, o);
  }

  lemma UpdateAndBack<T>(s: seq<T>, i: nat, x: T)
    requires i < |s|
    ensures s[i := x][i := s[i]] == s
  {
  }

  lemma RowsAtFunctor(fs: seq<Functor>, fs': seq<Functor>, plan: Plan, f: nat, o: Outcome)
    requires InForest(fs, plan) && InForest(fs', plan) && f < |fs| == |fs'| && !fs[f].hasValue
    requires o == Step(fs[f].op, HeadsAt(fs, f)) && fs'[f].op == o.op
    requires fs'[f].hasValue == (o.ok && !fs[f].op.MemoryOutput?)
    requires Future(fs, plan, f) == (if o.ok then [Shown(o.op)] else []) + Future(fs', plan, f)
    ensures fs[f].op.MemoryOutput? || Owed(fs', plan, f) == Owed(fs, plan, f)
    ensures Collected(fs', plan, f) == Collected(fs, plan, f)
  {
    hide Denote, Step, Future;
    if fs[f].op.MemoryOutput? { OutputShows(fs[f].op, HeadsAt(fs, f)); }
  }

  lemma LocalChangeMarked(fs: seq<Functor>, fs1: seq<Functor>, fs': seq<Functor>, f: nat)
    requires LocalChange(fs, fs1, f) && |fs'| == |fs1|
    requires fs' == fs1[f := fs1[f].(hasValue := fs'[f].hasValue, status := fs'[f].status)]
    ensures LocalChange(fs, fs', f)
  {
  }

  lemma OutputShows(op: Op, heads: Heads)
    requires Arity(op, |heads|) && op.MemoryOutput?
    ensures var o := Step(op, heads); o.op.values == op.values + if o.ok then [Shown(o.op)] else []
  {
  }

  lemma MarkKeepsFuture(fs: seq<Functor>, fs': seq<Functor>, plan: Plan, f: nat)
    requires InForest(fs, plan) && f < |fs| && |fs'| == |fs|
    requires fs' == fs[f := fs[f].(hasValue := fs'[f].hasValue, status := fs'[f].status)]
    ensures InForest(fs', plan) && LocalChange(fs, fs', f)
    ensures Future(fs', plan, f) == Future(fs, plan, f)
  {
    ShapeKeepsForest(fs, fs', plan);
    SameFutureAt(fs, fs', plan, f);
  }

  lemma ElsewhereSame(fs: seq<Functor>, fs': seq<Functor>, plan: Plan, f: nat)
    requires InForest(fs, plan) && InForest(fs', plan) && LocalChange(fs, fs', f)
    requires fs[f].op.MemoryOutput? || Owed(fs', plan, f) == Owed(fs, plan, f)
    ensures forall g :: 0 <= g < |fs| && g != f ==> Future(fs', plan, g) == Future(fs, plan, g)
  {
    forall g | 0 <= g < |fs| && g != f ensures Future(fs', plan, g) == Future(fs, plan, g) {
      FutureElsewhere(fs, fs', plan, f, g);
    }
  }

  /** Changing only has_value or m_status of f leaves the future of f alone. */
  lemma SameFutureAt(fs: seq<Functor>, fs': seq<Functor>, plan: Plan, f: nat)
    requires InForest(fs, plan) && InForest(fs', plan) && LocalChange(fs, fs', f)
    requires fs'[f].op == fs[f].op
    requires forall k :: 0 <= k < |fs[f].preds| ==> fs'[fs[f].preds[k]].hasValue == fs[fs[f].preds[k]].hasValue
    ensures Future(fs', plan, f) == Future(fs, plan, f)
  {
    forall k | 0 <= k < |fs[f].preds| ensures Owed(fs', plan, fs[f].preds[k]) == Owed(fs, plan, fs[f].preds[k]) {
      FutureBelow(fs, fs', plan, f, fs[f].preds[k]);
    }
    assert Inputs(fs', plan, f) == Inputs(fs, plan, f);
  }

  lemma StatusIsIrrelevant(fs: seq<Functor>, fs': seq<Functor>, plan: Plan, f: nat, status: Status)
    requires InForest(fs, plan) && f < |fs| && fs' == fs[f := fs[f].(status := status)]
    ensures InForest(fs', plan) && SameOwed(fs, fs', plan, f) && Future(fs', plan, f) == Future(fs, plan, f)
  {
    ShapeKeepsForest(fs, fs', plan);
    assert LocalChange(fs, fs', f);
    SameFutureAt(fs, fs', plan, f);
    forall g | 0 <= g < |fs| && g != f ensures Future(fs', plan, g) == Future(fs, plan, g) {
      FutureElsewhere(fs, fs', plan, f, g);
    }
  }

  // ----- how a transition at f carries each part of the invariant over -----

  /** Only f changes status, and only f gains a value; inputs of f may lose theirs. */
  ghost predicate Transition(fs: seq<Functor>, fs': seq<Functor>, f: nat) {
    && f < |fs| && SameShape(fs, fs')
    && (forall g :: 0 <= g < |fs| && g != f ==> fs'[g].status == fs[g].status)
    && (forall g :: 0 <= g < |fs| && g != f ==> (fs'[g].hasValue ==> fs[g].hasValue))
    && (forall g :: 0 <= g < |fs| && g != f && g !in fs[f].preds ==> fs'[g].hasValue == fs[g].hasValue)
  }

  lemma HonestAfter(fs: seq<Functor>, fs': seq<Functor>, plan: Plan, f: nat)
    requires InForest(fs, plan) && InForest(fs', plan) && Transition(fs, fs', f)
    requires Honest(fs, plan) && SameOwed(fs, fs', plan, f)
    requires fs'[f].status == End ==> !fs'[f].hasValue && Future(fs', plan, f) == []
    requires fs'[f].hasValue ==> fs'[f].status == Null && !fs[f].op.MemoryOutput?
    ensures Honest(fs', plan)
  {
  }

  lemma ListKept(fs: seq<Functor>, fs': seq<Functor>, list: seq<nat>, status: Status, f: nat)
    requires Transition(fs, fs', f) && Lists(fs, list, status)
    requires (fs[f].status == status) == (fs'[f].status == status)
    ensures Lists(fs', list, status)
  {
  }

  lemma ListJoined(fs: seq<Functor>, fs': seq<Functor>, list: seq<nat>, status: Status, f: nat)
    requires Transition(fs, fs', f) && Lists(fs, list, status)
    requires fs[f].status != status && fs'[f].status == status
    ensures Lists(fs', list + [f], status)
  {
  }

  lemma HeadLeft(fs: seq<Functor>, fs': seq<Functor>, list: seq<nat>, status: Status)
    requires Lists(fs, list, status) && list != []
    requires Transition(fs, fs', list[0]) && fs'[list[0]].status != status
    ensures Lists(fs', list[1..], status)
  {
    forall q | 0 <= q < |fs| && fs'[q].status == status ensures q in list[1..] {
      assert q in list && q != list[0];
    }
  }

  lemma LastLeft(fs: seq<Functor>, fs': seq<Functor>, list: seq<nat>, status: Status)
    requires Lists(fs, list, status) && list != []
    requires Transition(fs, fs', list[|list| - 1]) && fs'[list[|list| - 1]].status != status
    ensures Lists(fs', list[..|list| - 1], status)
  {
    forall q | 0 <= q < |fs| && fs'[q].status == status ensures q in list[..|list| - 1] {
      assert q in list && q != list[|list| - 1];
    }
  }

  /** An input of h is no input of f. */
  lemma NotShared(fs: seq<Functor>, plan: Plan, f: nat, h: nat, k: nat)
    requires InForest(fs, plan) && f < |fs| && h < |fs| && f != h && k < |fs[h].preds|
    ensures fs[h].preds[k] !in fs[f].preds
  {
    forall l | 0 <= l < |fs[f].preds| ensures fs[f].preds[l] != fs[h].preds[k] {
      assert plan.succ[fs[f].preds[l]] == f && plan.succ[fs[h].preds[k]] == h;
    }
  }

  lemma ServedAfter(fs: seq<Functor>, fs': seq<Functor>, plan: Plan, stack: seq<nat>, stack': seq<nat>, full: nat,
                    f: nat)
    requires InForest(fs, plan) && InForest(fs', plan) && Transition(fs, fs', f)
    requires full <= |stack| && full <= |stack'| && stack'[..full] == stack[..full] && f !in stack[..full]
    requires forall k :: 0 <= k < |stack| ==> stack[k] < |fs|
    requires forall k :: 0 <= k < |stack'| ==> stack'[k] < |fs|
    requires Served(fs, plan, stack, full)
    requires forall s, q :: 0 <= s < full && q != f && Above(stack, s, q) ==> Above(stack', s, q)
    requires fs[f].op.MemoryOutput? || forall s :: 0 <= s < full && Coming(fs, stack, s, f) ==>
      Coming(fs', stack', s, f)
    ensures Served(fs', plan, stack', full)
  {
    forall s, k | 0 <= s < full && 0 <= k < |fs[stack[s]].preds|
      ensures Coming(fs', stack', s, fs[stack[s]].preds[k])
    {
      var p := fs[stack[s]].preds[k];
      assert stack[s] in stack[..full] && stack[s] != f;
      assert AllComing(fs, plan, stack, s, |fs[stack[s]].preds|);
      assert Coming(fs, stack, s, p);
      NotShared(fs, plan, f, stack[s], k);
    }
    forall s | 0 <= s < full ensures AllComing(fs', plan, stack', s, |fs'[stack'[s]].preds|) {
      assert stack'[..full][s] == stack[..full][s];
    }
  }

  // ----- transitions -----

  /** An idle input without a value is put on the queue. */
  lemma Enqueue(fs: seq<Functor>, plan: Plan, queue: seq<nat>, stack: seq<nat>, full: nat, p: nat)
    requires Inv(fs, plan, queue, stack, full) && p < |fs|
    requires fs[p].status == Null && !fs[p].hasValue
    requires fs[p].op.MemoryOutput? || plan.succ[p] in stack
    ensures Inv(fs[p := fs[p].(status := ToProcess)], plan, queue + [p], stack, full)
  {
    hide Step, Progress, Future;
    var fs' := fs[p := fs[p].(status := ToProcess)];
    StatusIsIrrelevant(fs, fs', plan, p, ToProcess);
    HonestAfter(fs, fs', plan, p);
    ListJoined(fs, fs', queue, ToProcess, p);
    ListKept(fs, fs', stack, Processing, p);
    ServedAfter(fs, fs', plan, stack, stack, full, p);
  }

  lemma AboveAfterPush(stack: seq<nat>, f: nat)
    ensures forall s, q :: 0 <= s < |stack| && Above(stack, s, q) ==> Above(stack + [f], s, q)
    ensures forall s :: 0 <= s < |stack| ==> Above(stack + [f], s, f)
  {
    assert (stack + [f])[|stack|] == f;
    assert forall s :: 0 <= s < |stack| ==> (stack + [f])[s] == stack[s];
  }

  lemma AboveAfterPop(stack: seq<nat>)
    requires stack != []
    ensures forall s, q :: 0 <= s < |stack| - 1 && q != stack[|stack| - 1] && Above(stack, s, q) ==>
      Above(stack[..|stack| - 1], s, q)
  {
    assert forall s :: 0 <= s < |stack| - 1 ==> stack[..|stack| - 1][s] == stack[s];
  }

  lemma DemandPushed(fs: seq<Functor>, fs': seq<Functor>, plan: Plan, queue: seq<nat>, stack: seq<nat>)
    requires InForest(fs, plan) && InForest(fs', plan) && SameShape(fs, fs') && queue != []
    requires forall k :: 0 <= k < |queue| ==> queue[k] < |fs|
    requires forall k :: 0 <= k < |stack| ==> stack[k] < |fs|
    requires Demanded(fs, plan, queue, stack)
    ensures Demanded(fs', plan, queue[1..], stack + [queue[0]])
  {
    var stack' := stack + [queue[0]];
    forall k | 0 <= k < |stack'| && !fs'[stack'[k]].op.MemoryOutput? ensures plan.succ[stack'[k]] in stack'[..k] {
      if k < |stack| { assert stack'[..k] == stack[..k]; } else { assert stack'[..k] == stack; }
    }
  }

  lemma DemandPopped(fs: seq<Functor>, fs': seq<Functor>, plan: Plan, stack: seq<nat>)
    requires InForest(fs, plan) && InForest(fs', plan) && SameShape(fs, fs') && stack != []
    requires forall k :: 0 <= k < |stack| ==> stack[k] < |fs|
    requires Demanded(fs, plan, [], stack)
    ensures Demanded(fs', plan, [], stack[..|stack| - 1])
  {
    var rest := stack[..|stack| - 1];
    forall k | 0 <= k < |rest| && !fs'[rest[k]].op.MemoryOutput? ensures plan.succ[rest[k]] in rest[..k] {
      assert rest[k] == stack[k] && rest[..k] == stack[..k];
    }
  }

  /** A functor with predecessors moves from the queue to the stack. */
  lemma PopToStack(fs: seq<Functor>, plan: Plan, queue: seq<nat>, stack: seq<nat>, full: nat)
    requires Inv(fs, plan, queue, stack, full) && queue != []
    ensures Inv(fs[queue[0] := fs[queue[0]].(status := Processing)], plan, queue[1..], stack + [queue[0]], full)
  {
    hide Step, Progress, Future, Above, Coming;
    var f := queue[0];
    var fs', stack' := fs[f := fs[f].(status := Processing)], stack + [f];
    StatusIsIrrelevant(fs, fs', plan, f, Processing);
    HonestAfter(fs, fs', plan, f);
    HeadLeft(fs, fs', queue, ToProcess);
    ListJoined(fs, fs', stack, Processing, f);
    DemandPushed(fs, fs', plan, queue, stack);
    AboveAfterPush(stack, f);
    PushedIsComing(fs', stack, f, full);
    PushFront(fs, stack, f, full);
    ServedAfter(fs, fs', plan, stack, stack', full, f);
  }

  lemma PushFront(fs: seq<Functor>, stack: seq<nat>, f: nat, full: nat)
    requires Lists(fs, stack, Processing) && f < |fs| && fs[f].status != Processing && full <= |stack|
    ensures f !in stack && f !in stack[..full] && (stack + [f])[..full] == stack[..full]
    ensures forall k :: 0 <= k < |stack + [f]| ==> (stack + [f])[k] < |fs|
  {
    forall k | 0 <= k < |stack| ensures stack[k] != f { assert stack[k] in stack; }
  }

  lemma PushedIsComing(fs: seq<Functor>, stack: seq<nat>, f: nat, full: nat)
    requires full <= |stack| && f < |fs|
    ensures forall s :: 0 <= s < full ==> Coming(fs, stack + [f], s, f)
  {
    AboveAfterPush(stack, f);
  }

  lemma CallIsTransition(fs: seq<Functor>, fs': seq<Functor>, plan: Plan, f: nat, o: Outcome, status: Status)
    requires InForest(fs, plan) && f < |fs|
    requires o == Step(fs[f].op, HeadsAt(fs, f)) && CalledAndMarked(fs, f, o, status, fs')
    ensures InForest(fs', plan) && Transition(fs, fs', f)
    ensures forall g :: 0 <= g < |fs| && g != f ==> fs'[g].op == fs[g].op
  {
    forall g | 0 <= g < |fs| && g != f && g in fs[f].preds
      ensures fs'[g] == fs[g] || fs'[g] == fs[g].(hasValue := false)
    {
      var k :| 0 <= k < |fs[f].preds| && fs[f].preds[k] == g;
    }
    ShapeKeepsForest(fs, fs', plan);
  }

  /** An extractor taken from the queue was called and is now marked Null or End. */
  lemma PopExtractor(fs: seq<Functor>, fs': seq<Functor>, plan: Plan, queue: seq<nat>, stack: seq<nat>, full: nat,
                     o: Outcome)
    requires Inv(fs, plan, queue, stack, full) && queue != [] && fs[queue[0]].preds == []
    requires o == Step(fs[queue[0]].op, HeadsAt(fs, queue[0]))
    requires CalledAndMarked(fs, queue[0], o, if o.ok then Null else End, fs')
    ensures Inv(fs', plan, queue[1..], stack, full) && SameOwed(fs, fs', plan, queue[0])
  {
    hide Step, Progress, Future;
    var f := queue[0];
    StepProgress(fs[f].op, HeadsAt(fs, f));
    CallKeepsOwed(fs, fs', plan, f, o, if o.ok then Null else End);
    CallIsTransition(fs, fs', plan, f, o, if o.ok then Null else End);
    HonestAfter(fs, fs', plan, f);
    HeadLeft(fs, fs', queue, ToProcess);
    ListKept(fs, fs', stack, Processing, f);
    ServedAfter(fs, fs', plan, stack, stack, full, f);
  }

  /** On an empty queue the functor on top of the stack has every input, or the input is over. */
  lemma TopIsReady(fs: seq<Functor>, plan: Plan, stack: seq<nat>)
    requires Inv(fs, plan, [], stack, |stack|) && stack != []
    ensures var f := stack[|stack| - 1];
      && Ready(fs, plan, f) && !fs[f].hasValue
      && (forall k :: 0 <= k < |fs[f].preds| ==>
            var p := fs[f].preds[k]; fs[p].hasValue || fs[p].status == End)
  {
    var s := |stack| - 1;
    assert AllComing(fs, plan, stack, s, |fs[stack[s]].preds|);
    forall k | 0 <= k < |fs[stack[s]].preds|
      ensures var p := fs[stack[s]].preds[k]; fs[p].hasValue || fs[p].status == End
    {
      assert Coming(fs, stack, s, fs[stack[s]].preds[k]);
    }
  }

  /** The top functor was called and leaves the stack with a value, or ended. */
  lemma PopStack(fs: seq<Functor>, fs': seq<Functor>, plan: Plan, stack: seq<nat>, o: Outcome)
    requires Inv(fs, plan, [], stack, |stack|) && stack != []
    requires o == Step(fs[stack[|stack| - 1]].op, HeadsAt(fs, stack[|stack| - 1]))
    requires CalledAndMarked(fs, stack[|stack| - 1], o, if o.ok then Null else End, fs')
    requires o.ok || !Progress(fs[stack[|stack| - 1]].op, o)
    ensures Inv(fs', plan, [], stack[..|stack| - 1], |stack| - 1)
    ensures SameOwed(fs, fs', plan, stack[|stack| - 1])
  {
    hide Step, Progress, Future;
    var n := |stack| - 1;
    var f, rest := stack[n], stack[..n];
    TopIsReady(fs, plan, stack);
    CallKeepsOwed(fs, fs', plan, f, o, if o.ok then Null else End);
    CallIsTransition(fs, fs', plan, f, o, if o.ok then Null else End);
    HonestAfter(fs, fs', plan, f);
    ListKept(fs, fs', [], ToProcess, f);
    LastLeft(fs, fs', stack, Processing);
    DemandPopped(fs, fs', plan, stack);
    AboveAfterPop(stack);
    ServedAfter(fs, fs', plan, stack, rest, n, f);
  }

  /** The top functor was called, took inputs without a result, and stays to ask for them again. */
  lemma StayOnStack(fs: seq<Functor>, fs': seq<Functor>, plan: Plan, stack: seq<nat>, o: Outcome)
    requires Inv(fs, plan, [], stack, |stack|) && stack != []
    requires o == Step(fs[stack[|stack| - 1]].op, HeadsAt(fs, stack[|stack| - 1]))
    requires CalledAndMarked(fs, stack[|stack| - 1], o, Processing, fs') && !o.ok
    ensures Inv(fs', plan, [], stack, |stack| - 1)
    ensures SameOwed(fs, fs', plan, stack[|stack| - 1])
  {
    hide Step, Progress, Future;
    var n := |stack| - 1;
    var f := stack[n];
    TopIsReady(fs, plan, stack);
    CallKeepsOwed(fs, fs', plan, f, o, Processing);
    CallIsTransition(fs, fs', plan, f, o, Processing);
    HonestAfter(fs, fs', plan, f);
    ListKept(fs, fs', [], ToProcess, f);
    ListKept(fs, fs', stack, Processing, f);
    assert forall s :: 0 <= s < n ==> Above(stack, s, f);
    ServedAfter(fs, fs', plan, stack, stack, n, f);
  }

  // ----- the measure -----

  function Sum(costs: seq<nat>): nat { if costs == [] then 0 else costs[0] + Sum(costs[1..]) }

  lemma {:induction false} SumReplace(a: seq<nat>, i: nat, v: nat)
    requires i < |a|
    ensures Sum(a[i := v]) == Sum(a) - a[i] + v
  {
    if i == 0 { assert a[i := v][1..] == a[1..]; }
    else {
      assert a[i := v][1..] == a[1..][i - 1 := v];
      SumReplace(a[1..], i - 1, v);
    }
  }

  lemma {:induction false} SumMonotone(a: seq<nat>, b: seq<nat>)
    requires |a| == |b| && forall i :: 0 <= i < |a| ==> a[i] <= b[i]
    ensures Sum(a) <= Sum(b)
  {
    if a != [] { SumMonotone(a[1..], b[1..]); }
  }

  /** Only f may cost more, and p pays for it. */
  lemma SumPaid(a: seq<nat>, b: seq<nat>, f: nat, p: nat)
    requires |a| == |b| && f < |a| && p < |a|
    requires forall i :: 0 <= i < |a| && i != f && i != p ==> a[i] <= b[i]
    requires if f == p then a[f] < b[f] else a[f] + a[p] < b[f] + b[p]
    ensures Sum(a) < Sum(b)
  {
    var c := b[f := a[f]];
    SumReplace(b, f, a[f]);
    SumReplace(c, p, a[p]);
    SumMonotone(a, c[p := a[p]]);
  }

  function Weight(fs: seq<Functor>, plan: Plan, i: nat): nat
    requires i < |fs| && |plan.rank| == |fs| && plan.rank[i] < plan.top
  {
    var w := plan.top - plan.rank[i];
    Undelivered(fs[i].op) * (w + 1) + if fs[i].hasValue then w else 0
  }

  /** Rows in the graph, each weighed by its distance from the output. */
  ghost function Work(fs: seq<Functor>, plan: Plan): nat
    requires InForest(fs, plan)
  {
    Sum(Weights(fs, plan))
  }

  function Running(fs: seq<Functor>): nat {
    Sum(seq(|fs|, i requires 0 <= i < |fs| => if fs[i].status == End then 0 else 1))
  }

  function Idle(fs: seq<Functor>): nat {
    Sum(seq(|fs|, i requires 0 <= i < |fs| =>
      match fs[i].status case Null => 2 case ToProcess => 1 case _ => 0))
  }

  ghost predicate Below(fs: seq<Functor>, fs': seq<Functor>, plan: Plan)
    requires InForest(fs, plan) && InForest(fs', plan)
  {
    || Work(fs', plan) < Work(fs, plan)
    || (Work(fs', plan) == Work(fs, plan) &&
        (Running(fs') < Running(fs) || (Running(fs') == Running(fs) && Idle(fs') < Idle(fs))))
  }

  /** A status change that neither starts nor revives a functor only lowers the idle count. */
  lemma StatusLowers(fs: seq<Functor>, plan: Plan, f: nat, status: Status)
    requires InForest(fs, plan) && f < |fs|
    requires (fs[f].status == Null && status == ToProcess) || (fs[f].status == ToProcess && status == Processing)
    ensures InForest(fs[f := fs[f].(status := status)], plan)
    ensures Below(fs, fs[f := fs[f].(status := status)], plan)
  {
    var fs' := fs[f := fs[f].(status := status)];
    assert Weights(fs', plan) == Weights(fs, plan);
    assert seq(|fs'|, i requires 0 <= i < |fs'| => if fs'[i].status == End then 0 else 1)
        == seq(|fs|, i requires 0 <= i < |fs| => if fs[i].status == End then 0 else 1);
    SumPaid(seq(|fs'|, i requires 0 <= i < |fs'| => match fs'[i].status case Null => 2 case ToProcess => 1 case _ => 0),
            seq(|fs|, i requires 0 <= i < |fs| => match fs[i].status case Null => 2 case ToProcess => 1 case _ => 0), f,
              f);
  }

  function Weights(fs: seq<Functor>, plan: Plan): seq<nat>
    requires |plan.rank| == |fs| && forall i :: 0 <= i < |fs| ==> plan.rank[i] < plan.top
  {
    seq(|fs|, i requires 0 <= i < |fs| => Weight(fs, plan, i))
  }

  /** A call that made progress lowers the work; one that did not, and ends f, lowers Running. */
  lemma CallLowers(fs: seq<Functor>, fs': seq<Functor>, plan: Plan, f: nat, o: Outcome, status: Status)
    requires InForest(fs, plan) && InForest(fs', plan) && f < |fs| && !fs[f].hasValue && fs[f].status != End
    requires o == Step(fs[f].op, HeadsAt(fs, f)) && CalledAndMarked(fs, f, o, status, fs')
    requires Progress(fs[f].op, o) || (!o.ok && status == End)
    ensures Below(fs, fs', plan)
  {
    if Progress(fs[f].op, o) {
      WorkLowers(fs, fs', plan, f, o, status);
    } else {
      hide Step, Progress;
      CallIsTransition(fs, fs', plan, f, o, status);
      DeliveryCounts(fs[f].op, HeadsAt(fs, f));
      SumMonotone(Weights(fs', plan), Weights(fs, plan));
      SumPaid(seq(|fs'|, i requires 0 <= i < |fs'| => if fs'[i].status == End then 0 else 1),
              seq(|fs|, i requires 0 <= i < |fs| => if fs[i].status == End then 0 else 1), f, f);
    }
  }

  lemma DeliveryCounts(op: Op, heads: Heads)
    requires Arity(op, |heads|)
    ensures var o := Step(op, heads);
      Undelivered(o.op) == Undelivered(op) - if op.RawData? && o.ok then 1 else 0
  {
  }

  lemma WorkLowers(fs: seq<Functor>, fs': seq<Functor>, plan: Plan, f: nat, o: Outcome, status: Status)
    requires InForest(fs, plan) && InForest(fs', plan) && f < |fs| && !fs[f].hasValue
    requires o == Step(fs[f].op, HeadsAt(fs, f)) && CalledAndMarked(fs, f, o, status, fs')
    requires Progress(fs[f].op, o)
    ensures Work(fs', plan) < Work(fs, plan)
  {
    hide Step, Weight;
    DeliveryCounts(fs[f].op, HeadsAt(fs, f));
    CallIsTransition(fs, fs', plan, f, o, status);
    WeightsElsewhere(fs, fs', plan, f);
    if fs[f].op.RawData? && o.ok {
      DeliveryLowersWeight(fs, fs', plan, f);
      SumPaid(Weights(fs', plan), Weights(fs, plan), f, f);
    } else {
      var k :| 0 <= k < |o.consumed| && o.consumed[k];
      var p := fs[f].preds[k];
      assert HeadsAt(fs, f)[k].Some?;
      ConsumedLosesValue(fs, fs', plan, f, o, status, k);
      TakingLowersWeight(fs, fs', plan, f, p);
      SumPaid(Weights(fs', plan), Weights(fs, plan), f, p);
    }
  }

  lemma WeightsElsewhere(fs: seq<Functor>, fs': seq<Functor>, plan: Plan, f: nat)
    requires f < |fs| == |fs'| == |plan.rank| && forall i :: 0 <= i < |fs| ==> plan.rank[i] < plan.top
    requires forall g :: 0 <= g < |fs| && g != f ==> fs'[g].op == fs[g].op && (fs'[g].hasValue ==> fs[g].hasValue)
    ensures forall g :: 0 <= g < |fs| && g != f ==> Weights(fs', plan)[g] <= Weights(fs, plan)[g]
  {
    forall g | 0 <= g < |fs| && g != f ensures Weights(fs', plan)[g] <= Weights(fs, plan)[g] {
      WeightWithoutValue(fs, fs', plan, g);
    }
  }

  lemma WeightWithoutValue(fs: seq<Functor>, fs': seq<Functor>, plan: Plan, g: nat)
    requires g < |fs| == |fs'| == |plan.rank| && plan.rank[g] < plan.top
    requires fs'[g].op == fs[g].op && (fs'[g].hasValue ==> fs[g].hasValue)
    ensures Weight(fs', plan, g) <= Weight(fs, plan, g)
  {
  }

  lemma DeliveryLowersWeight(fs: seq<Functor>, fs': seq<Functor>, plan: Plan, f: nat)
    requires f < |fs| == |fs'| == |plan.rank| && plan.rank[f] < plan.top
    requires Undelivered(fs'[f].op) == Undelivered(fs[f].op) - 1 && !fs[f].hasValue
    ensures Weight(fs', plan, f) < Weight(fs, plan, f)
  {
    var w := plan.top - plan.rank[f];
    assert Undelivered(fs[f].op) * (w + 1) == Undelivered(fs'[f].op) * (w + 1) + (w + 1);
  }

  lemma TakingLowersWeight(fs: seq<Functor>, fs': seq<Functor>, plan: Plan, f: nat, p: nat)
    requires f < |fs| == |fs'| == |plan.rank| && p < |fs| && plan.rank[p] < plan.rank[f] < plan.top
    requires Undelivered(fs'[f].op) == Undelivered(fs[f].op) && fs'[p].op == fs[p].op
    requires !fs[f].hasValue && fs[p].hasValue && !fs'[p].hasValue
    ensures Weight(fs', plan, f) + Weight(fs', plan, p) < Weight(fs, plan, f) + Weight(fs, plan, p)
  {
  }

  lemma ConsumedLosesValue(fs: seq<Functor>, fs': seq<Functor>, plan: Plan, f: nat, o: Outcome, status: Status, k: nat)
    requires InForest(fs, plan) && f < |fs| && k < |fs[f].preds| == |o.consumed| && o.consumed[k]
    requires CalledAndMarked(fs, f, o, status, fs')
    ensures fs[f].preds[k] < |fs'| && !fs'[fs[f].preds[k]].hasValue
  {
    assert fs[f].preds[k] != f;
  }

  lemma BelowTransitive(a: seq<Functor>, b: seq<Functor>, c: seq<Functor>, plan: Plan)
    requires InForest(a, plan) && InForest(b, plan) && InForest(c, plan)
    requires (a == b && Below(b, c, plan)) || (Below(a, b, plan) && (b == c || Below(b, c, plan)))
    ensures Below(a, c, plan)
  {
  }

  // ----- what the outputs keep over a run -----

  /** The same graph, in which every output holds or is owed the same rows altogether. */
  ghost predicate Kept(fs0: seq<Functor>, fs: seq<Functor>, plan: Plan)
    requires InForest(fs0, plan) && InForest(fs, plan)
  {
    && SameShape(fs0, fs)
    && (forall i :: 0 <= i < |fs0| && fs0[i].op.MemoryOutput? ==> Collected(fs, plan, i) == Collected(fs0, plan, i))
  }

  lemma KeptStep(fs0: seq<Functor>, fs: seq<Functor>, fs': seq<Functor>, plan: Plan, f: nat)
    requires InForest(fs0, plan) && InForest(fs, plan) && InForest(fs', plan)
    requires Kept(fs0, fs, plan) && SameShape(fs, fs') && f < |fs| && SameOwed(fs, fs', plan, f)
    requires Honest(fs, plan) && Honest(fs', plan)
    ensures Kept(fs0, fs', plan)
  {
    hide Future;
    forall i | 0 <= i < |fs0| && fs0[i].op.MemoryOutput? ensures Collected(fs', plan, i) == Collected(fs0, plan, i) {
      assert i != f ==> Collected(fs', plan, i) == Collected(fs, plan, i);
    }
  }

  /** The chain of successors of any functor leads to an output. */
  lemma {:induction false} SomeOutput(fs: seq<Functor>, plan: Plan, i: nat) returns (o: nat)
    requires InForest(fs, plan) && EndsInOutputs(fs, plan) && i < |fs|
    ensures o < |fs| && fs[o].op.MemoryOutput?
    decreases plan.top - plan.rank[i]
  {
    if fs[i].op.MemoryOutput? { return i; }
    var k :| 0 <= k < |fs[plan.succ[i]].preds| && fs[plan.succ[i]].preds[k] == i;
    o := SomeOutput(fs, plan, plan.succ[i]);
  }

  // ----- asking for inputs -----

  /** No input of the top of the stack is itself on the stack. */
  lemma InputNotStacked(fs: seq<Functor>, plan: Plan, queue: seq<nat>, stack: seq<nat>, k: nat)
    requires stack != [] && Inv(fs, plan, queue, stack, |stack| - 1) && k < |fs[stack[|stack| - 1]].preds|
    ensures var f := stack[|stack| - 1]; fs[fs[f].preds[k]].status != Processing && plan.succ[fs[f].preds[k]] in stack
  {
    hide Future;
    var f := stack[|stack| - 1];
    var p := fs[f].preds[k];
    assert plan.succ[p] == f && !fs[p].op.MemoryOutput?;
    forall t | 0 <= t < |stack| ensures stack[t] != p {
      assert f !in stack[..t];
    }
  }

  /** A predecessor the engine has to ask for. */
  predicate Missing(fs: seq<Functor>, p: nat)
    requires p < |fs|
  {
    !fs[p].hasValue && fs[p].status != End && fs[p].status != ToProcess
  }

  /** The first k inputs of the top of the stack were looked at; end says none was queued. */
  ghost predicate Asked(fs0: seq<Functor>, fs: seq<Functor>, plan: Plan, queue0: seq<nat>, queue: seq<nat>,
                        stack: seq<nat>, k: nat, end: bool)
  {
    && stack != [] && InForest(fs0, plan) && Inv(fs, plan, queue, stack, |stack| - 1)
    && Kept(fs0, fs, plan)
    && (var inputs := fs0[stack[|stack| - 1]].preds;
        && k <= |inputs| && AllComing(fs, plan, stack, |stack| - 1, k)
        && (if end then
              && queue == queue0 && fs == fs0
              && forall l :: 0 <= l < k ==> !Missing(fs, inputs[l])
            else
              && queue != [] && Below(fs0, fs, plan)
              && exists l :: 0 <= l < k && Missing(fs0, inputs[l])))
  }

  lemma AskedNothing(fs: seq<Functor>, plan: Plan, queue: seq<nat>, stack: seq<nat>)
    requires stack != [] && Inv(fs, plan, queue, stack, |stack| - 1)
    ensures Asked(fs, fs, plan, queue, queue, stack, 0, true)
  {
  }

  lemma AskedInVain(fs0: seq<Functor>, fs: seq<Functor>, plan: Plan, queue0: seq<nat>, queue: seq<nat>,
                    stack: seq<nat>, k: nat)
    requires Asked(fs0, fs, plan, queue0, queue, stack, k, true)
    ensures queue == queue0 && fs == fs0
  {
  }

  lemma AskedNext(fs0: seq<Functor>, fs: seq<Functor>, plan: Plan, queue0: seq<nat>, queue: seq<nat>,
                  stack: seq<nat>, k: nat, end: bool)
    requires Asked(fs0, fs, plan, queue0, queue, stack, k, end) && k < |fs0[stack[|stack| - 1]].preds|
    ensures var p := fs0[stack[|stack| - 1]].preds[k];
      && p < |fs|
      && if Missing(fs, p)
         then Asked(fs0, fs[p := fs[p].(status := ToProcess)], plan, queue0, queue + [p], stack, k + 1, false)
         else Asked(fs0, fs, plan, queue0, queue, stack, k + 1, end)
  {
    hide Kept, Below, Inv;
    AskedTop(fs0, fs, plan, queue0, queue, stack, k, end);
    if Missing(fs, fs0[stack[|stack| - 1]].preds[k]) {
      AskedMissing(fs0, fs, plan, queue0, queue, stack, k, end);
    } else {
      assert Coming(fs, stack, |stack| - 1, fs0[stack[|stack| - 1]].preds[k]);
    }
  }

  lemma AskedTop(fs0: seq<Functor>, fs: seq<Functor>, plan: Plan, queue0: seq<nat>, queue: seq<nat>,
                 stack: seq<nat>, k: nat, end: bool)
    requires Asked(fs0, fs, plan, queue0, queue, stack, k, end) && k < |fs0[stack[|stack| - 1]].preds|
    ensures InForest(fs, plan) && |fs| == |fs0| && stack[|stack| - 1] < |fs|
    ensures fs[stack[|stack| - 1]].preds == fs0[stack[|stack| - 1]].preds
    ensures var preds := fs[stack[|stack| - 1]].preds; forall l :: 0 <= l < |preds| ==> preds[l] < |fs|
  {
    hide Below;
    SameInputs(fs0, fs, plan, stack[|stack| - 1]);
  }

  lemma AskedMissing(fs0: seq<Functor>, fs: seq<Functor>, plan: Plan, queue0: seq<nat>, queue: seq<nat>,
                     stack: seq<nat>, k: nat, end: bool)
    requires Asked(fs0, fs, plan, queue0, queue, stack, k, end) && k < |fs0[stack[|stack| - 1]].preds|
    requires var p := fs0[stack[|stack| - 1]].preds[k]; p < |fs| && Missing(fs, p)
    ensures var p := fs0[stack[|stack| - 1]].preds[k];
      Asked(fs0, fs[p := fs[p].(status := ToProcess)], plan, queue0, queue + [p], stack, k + 1, false)
  {
    hide Kept, Below;
    var p := fs0[stack[|stack| - 1]].preds[k];
    AskedTop(fs0, fs, plan, queue0, queue, stack, k, end);
    InputNotStacked(fs, plan, queue, stack, k);
    RequestKept(fs0, fs, plan, queue, stack, p);
    RequestComing(fs, plan, stack, k);
    hide Inv;
    if end { assert Missing(fs0, p); }
  }

  lemma SameInputs(fs0: seq<Functor>, fs: seq<Functor>, plan: Plan, f: nat)
    requires InForest(fs0, plan) && InForest(fs, plan) && Kept(fs0, fs, plan) && f < |fs0|
    ensures |fs| == |fs0| && fs[f].preds == fs0[f].preds
    ensures forall k :: 0 <= k < |fs[f].preds| ==> fs[f].preds[k] < |fs|
  {
  }

  lemma RequestKept(fs0: seq<Functor>, fs: seq<Functor>, plan: Plan, queue: seq<nat>, stack: seq<nat>, p: nat)
    requires InForest(fs0, plan) && stack != [] && Inv(fs, plan, queue, stack, |stack| - 1)
    requires p < |fs| && !fs[p].hasValue && fs[p].status == Null && plan.succ[p] in stack
    requires Kept(fs0, fs, plan) && (fs0 == fs || Below(fs0, fs, plan))
    ensures var fs' := fs[p := fs[p].(status := ToProcess)];
      && Inv(fs', plan, queue + [p], stack, |stack| - 1)
      && Kept(fs0, fs', plan) && Below(fs0, fs', plan)
  {
    hide Future, Work;
    var fs' := fs[p := fs[p].(status := ToProcess)];
    Enqueue(fs, plan, queue, stack, |stack| - 1, p);
    StatusIsIrrelevant(fs, fs', plan, p, ToProcess);
    StatusLowers(fs, plan, p, ToProcess);
    KeptStep(fs0, fs, fs', plan, p);
    BelowTransitive(fs0, fs, fs', plan);
  }

  lemma RequestComing(fs: seq<Functor>, plan: Plan, stack: seq<nat>, k: nat)
    requires InForest(fs, plan) && stack != [] && stack[|stack| - 1] < |fs| && k < |fs[stack[|stack| - 1]].preds|
    requires AllComing(fs, plan, stack, |stack| - 1, k)
    ensures var n := |stack| - 1;
      var p := fs[stack[n]].preds[k];
      var fs' := fs[p := fs[p].(status := ToProcess)];
      InForest(fs', plan) && AllComing(fs', plan, stack, n, k + 1)
  {
    var n := |stack| - 1;
    var p := fs[stack[n]].preds[k];
    var fs' := fs[p := fs[p].(status := ToProcess)];
    ShapeKeepsForest(fs, fs', plan);
    forall l | 0 <= l < |fs[stack[n]].preds| && l <= k ensures Coming(fs', stack, n, fs'[stack[n]].preds[l]) {
      if l < k { assert Coming(fs, stack, n, fs[stack[n]].preds[l]); }
    }
  }

  // ----- the three phases of a round -----

  lemma KeptAtStart(fs: seq<Functor>, plan: Plan, queue: seq<nat>, stack: seq<nat>)
    requires Inv(fs, plan, queue, stack, |stack|)
    ensures InForest(fs, plan) && Kept(fs, fs, plan)
  {
  }

  lemma QueueHead(fs: seq<Functor>, plan: Plan, queue: seq<nat>, stack: seq<nat>)
    requires Inv(fs, plan, queue, stack, |stack|) && queue != []
    ensures queue[0] < |fs| && fs[queue[0]].status == ToProcess && !fs[queue[0]].hasValue
  {
  }

  lemma MarkOver(fs: seq<Functor>, fs': seq<Functor>, f: nat, o: Outcome, status: Status, status': Status)
    requires f < |fs| && CalledAndMarked(fs, f, o, status, fs')
    ensures f < |fs'| && CalledAndMarked(fs, f, o, status', fs'[f := fs'[f].(status := status')])
  {
    assert fs'[f := fs'[f].(status := status')][f := fs[f].(op := o.op)] == fs'[f := fs[f].(op := o.op)];
  }

  lemma ExtractorCalled(fs0: seq<Functor>, fs: seq<Functor>, fs': seq<Functor>, plan: Plan, queue: seq<nat>,
                        stack: seq<nat>, o: Outcome)
    requires Inv(fs, plan, queue, stack, |stack|) && queue != [] && fs[queue[0]].preds == []
    requires InForest(fs0, plan) && Kept(fs0, fs, plan) && (fs0 == fs || Below(fs0, fs, plan))
    requires o == Step(fs[queue[0]].op, HeadsAt(fs, queue[0]))
    requires CalledAndMarked(fs, queue[0], o, if o.ok then Null else End, fs')
    ensures Inv(fs', plan, queue[1..], stack, |stack|) && InForest(fs', plan)
    ensures Kept(fs0, fs', plan) && Below(fs, fs', plan) && Below(fs0, fs', plan)
  {
    hide Step, Future, Work, Kept, Below;
    var f := queue[0];
    PopExtractor(fs, fs', plan, queue, stack, |stack|, o);
    CallIsTransition(fs, fs', plan, f, o, if o.ok then Null else End);
    StepProgress(fs[f].op, HeadsAt(fs, f));
    KeptStep(fs0, fs, fs', plan, f);
    CallLowers(fs, fs', plan, f, o, if o.ok then Null else End);
    BelowTransitive(fs0, fs, fs', plan);
  }

  lemma Stacked(fs0: seq<Functor>, fs: seq<Functor>, plan: Plan, queue: seq<nat>, stack: seq<nat>)
    requires Inv(fs, plan, queue, stack, |stack|) && queue != []
    requires InForest(fs0, plan) && InForest(fs, plan) && Kept(fs0, fs, plan) && (fs0 == fs || Below(fs0, fs, plan))
    ensures var fs' := fs[queue[0] := fs[queue[0]].(status := Processing)];
      && Inv(fs', plan, queue[1..], stack + [queue[0]], |stack|) && InForest(fs', plan)
      && Kept(fs0, fs', plan) && Below(fs, fs', plan) && Below(fs0, fs', plan)
  {
    hide Future, Work, Kept, Below;
    var f := queue[0];
    var fs' := fs[f := fs[f].(status := Processing)];
    PopToStack(fs, plan, queue, stack, |stack|);
    StatusIsIrrelevant(fs, fs', plan, f, Processing);
    KeptStep(fs0, fs, fs', plan, f);
    StatusLowers(fs, plan, f, Processing);
    BelowTransitive(fs0, fs, fs', plan);
  }

  /** After all inputs were looked at the top of the stack is served. */
  lemma AskedAll(fs0: seq<Functor>, fs: seq<Functor>, fs': seq<Functor>, plan: Plan, queue0: seq<nat>, queue: seq<nat>,
                 stack: seq<nat>, end: bool)
    requires stack != [] && stack[|stack| - 1] < |fs| && InForest(fs, plan)
    requires Asked(fs, fs', plan, queue0, queue, stack, |fs[stack[|stack| - 1]].preds|, end)
    requires InForest(fs0, plan) && Kept(fs0, fs, plan) && Below(fs0, fs, plan)
    ensures Inv(fs', plan, queue, stack, |stack|) && InForest(fs', plan)
    ensures Kept(fs0, fs', plan) && Below(fs0, fs', plan) && (fs' == fs || Below(fs, fs', plan))
  {
    hide Future, Work, Below;
    if !end { BelowTransitive(fs0, fs, fs', plan); }
    KeptTransitive(fs0, fs, fs', plan);
    SameInputs(fs, fs', plan, stack[|stack| - 1]);
  }

  lemma KeptTransitive(a: seq<Functor>, b: seq<Functor>, c: seq<Functor>, plan: Plan)
    requires InForest(a, plan) && InForest(b, plan) && InForest(c, plan)
    requires Kept(a, b, plan) && Kept(b, c, plan)
    ensures Kept(a, c, plan)
  {
  }

  lemma StackTop(fs: seq<Functor>, plan: Plan, stack: seq<nat>)
    requires Inv(fs, plan, [], stack, |stack|) && stack != []
    ensures var f := stack[|stack| - 1];
      && f < |fs| && fs[f].status == Processing && !fs[f].hasValue && Ready(fs, plan, f)
      && (forall k :: 0 <= k < |fs[f].preds| ==> fs[fs[f].preds[k]].hasValue || fs[fs[f].preds[k]].status == End)
    ensures stack == stack[..|stack| - 1] + [stack[|stack| - 1]]
  {
    TopIsReady(fs, plan, stack);
  }

  /** The call of the top showed a row, or took nothing and ended it. */
  lemma TopCalled(fs0: seq<Functor>, fs: seq<Functor>, fs': seq<Functor>, plan: Plan, stack: seq<nat>, o: Outcome)
    requires Inv(fs, plan, [], stack, |stack|) && stack != []
    requires InForest(fs0, plan) && Kept(fs0, fs, plan) && (fs0 == fs || Below(fs0, fs, plan))
    requires o == Step(fs[stack[|stack| - 1]].op, HeadsAt(fs, stack[|stack| - 1]))
    requires CalledAndMarked(fs, stack[|stack| - 1], o, if o.ok then Null else End, fs')
    requires o.ok || !Progress(fs[stack[|stack| - 1]].op, o)
    ensures Inv(fs', plan, [], stack[..|stack| - 1], |stack| - 1) && InForest(fs', plan)
    ensures Kept(fs0, fs', plan) && Below(fs, fs', plan) && Below(fs0, fs', plan)
  {
    hide Step, Future, Work, Kept, Below;
    var f := stack[|stack| - 1];
    TopIsReady(fs, plan, stack);
    PopStack(fs, fs', plan, stack, o);
    CallIsTransition(fs, fs', plan, f, o, if o.ok then Null else End);
    StepProgress(fs[f].op, HeadsAt(fs, f));
    KeptStep(fs0, fs, fs', plan, f);
    CallLowers(fs, fs', plan, f, o, if o.ok then Null else End);
    BelowTransitive(fs0, fs, fs', plan);
  }

  lemma TopStays(fs0: seq<Functor>, fs: seq<Functor>, fs': seq<Functor>, plan: Plan, stack: seq<nat>, o: Outcome)
    requires Inv(fs, plan, [], stack, |stack|) && stack != []
    requires InForest(fs0, plan) && Kept(fs0, fs, plan)
    requires o == Step(fs[stack[|stack| - 1]].op, HeadsAt(fs, stack[|stack| - 1]))
    requires CalledAndMarked(fs, stack[|stack| - 1], o, Processing, fs') && !o.ok
    ensures Inv(fs', plan, [], stack, |stack| - 1) && InForest(fs', plan) && Kept(fs0, fs', plan)
    ensures |fs'| == |fs| && fs'[stack[|stack| - 1]].preds == fs[stack[|stack| - 1]].preds
  {
    hide Step, Future, Work, Kept, Below;
    StayOnStack(fs, fs', plan, stack, o);
    CallIsTransition(fs, fs', plan, stack[|stack| - 1], o, Processing);
    KeptStep(fs0, fs, fs', plan, stack[|stack| - 1]);
  }

  /** An input of the top is missing after a call exactly when the call took it. */
  lemma MissingIsTaken(fs: seq<Functor>, fs': seq<Functor>, plan: Plan, stack: seq<nat>, o: Outcome, k: nat)
    requires Inv(fs, plan, [], stack, |stack|) && stack != []
    requires CalledAndMarked(fs, stack[|stack| - 1], o, Processing, fs') && !o.ok
    requires o == Step(fs[stack[|stack| - 1]].op, HeadsAt(fs, stack[|stack| - 1]))
    requires k < |fs[stack[|stack| - 1]].preds|
    ensures |fs'| == |fs|
    ensures Missing(fs', fs[stack[|stack| - 1]].preds[k]) == o.consumed[k]
  {
    hide Step, Future;
    var f := stack[|stack| - 1];
    var p := fs[f].preds[k];
    TopIsReady(fs, plan, stack);
    CallIsTransition(fs, fs', plan, f, o, Processing);
    assert p != f;
    assert o.consumed[k] ==> HeadsAt(fs, f)[k].Some?;
  }

  lemma NothingTaken(fs: seq<Functor>, fs': seq<Functor>, plan: Plan, stack: seq<nat>, o: Outcome)
    requires Inv(fs, plan, [], stack, |stack|) && stack != []
    requires CalledAndMarked(fs, stack[|stack| - 1], o, Processing, fs') && !o.ok
    requires o == Step(fs[stack[|stack| - 1]].op, HeadsAt(fs, stack[|stack| - 1]))
    requires Asked(fs', fs', plan, [], [], stack, |fs[stack[|stack| - 1]].preds|, true)
    ensures !Progress(fs[stack[|stack| - 1]].op, o)
  {
    hide Step, Kept, AllComing, Future;
    CallIsTransition(fs, fs', plan, stack[|stack| - 1], o, Processing);
    forall k | 0 <= k < |o.consumed| ensures !o.consumed[k] {
      MissingIsTaken(fs, fs', plan, stack, o, k);
    }
  }

  /** The call took inputs without a result: they were asked for, and the round goes on from the queue. */
  lemma TopWaits(fs0: seq<Functor>, fs: seq<Functor>, fs': seq<Functor>, fs'': seq<Functor>, plan: Plan,
                 queue: seq<nat>, stack: seq<nat>, o: Outcome)
    requires Inv(fs, plan, [], stack, |stack|) && stack != []
    requires InForest(fs0, plan) && (fs0 == fs || Below(fs0, fs, plan))
    requires CalledAndMarked(fs, stack[|stack| - 1], o, Processing, fs') && !o.ok
    requires o == Step(fs[stack[|stack| - 1]].op, HeadsAt(fs, stack[|stack| - 1]))
    requires InForest(fs', plan) && Kept(fs0, fs', plan)
    requires Asked(fs', fs'', plan, [], queue, stack, |fs[stack[|stack| - 1]].preds|, false)
    ensures Inv(fs'', plan, queue, stack, |stack|) && queue != [] && InForest(fs'', plan)
    ensures Kept(fs0, fs'', plan) && Below(fs0, fs'', plan)
  {
    hide Step, Future, Work, Below, CalledAndMarked;
    var f := stack[|stack| - 1];
    CallIsTransition(fs, fs', plan, f, o, Processing);
    var l :| 0 <= l < |fs'[f].preds| && Missing(fs', fs'[f].preds[l]);
    MissingIsTaken(fs, fs', plan, stack, o, l);
    CallLowers(fs, fs', plan, f, o, Processing);
    BelowTransitive(fs0, fs, fs', plan);
    AskedAll(fs0, fs', fs'', plan, [], queue, stack, false);
  }

  /** The call took nothing and no input is missing: the top is over. */
  lemma TopOver(fs0: seq<Functor>, fs: seq<Functor>, fs': seq<Functor>, fs'': seq<Functor>, plan: Plan,
                queue: seq<nat>, stack: seq<nat>, o: Outcome)
    requires Inv(fs, plan, [], stack, |stack|) && stack != []
    requires InForest(fs0, plan) && Kept(fs0, fs, plan) && (fs0 == fs || Below(fs0, fs, plan))
    requires CalledAndMarked(fs, stack[|stack| - 1], o, Processing, fs') && !o.ok
    requires o == Step(fs[stack[|stack| - 1]].op, HeadsAt(fs, stack[|stack| - 1]))
    requires Asked(fs', fs'', plan, [], queue, stack, |fs[stack[|stack| - 1]].preds|, true)
    ensures fs'' == fs' && queue == []
    ensures var f := stack[|stack| - 1];
      var over := fs'[f := fs'[f].(status := End)];
      && Inv(over, plan, [], stack[..|stack| - 1], |stack| - 1) && InForest(over, plan)
      && Kept(fs0, over, plan) && Below(fs, over, plan) && Below(fs0, over, plan)
  {
    hide Inv, Kept, Below, Step, CalledAndMarked;
    var f := stack[|stack| - 1];
    StackTop(fs, plan, stack);
    AskedInVain(fs', fs'', plan, [], queue, stack, |fs[f].preds|);
    NothingTaken(fs, fs', plan, stack, o);
    MarkOver(fs, fs', f, o, Processing, End);
    TopCalled(fs0, fs, fs'[f := fs'[f].(status := End)], plan, stack, o);
  }

  lemma StartsIdle(fs: seq<Functor>, plan: Plan)
    requires InForest(fs, plan)
    requires forall i :: 0 <= i < |fs| ==> fs[i].status == Null && (fs[i].op.MemoryOutput? ==> !fs[i].hasValue)
    ensures Inv(fs, plan, [], [], 0)
  {
  }

  /** Statuses say nothing about the rows a graph owes. */
  lemma StatusesAreIrrelevant(fs: seq<Functor>, fs': seq<Functor>, plan: Plan, i: nat)
    requires InForest(fs, plan) && InForest(fs', plan) && i < |fs| == |fs'|
    requires forall g :: 0 <= g < |fs| ==> fs'[g] == fs[g].(status := fs'[g].status)
    ensures Owed(fs', plan, i) == Owed(fs, plan, i) && Future(fs', plan, i) == Future(fs, plan, i)
    decreases plan.rank[i]
  {
    forall k | 0 <= k < |fs[i].preds| ensures Owed(fs', plan, fs[i].preds[k]) == Owed(fs, plan, fs[i].preds[k]) {
      StatusesAreIrrelevant(fs, fs', plan, fs[i].preds[k]);
    }
    assert Inputs(fs', plan, i) == Inputs(fs, plan, i);
  }

  lemma QueuedIfToProcess(fs: seq<Functor>, plan: Plan, queue: seq<nat>, i: nat)
    requires Inv(fs, plan, queue, [], 0) && i < |fs|
    ensures fs[i].status == ToProcess ==> i in queue
  {
  }

  lemma RestartOne(fs0: seq<Functor>, fs: seq<Functor>, plan: Plan, queue: seq<nat>, o: nat)
    requires Inv(fs, plan, queue, [], 0) && o < |fs| && fs[o].op.MemoryOutput?
    requires fs[o].status != End && fs[o].status != ToProcess
    requires InForest(fs0, plan) && Kept(fs0, fs, plan)
    ensures var fs' := fs[o := fs[o].(status := ToProcess)];
      Inv(fs', plan, queue + [o], [], 0) && InForest(fs', plan) && Kept(fs0, fs', plan) && Below(fs, fs', plan)
  {
    hide Future, Work;
    var fs' := fs[o := fs[o].(status := ToProcess)];
    assert fs[o].status == Processing ==> o in [];
    Enqueue(fs, plan, queue, [], 0, o);
    StatusIsIrrelevant(fs, fs', plan, o, ToProcess);
    StatusLowers(fs, plan, o, ToProcess);
    KeptStep(fs0, fs, fs', plan, o);
  }

  /** Once all outputs are over, each holds every row it was ever owed. */
  lemma AllDelivered(fs0: seq<Functor>, fs: seq<Functor>, plan: Plan, o: nat)
    requires Inv(fs, plan, [], [], 0) && InForest(fs0, plan) && Kept(fs0, fs, plan)
    requires o < |fs0| && fs0[o].op.MemoryOutput? && !fs0[o].hasValue && fs[o].status == End
    ensures fs[o].op == MemoryOutput(fs0[o].op.values + Future(fs0, plan, o))
  {
    hide Denote, Inputs, Lists, Served, Demanded, Future;
    assert Honest(fs, plan);
    assert Collected(fs, plan, o) == fs[o].op.values;
  }

  lemma KeptShape(fs0: seq<Functor>, fs: seq<Functor>, plan: Plan)
    requires InForest(fs0, plan) && InForest(fs, plan) && Kept(fs0, fs, plan)
    ensures SameShape(fs0, fs)
  {
  }

  lemma RoundDone(fs0: seq<Functor>, fs1: seq<Functor>, fs2: seq<Functor>, fs3: seq<Functor>, fs4: seq<Functor>,
                  plan: Plan)
    requires InForest(fs0, plan) && InForest(fs1, plan) && InForest(fs2, plan) && InForest(fs3, plan)
      && InForest(fs4, plan)
    requires Kept(fs0, fs1, plan) && Kept(fs1, fs2, plan) && Kept(fs2, fs3, plan) && Kept(fs3, fs4, plan)
    requires Below(fs1, fs2, plan) && (fs3 == fs2 || Below(fs2, fs3, plan)) && (fs4 == fs3 || Below(fs3, fs4, plan))
    ensures Kept(fs0, fs4, plan) && Below(fs1, fs4, plan)
  {
    hide Kept, Below;
    KeptTransitive(fs0, fs1, fs2, plan);
    KeptTransitive(fs0, fs2, fs3, plan);
    KeptTransitive(fs0, fs3, fs4, plan);
    BelowTransitive(fs1, fs2, fs3, plan);
    BelowTransitive(fs1, fs3, fs4, plan);
  }
}
