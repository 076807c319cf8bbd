/** The protocol between AsynchronousReader and its worker thread in csv.h, as a state machine whose
    steps are the stretches of code that run under the lock. */
module ReadAhead {
  /** Where the worker is: about to test its wait condition, asleep on it, or ended. */
  datatype WorkerPc = Checking | Asleep | Exited

  /** Where the reading thread is: outside the reader, about to test or asleep in finish_read, in the
      destructor before its notification or at join, or done. */
  datatype MainPc = Away | Waiting | Dozing | Notifying | Joining | Gone

  /** The fields of the reader. open: a read was started and its result not yet collected; ended: the
      last result collected was the end of the file or an error. */
  datatype State = State(worker: WorkerPc, main: MainPc, desired: int, count: int, error: bool, terminate: bool,
    open: bool, ended: bool)

  /** What the byte source does when asked. */
  datatype Outcome = Bytes(n: nat) | Fails

  predicate Start(s: State) {
    s == State(Checking, Away, -1, s.count, false, false, false, false)
  }

  /** The condition finish_read waits for. */
  predicate Answered(s: State) { s.count != -1 || s.error }

  /** The condition the worker waits for. */
  predicate Called(s: State) { s.desired != -1 || s.terminate }

  // ----- the steps of the worker -----

  function WakeMain(s: State): State {
    if s.main == Dozing then s.(main := Waiting) else s
  }

  function WakeWorker(s: State): State {
    if s.worker == Asleep then s.(worker := Checking) else s
  }

  /** One turn of the worker's loop under the lock; o is what the source does if it is asked. */
  function WorkerTurn(s: State, o: Outcome): State {
    if !Called(s) then s.(worker := Asleep)
    else if s.terminate then s.(worker := Exited)
    else match o
      case Fails => WakeMain(s.(error := true, worker := Exited))
      case Bytes(n) => WakeMain(s.(count := n, desired := -1, worker := if n == 0 then Exited else Checking))
  }

  ghost predicate WorkerStep(s: State, t: State) {
    || (s.worker == Checking && exists o: Outcome :: (o.Bytes? ==> o.n <= s.desired) && t == WorkerTurn(s, o))
    || (s.worker == Asleep && t == s.(worker := Checking))   // a spurious wakeup
  }

  // ----- the steps of the reading thread -----

  function Started(s: State, n: int): State {
    WakeWorker(s.(desired := n, count := -1, open := true))
  }

  /** finish_read tests its condition: it returns, or sleeps. */
  function Tested(s: State): State {
    if Answered(s) then s.(main := Away, open := false, ended := s.error || s.count == 0) else s.(main := Dozing)
  }

  /** A client starts one read at a time, and collects nothing more after the end. */
  ghost predicate MainStep(s: State, t: State) {
    || (s.main == Away && !s.open && exists n: nat :: n > 0 && t == Started(s, n))
    || (s.main == Away && s.open && !s.ended && t == s.(main := Waiting))
    || (s.main == Waiting && t == Tested(s))
    || (s.main == Dozing && t == s.(main := Waiting))        // a spurious wakeup
    || (s.main == Away && t == s.(terminate := true, main := Notifying))
    || (s.main == Notifying && t == WakeWorker(s.(main := Joining)))
    || (s.main == Joining && s.worker == Exited && t == s.(main := Gone))
  }

  ghost predicate Next(s: State, t: State) { WorkerStep(s, t) || MainStep(s, t) }

  /** Every interleaving: each state follows from the one before by a step of either thread. */
  ghost predicate Run(states: seq<State>) {
    && states != [] && Start(states[0])
    && forall i, j :: 0 <= i < j == i + 1 < |states| ==> Next(states[i], states[j])
  }

  // ----- what every step keeps -----

  predicate Inv(s: State) {
    && (s.terminate <==> s.main.Notifying? || s.main.Joining? || s.main.Gone?)
    && (s.worker == Asleep ==> !Called(s) || s.main == Notifying)
    && (s.main.Waiting? || s.main.Dozing? ==> s.open && !s.ended)
    && (s.main == Dozing ==> !Answered(s))
    && (s.error ==> s.worker == Exited)
    && (s.worker == Exited ==> s.terminate || s.error || s.ended || (s.open && s.count == 0))
    && (s.ended || (s.open && s.count == 0) ==> s.worker == Exited)
    && (s.desired != -1 && !s.error ==> s.desired > 0 && s.open && s.count == -1)
    && (s.open && s.count == -1 && !s.error && !s.ended ==> s.desired != -1)
    && (s.open ==> s.count >= -1)
  }

  lemma InvStarts(s: State)
    requires Start(s)
    ensures Inv(s)
  {
  }

  lemma InvStays(s: State, t: State)
    requires Inv(s) && Next(s, t)
    ensures Inv(t)
  {
  }

  lemma {:induction false} InvAlways(states: seq<State>, i: nat)
    requires Run(states) && i < |states|
    ensures Inv(states[i])
  {
    if i == 0 {
      InvStarts(states[0]);
    } else {
      InvAlways(states, i - 1);
      InvStays(states[i - 1], states[i]);
    }
  }

  /** In every interleaving, whenever finish_read has nothing to return, the worker is neither ended nor
      asleep: its next turn, whatever the source does, answers the call and wakes it. */
  lemma FinishReadIsServed(states: seq<State>, i: nat, o: Outcome)
    requires Run(states) && i < |states|
    requires (states[i].main.Waiting? || states[i].main.Dozing?) && !Answered(states[i])
    ensures states[i].worker == Checking
    ensures var t := WorkerTurn(states[i], o); Answered(t) && t.main == Waiting && Tested(t).main == Away
  {
    InvAlways(states, i);
  }

  /** The destructor never hangs: at join the worker has ended, or ends in its next turn without reading. */
  lemma JoinEnds(states: seq<State>, i: nat, o: Outcome)
    requires Run(states) && i < |states| && states[i].main == Joining
    ensures states[i].worker == Exited || (states[i].worker == Checking
      && WorkerTurn(states[i], o) == states[i].(worker := Exited))
  {
    InvAlways(states, i);
  }

  /** The worker touches the buffer only between start_read and the return of its finish_read. */
  lemma ReadsOnlyWhileOpen(states: seq<State>, i: nat)
    requires Run(states) && i < |states|
    requires states[i].worker == Checking && states[i].desired != -1 && !states[i].terminate
    ensures states[i].open && states[i].count == -1 && !states[i].ended
  {
    InvAlways(states, i);
  }

  // ----- why nothing may be collected after the end -----

  /** finish_read waits and the worker has ended without an answer. */
  predicate Stuck(s: State) {
    s.worker == Exited && !Answered(s) && (s.main.Waiting? || s.main.Dozing?)
  }

  /** A client that did call finish_read once more would wait forever: no step leads out. */
  lemma {:induction false} StuckForever(states: seq<State>, i: nat, j: nat)
    requires i <= j < |states| && Stuck(states[i])
      && forall k, l :: 0 <= k < l == k + 1 < |states| ==> Next(states[k], states[l])
    ensures Stuck(states[j])
    decreases j
  {
    if i < j {
      StuckForever(states, i, j - 1);
      assert Next(states[j - 1], states[j]);
    }
  }

  /** A client can get there: it reads to the end, collects it, starts another read, and would then collect. */
  lemma EndCollectedTwice() returns (states: seq<State>)
    ensures Run(states)
    ensures var s := states[|states| - 1]; s.main == Away && s.open && s.count == -1 && Stuck(s.(main := Waiting))
  {
    var s0 := State(Checking, Away, -1, 0, false, false, false, false);
    var s1 := Started(s0, 1);
    var s2 := WorkerTurn(s1, Bytes(0));
    var s3 := s2.(main := Waiting);
    var s4 := Tested(s3);
    var s5 := Started(s4, 1);
    states := [s0, s1, s2, s3, s4, s5];
    assert WorkerStep(s1, s2) by { assert Bytes(0).n <= s1.desired; }
    assert MainStep(s0, s1) && MainStep(s2, s3) && MainStep(s3, s4) && MainStep(s4, s5);
    assert Next(s0, s1) && Next(s1, s2) && Next(s2, s3) && Next(s3, s4) && Next(s4, s5);
  }

  /** Entering finish_read with an open read is safe exactly when the end has not been collected, or a
      read error is there to be thrown again. */
  lemma MayCollect(s: State)
    requires Inv(s) && s.main == Away && s.open && s.count == -1
    ensures Stuck(s.(main := Waiting)) <==> s.ended && !s.error
  {
  }
}
