/**
 * Progress and shutdown: every step of a thread in `run`, of the platform thread and
 * of the closing thread lowers a rank, unless an unrelated window event wakes the
 * platform thread. Once the executor is closed nothing can raise the rank again, so
 * the event loop returns.
 */
module ExecutorShutdown {
  import opened Wrappers
  import opened PlatformExecutor

  // ---------------------------------------------------------------------
  // What is left to do

  /** The steps left to a thread that is not admitted again. */
  function Weight(x: Submitter): nat {
    match x
    case AwaitingSlot(_) => 8
    case HoldingSlot(_) => 7
    case Writing(_) => 6
    case Publishing(_) => 5
    case Leaving(_) => 4
    case Posting(_) => 3
    case AwaitingResult(_) => 2
    case Outside => 1
    case Rejected => 0
  }

  function TotalWeight(submitters: seq<Submitter>): nat {
    if submitters == [] then 0 else TotalWeight(submitters[..|submitters| - 1]) + Weight(submitters[|submitters| - 1])
  }

  lemma {:induction false} WeightUpdate(submitters: seq<Submitter>, t: nat, x: Submitter)
    requires t < |submitters|
    ensures TotalWeight(submitters[t := x]) == TotalWeight(submitters) - Weight(submitters[t]) + Weight(x)
  {
    var n := |submitters| - 1;
    if t == n {
      assert submitters[t := x][..n] == submitters[..n];
    } else {
      assert submitters[t := x][..n] == submitters[..n][t := x];
      WeightUpdate(submitters[..n], t, x);
    }
  }

  /** The steps left to the threads that may still post an event. */
  function Posters(s: State): nat {
    TotalWeight(s.submitters) + (if s.closer == CloseDone then 0 else 1)
  }

  /** Which drains are still to come. */
  function Stage(s: State): nat {
    match PhaseOf(s.consumer)
    case WhileRunning => 3
    case WhileAdmitted => if s.consumer.CheckAdmitted? && s.admitted == 0 then 1 else 2
    case Final => 0
  }

  function Events(s: State): nat {
    if s.event then 1 else 0
  }

  /** Where the platform thread is between two waits. */
  function Position(c: Consumer): nat {
    match c
    case CheckRunning => 9
    case CheckAdmitted => 8
    case Popping(_) => 7
    case Freeing(_, _) => 6
    case Executing(_, _) => 5
    case Completing(_, _) => 4
    case Draining(_) => 3
    case Recheck(_) => 2
    case Waiting(_) => 1
    case Returned => 0
  }

  /** The platform thread is closer to its return although no thread has moved. */
  predicate ConsumerAdvances(s: State, s': State) {
    || Stage(s') < Stage(s)
    || (Stage(s') == Stage(s) && Events(s') < Events(s))
    || (Stage(s') == Stage(s) && Events(s') == Events(s) && s'.ready < s.ready)
    || (Stage(s') == Stage(s) && Events(s') == Events(s) && s'.ready == s.ready && Position(s'.consumer) < Position(s.consumer))
  }

  predicate Advances(s: State, s': State) {
    Posters(s') < Posters(s) || (Posters(s') == Posters(s) && ConsumerAdvances(s, s'))
  }

  // ---------------------------------------------------------------------
  // Every step advances

  /** The thread has fewer steps left, and the other threads and the closing thread are as before. */
  predicate ThreadMoves(s: State, t: nat, s': State)
    requires t < |s.submitters|
  {
    && |s'.submitters| == |s.submitters| && s'.submitters == s.submitters[t := s'.submitters[t]]
    && Weight(s'.submitters[t]) < Weight(s.submitters[t])
    && s'.closer == s.closer && s'.closing == s.closing
  }

  lemma EnterMoves(s: State, t: nat, s': State)
    requires t < |s.submitters| && (!s.accepting || s.submitters[t] != Outside) && IsEntering(s.submitters[t]) && EnterStep(s, t) == Some(s')
    ensures ThreadMoves(s, t, s')
  {
  }

  lemma LeaveMoves(s: State, t: nat, s': State)
    requires Sized(s) && t < |s.submitters| && !IsEntering(s.submitters[t]) && LeaveStep(s, t) == Some(s')
    ensures ThreadMoves(s, t, s')
  {
  }

  lemma SubmitAdvances(s: State, t: nat, s': State)
    requires Sized(s) && t < |s.submitters| && (!s.accepting || s.submitters[t] != Outside) && SubmitStep(s, t) == Some(s')
    ensures Posters(s') < Posters(s) && s'.closing == s.closing
  {
    if IsEntering(s.submitters[t]) {
      EnterMoves(s, t, s');
    } else {
      LeaveMoves(s, t, s');
    }
    WeightUpdate(s.submitters, t, s'.submitters[t]);
  }

  lemma LoopAdvances(s: State, s': State)
    requires Sized(s) && ShutdownInvariant(s) && !IsHandling(s.consumer) && LoopStep(s) == Some(s')
    ensures Posters(s') == Posters(s) && s'.closing == s.closing && ConsumerAdvances(s, s')
  {
  }

  lemma HandleKeepsCounters(s: State, s': State)
    requires Sized(s) && IsHandling(s.consumer) && HandleStep(s) == Some(s')
    ensures s'.submitters == s.submitters && s'.closer == s.closer && s'.closing == s.closing
    ensures s'.event == s.event && s'.ready == s.ready
  {
  }

  lemma HandleMovesOn(s: State, s': State)
    requires Sized(s) && IsHandling(s.consumer) && HandleStep(s) == Some(s')
    ensures PhaseOf(s'.consumer) == PhaseOf(s.consumer) && Position(s'.consumer) < Position(s.consumer) < 8
  {
  }

  lemma HandleAdvances(s: State, s': State)
    requires Sized(s) && IsHandling(s.consumer) && HandleStep(s) == Some(s')
    ensures Posters(s') == Posters(s) && s'.closing == s.closing && ConsumerAdvances(s, s')
  {
    HandleKeepsCounters(s, s');
    HandleMovesOn(s, s');
  }

  /** Every step lowers the rank but a new admission, the closing of the executor and an unrelated window event. */
  lemma StepAdvances(s: State, a: Action, s': State)
    requires ShutdownInvariant(s) && Sized(s) && Step(s, a) == Some(s') && a != Wake && a != Close
    requires a.Submit? ==> s.closing || s.submitters[a.thread] != Outside
    ensures Advances(s, s') && s'.closing == s.closing
  {
    match a
    case Submit(t) => SubmitAdvances(s, t, s');
    case Consume =>
      if IsHandling(s.consumer) {
        HandleAdvances(s, s');
      } else {
        LoopAdvances(s, s');
      }
    case PostClose =>
  }

  /** In a closed executor every step but an unrelated window event advances the shutdown, and the executor stays closed. */
  lemma ClosedStepAdvances(s: State, a: Action, s': State)
    requires ShutdownInvariant(s) && s.closing && a != Wake
    requires Sized(s) && Step(s, a) == Some(s')
    ensures Advances(s, s') && s'.closing
  {
    StepAdvances(s, a, s');
  }

  /** An infinite schedule from a closed executor: some thread goes on until the event loop has returned. */
  ghost predicate GoesOn(states: nat -> State, actions: nat -> Action) {
    forall i: nat :: GoesOnAt(states, actions, i)
  }

  ghost predicate GoesOnAt(states: nat -> State, actions: nat -> Action, i: nat) {
    states(i).consumer == Returned
    || (actions(i) != Wake && Sized(states(i)) && Step(states(i), actions(i)) == Some(states(i + 1)))
  }

  lemma {:induction false} ReturnsFrom(states: nat -> State, actions: nat -> Action, i: nat) returns (n: nat)
    requires GoesOn(states, actions) && Invariant(states(i)) && states(i).closing
    ensures states(n).consumer == Returned
    decreases Posters(states(i)), Stage(states(i)), Events(states(i)), states(i).ready, Position(states(i).consumer)
  {
    if states(i).consumer == Returned {
      n := i;
    } else {
      assert GoesOnAt(states, actions, i);
      ClosedStepAdvances(states(i), actions(i), states(i + 1));
      StepKeepsInvariant(states(i), actions(i), states(i + 1));
      n := ReturnsFrom(states, actions, i + 1);
    }
  }

  /**
   * Once the executor has been closed, the event loop returns: in whatever order the
   * threads go on, without unrelated window events, they cannot go on forever before
   * that, and until then some thread can.
   */
  lemma ClosedExecutorReturns(run: seq<State>, done: seq<Action>, states: nat -> State, actions: nat -> Action) returns (n: nat)
    requires IsRun(run, done) && run[|done|] == states(0) && states(0).closing && GoesOn(states, actions)
    ensures states(n).consumer == Returned
  {
    RunKeepsInvariant(run, done, |done|);
    n := ReturnsFrom(states, actions, 0);
  }

  /** Until the event loop has returned a closed executor can take a step that advances the shutdown. */
  lemma ClosedExecutorCanAdvance(run: seq<State>, done: seq<Action>) returns (a: Action, next: State)
    requires IsRun(run, done) && run[|done|].closing && run[|done|].consumer != Returned
    ensures a != Wake && Sized(run[|done|]) && Step(run[|done|], a) == Some(next) && Advances(run[|done|], next)
  {
    var s := run[|done|];
    NoDeadlock(run, done, |done|);
    a :| CanProceed(s, a);
    next := Step(s, a).value;
    ClosedStepAdvances(s, a, next);
  }
}
