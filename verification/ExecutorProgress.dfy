/**
 * What a call of `run` can rely on: while the executor is open it is admitted, and its
 * request is executed and completed.
 */
module ExecutorProgress {
  import opened Wrappers
  import opened PlatformExecutor
  import opened ExecutorShutdown

  // ---------------------------------------------------------------------
  // Admission

  /** Only a closed executor has rejected a call. */
  predicate RejectedMeansClosed(s: State) {
    forall t | 0 <= t < |s.submitters| && s.submitters[t] == Rejected :: s.closing
  }

  /** A step of a thread in `run` is no other thread's. */
  lemma SubmitTouchesOneThread(s: State, u: nat, s': State)
    requires Sized(s) && u < |s.submitters| && SubmitStep(s, u) == Some(s')
    ensures |s'.submitters| == |s.submitters| && s'.closing == s.closing
    ensures forall t | 0 <= t < |s.submitters| && t != u :: s'.submitters[t] == s.submitters[t]
  {
  }

  lemma SubmitKeepsRejected(s: State, u: nat, s': State)
    requires ShutdownInvariant(s) && RejectedMeansClosed(s)
    requires Sized(s) && u < |s.submitters| && SubmitStep(s, u) == Some(s')
    ensures RejectedMeansClosed(s')
  {
    SubmitTouchesOneThread(s, u, s');
  }

  lemma StepKeepsRejected(s: State, a: Action, s': State)
    requires ShutdownInvariant(s) && RejectedMeansClosed(s)
    requires Sized(s) && Step(s, a) == Some(s')
    ensures RejectedMeansClosed(s')
  {
    match a
    case Submit(t) => SubmitKeepsRejected(s, t, s');
    case Consume => ConsumeKeepsThreads(s, s');
    case _ =>
  }

  /** In every run a call is rejected only once the executor has been closed. */
  lemma RejectedOnlyWhenClosed(run: seq<State>, done: seq<Action>, i: nat, t: nat)
    requires IsRun(run, done) && i < |run| && t < |run[i].submitters| && run[i].submitters[t] == Rejected
    ensures run[i].closing
  {
    RunKeepsRejected(run, done, i);
  }

  lemma {:induction false} RunKeepsRejected(run: seq<State>, done: seq<Action>, i: nat)
    requires IsRun(run, done) && i < |run|
    ensures RejectedMeansClosed(run[i])
  {
    if i > 0 {
      RunKeepsRejected(run, done, i - 1);
      RunKeepsInvariant(run, done, i - 1);
      StepKeepsRejected(run[i - 1], done[i - 1], run[i - 1 + 1]);
    }
  }

  /** The request has not been issued: nobody carries it, and it was not inserted. */
  predicate Unissued(s: State, r: nat) {
    && r !in s.inserted && r !in s.executed && r !in s.completed
    && forall t | 0 <= t < |s.submitters| :: Pending(s.submitters[t]) != Some(r)
  }

  lemma NextIsUnissued(s: State)
    requires HistoryInvariant(s) && DistinctRequests(s)
    ensures Unissued(s, s.issued)
  {
    assert s.executed <= s.inserted && s.completed <= s.inserted;
  }

  lemma AdmissionStep(s: State, t: nat)
    requires ShutdownInvariant(s) && Sized(s) && t < |s.submitters| && s.submitters[t] == Outside
    ensures Step(s, Submit(t)) ==
      if s.mutex != None then None
      else if s.closing then Some(s.(submitters := s.submitters[t := Rejected]))
      else Some(s.(admitted := s.admitted + 1, issued := s.issued + 1, submitters := s.submitters[t := AwaitingSlot(s.issued)]))
  {
  }

  /**
   * A call waits for the mutex; then it is admitted with a fresh request, or rejected
   * exactly if the executor is closed.
   */
  lemma CallIsAdmittedExactly(s: State, t: nat)
    requires Invariant(s) && t < |s.submitters| && s.submitters[t] == Outside
    ensures Sized(s) && Unissued(s, s.issued)
    ensures Step(s, Submit(t)) ==
      if s.mutex != None then None
      else if s.closing then Some(s.(submitters := s.submitters[t := Rejected]))
      else Some(s.(admitted := s.admitted + 1, issued := s.issued + 1, submitters := s.submitters[t := AwaitingSlot(s.issued)]))
  {
    NextIsUnissued(s);
    AdmissionStep(s, t);
  }

  // ---------------------------------------------------------------------
  // Runs that complete a call

  lemma ExtendRun(run: seq<State>, done: seq<Action>, a: Action) returns (run': seq<State>, done': seq<Action>)
    requires IsRun(run, done) && Sized(run[|done|]) && Step(run[|done|], a).Some?
    ensures IsRun(run', done') && run' == run + [Step(run[|done|], a).value] && done' == done + [a]
  {
    run', done' := run + [Step(run[|done|], a).value], done + [a];
    forall i | 0 <= i < |done'|
      ensures Sized(run'[i]) && Step(run'[i], done'[i]) == Some(run'[i + 1])
    {
      if i < |done| {
        assert run'[i] == run[i] && run'[i + 1] == run[i + 1];
      }
    }
  }

  /** The thread is in `run` with this request. */
  predicate Carries(s: State, t: nat, r: nat) {
    && t < |s.submitters|
    && match s.submitters[t]
       case Outside => false
       case Rejected => false
       case _ => s.submitters[t].request == r
  }

  /** The thread has returned, and its request had been completed. */
  predicate HasReturned(s: State, t: nat, r: nat) {
    t < |s.submitters| && s.submitters[t] == Outside && r in s.completed
  }

  lemma EnteringKeepsCarrying(s: State, s': State, t: nat, r: nat)
    requires t < |s.submitters| && IsEntering(s.submitters[t]) && EnterStep(s, t) == Some(s') && Carries(s, t, r)
    ensures Carries(s', t, r)
  {
  }

  lemma LeavingKeepsCarrying(s: State, s': State, t: nat, r: nat)
    requires Sized(s) && t < |s.submitters| && !IsEntering(s.submitters[t]) && LeaveStep(s, t) == Some(s') && Carries(s, t, r)
    ensures Carries(s', t, r) || HasReturned(s', t, r)
  {
  }

  /** A thread keeps its request until it returns, with the request completed. */
  lemma StepKeepsCarrying(s: State, a: Action, s': State, t: nat, r: nat)
    requires Sized(s) && Step(s, a) == Some(s') && Carries(s, t, r)
    ensures Carries(s', t, r) || HasReturned(s', t, r)
  {
    match a
    case Submit(u) =>
      if u != t {
        SubmitTouchesOneThread(s, u, s');
      } else if IsEntering(s.submitters[t]) {
        EnteringKeepsCarrying(s, s', t, r);
      } else {
        LeavingKeepsCarrying(s, s', t, r);
      }
    case Consume => ConsumeKeepsThreads(s, s');
    case _ =>
  }

  /** A thread whose request is completed can go on. */
  lemma CompletedThreadProceeds(s: State, t: nat, r: nat)
    requires Invariant(s) && Carries(s, t, r) && r in s.completed
    ensures CanProceed(s, Submit(t))
  {
    assert r in s.inserted;
    assert Pending(s.submitters[t]) != Some(r);
  }

  /** Some thread can go on until the request has been completed and its thread has returned. */
  lemma SomeoneProceeds(s: State, t: nat, r: nat) returns (a: Action)
    requires Invariant(s) && Carries(s, t, r) && r < s.issued && !s.closing
    ensures CanProceed(s, a)
  {
    if r in s.completed {
      CompletedThreadProceeds(s, t, r);
      a := Submit(t);
    } else {
      WaitingThreadsProgress(s);
      a :| CanProceed(s, a);
    }
  }

  lemma CompletedIsExecuted(s: State, r: nat)
    requires HistoryInvariant(s) && r in s.completed
    ensures r in s.executed
  {
    assert s.inserted[..s.popped - Uncompleted(s.consumer)] <= s.inserted[..s.popped - Unexecuted(s.consumer)];
  }

  /** From any state of an open executor the thread gets home, with its request executed. */
  lemma {:induction false} DriveHome(run: seq<State>, done: seq<Action>, t: nat, r: nat) returns (run': seq<State>, done': seq<Action>)
    requires IsRun(run, done) && Carries(run[|done|], t, r) && r < run[|done|].issued && !run[|done|].closing
    ensures IsRun(run', done') && run <= run' && done <= done'
    ensures var last := run'[|done'|];
      t < |last.submitters| && last.submitters[t] == Outside && r in last.executed && r in last.completed && !last.closing
    decreases Posters(run[|done|]), Stage(run[|done|]), Events(run[|done|]), run[|done|].ready, Position(run[|done|].consumer)
  {
    var s := run[|done|];
    RunKeepsInvariant(run, done, |done|);
    var a := SomeoneProceeds(s, t, r);
    var next := Step(s, a).value;
    StepAdvances(s, a, next);
    StepKeepsCarrying(s, a, next, t, r);
    IssuedGrows(s, a, next);
    run', done' := ExtendRun(run, done, a);
    if Carries(next, t, r) {
      run', done' := DriveHome(run', done', t, r);
    } else {
      RunKeepsInvariant(run', done', |done'|);
      CompletedIsExecuted(next, r);
    }
  }

  lemma IssuedGrows(s: State, a: Action, s': State)
    requires Sized(s) && Step(s, a) == Some(s')
    ensures s.issued <= s'.issued
  {
    match a
    case Consume => ConsumeKeepsThreads(s, s');
    case _ =>
  }

  /** Threads outside stay outside, and the application thread is where it was. */
  predicate OutsideKept(s: State, s': State) {
    && |s'.submitters| == |s.submitters| && s'.closer == s.closer && s'.closing == s.closing
    && forall t | 0 <= t < |s.submitters| && s.submitters[t] == Outside :: s'.submitters[t] == Outside
  }

  /** Whoever holds the mutex leaves it. */
  lemma {:induction false} DriveOutOfMutex(run: seq<State>, done: seq<Action>) returns (run': seq<State>, done': seq<Action>)
    requires IsRun(run, done)
    ensures IsRun(run', done') && run <= run' && done <= done'
    ensures run'[|done'|].mutex == None && OutsideKept(run[|done|], run'[|done'|])
    decreases Posters(run[|done|])
  {
    var s := run[|done|];
    RunKeepsInvariant(run, done, |done|);
    if s.mutex == None {
      run', done' := run, done;
    } else {
      var u := s.mutex.value;
      assert InMutex(s.submitters[u]);
      var next := Step(s, Submit(u)).value;
      LeaveMoves(s, u, next);
      WeightUpdate(s.submitters, u, next.submitters[u]);
      run', done' := ExtendRun(run, done, Submit(u));
      run', done' := DriveOutOfMutex(run', done');
    }
  }

  /**
   * Whatever an open executor is doing, a thread that calls `run` can be admitted with
   * a fresh request, which is executed and completed before the thread returns.
   */
  lemma OpenCallCompletes(run: seq<State>, done: seq<Action>, t: nat) returns (run': seq<State>, done': seq<Action>, i: nat, r: nat)
    requires IsRun(run, done) && !run[|done|].closing && t < |run[|done|].submitters| && run[|done|].submitters[t] == Outside
    ensures IsRun(run', done') && run <= run' && done <= done' && |done| <= i < |done'| && done'[i] == Submit(t)
    ensures Unissued(run'[i], r) && t < |run'[i + 1].submitters| && run'[i + 1].submitters[t] == AwaitingSlot(r)
    ensures var last := run'[|done'|];
      t < |last.submitters| && last.submitters[t] == Outside && r in last.executed && r in last.completed && !last.closing
  {
    run', done' := DriveOutOfMutex(run, done);
    i := |done'|;
    var s := run'[i];
    r := s.issued;
    RunKeepsInvariant(run', done', i);
    CallIsAdmittedExactly(s, t);
    run', done' := ExtendRun(run', done', Submit(t));
    var admitted, done0 := run', done';
    run', done' := DriveHome(run', done', t, r);
    assert run'[i] == admitted[i] && run'[i + 1] == admitted[i + 1] && done'[i] == done0[i];
  }

  // ---------------------------------------------------------------------
  // Runs that shut the executor down

  /** The executor can be closed exactly once, and not while some thread is in the mutex; nothing else changes. */
  lemma ClosesExactly(s: State)
    requires Invariant(s)
    ensures Sized(s)
    ensures Step(s, Close) ==
      if s.closer == Working && forall t: nat | t < |s.submitters| :: !InMutex(s.submitters[t])
      then Some(s.(accepting := false, closing := true, closer := ClosePosting))
      else None
  {
  }

  /** A closed executor does not start serving again: the loop leaves for the drain of admitted requests and never comes back. */
  lemma ClosedLoopLeavesForGood(s: State, s': State)
    requires Sized(s) && s.closing && Step(s, Consume) == Some(s')
    requires s.consumer == CheckRunning || PhaseOf(s.consumer) != WhileRunning
    ensures PhaseOf(s'.consumer) != WhileRunning
  {
    if IsHandling(s.consumer) {
      HandleMovesOn(s, s');
    }
  }

  lemma {:induction false} DriveToReturn(run: seq<State>, done: seq<Action>) returns (run': seq<State>, done': seq<Action>)
    requires IsRun(run, done) && run[|done|].closing
    ensures IsRun(run', done') && run <= run' && done <= done' && run'[|done'|].consumer == Returned
    decreases Posters(run[|done|]), Stage(run[|done|]), Events(run[|done|]), run[|done|].ready, Position(run[|done|].consumer)
  {
    if run[|done|].consumer == Returned {
      run', done' := run, done;
    } else {
      var a, next := ClosedExecutorCanAdvance(run, done);
      RunKeepsInvariant(run, done, |done|);
      ClosedStepAdvances(run[|done|], a, next);
      run', done' := ExtendRun(run, done, a);
      run', done' := DriveToReturn(run', done');
    }
  }

  /** Whatever an open executor is doing, it can be closed, and its event loop then return. */
  lemma OpenExecutorShutsDown(run: seq<State>, done: seq<Action>) returns (run': seq<State>, done': seq<Action>, i: nat)
    requires IsRun(run, done) && run[|done|].closer == Working
    ensures IsRun(run', done') && run <= run' && done <= done' && |done| <= i < |done'| && done'[i] == Close
    ensures run'[|done'|].consumer == Returned
  {
    run', done' := DriveOutOfMutex(run, done);
    i := |done'|;
    RunKeepsInvariant(run', done', i);
    ClosesExactly(run'[i]);
    run', done' := ExtendRun(run', done', Close);
    var closed := done';
    run', done' := DriveToReturn(run', done');
    assert done'[i] == closed[i];
  }
}
