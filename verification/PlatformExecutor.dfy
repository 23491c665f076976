/**
 * The platform executor: threads hand requests to the platform thread through a
 * ring of 256 cells guarded by two counting semaphores, and the platform thread
 * drains the ring until the executor has been closed and every admitted thread
 * has left. Every shared access is one atomic step of some thread.
 */
module PlatformExecutor {
  import opened Wrappers

  const REQUEST_CAPACITY: nat := 256

  /** Where a thread is in `run`, and the request it carries. */
  datatype Submitter =
    | Outside
    | AwaitingSlot(request: nat)    // admitted, acquires a free slot next
    | HoldingSlot(request: nat)     // takes the submission mutex next
    | Writing(request: nat)         // in the mutex, writes the ring cell next
    | Publishing(request: nat)      // in the mutex, releases the ready semaphore next
    | Leaving(request: nat)         // in the mutex, leaves the admitted count and the mutex next
    | Posting(request: nat)         // posts an empty event next
    | AwaitingResult(request: nat)  // waits for the completion flag
    | Rejected                      // called `run` after the executor had closed

  /** Which of the three drains of the event loop is running. */
  datatype Phase = WhileRunning | WhileAdmitted | Final

  /** Where the platform thread is in its event loop. */
  datatype Consumer =
    | CheckRunning
    | CheckAdmitted
    | Draining(phase: Phase)                  // tries to acquire a ready request next
    | Popping(phase: Phase)                   // holds a ready token, takes the cell next
    | Freeing(phase: Phase, request: nat)     // releases the free slot next
    | Executing(phase: Phase, request: nat)
    | Completing(phase: Phase, request: nat)  // stores the completion flag next
    | Recheck(phase: Phase)                   // drained; decides whether to wait
    | Waiting(phase: Phase)                   // blocked until an event arrives
    | Returned

  /** The application thread: working, closed but still to post its event, or done. */
  datatype Closer = Working | ClosePosting | CloseDone

  datatype State = State(
    cells: seq<Option<nat>>,
    writeIndex: nat,
    readIndex: nat,
    free: nat,
    ready: nat,
    admitted: int,
    accepting: bool,
    closing: bool,
    event: bool,
    mutex: Option<nat>,
    submitters: seq<Submitter>,
    closer: Closer,
    consumer: Consumer,
    // What has happened so far
    issued: nat,
    inserted: seq<nat>,
    popped: nat,
    executed: seq<nat>,
    completed: seq<nat>)

  datatype Action =
    | Submit(thread: nat)
    | Close
    | PostClose
    | Consume
    | Wake

  predicate Init(s: State) {
    && s.cells == seq(REQUEST_CAPACITY, _ => None)
    && s.writeIndex == 0 && s.readIndex == 0
    && s.free == REQUEST_CAPACITY && s.ready == 0 && s.admitted == 0
    && s.accepting && !s.closing && !s.event && s.mutex == None
    && (forall t | 0 <= t < |s.submitters| :: s.submitters[t] == Outside)
    && s.closer == Working && s.consumer == CheckRunning
    && s.issued == 0 && s.inserted == [] && s.popped == 0 && s.executed == [] && s.completed == []
  }

  predicate Sized(s: State) {
    |s.cells| == REQUEST_CAPACITY && s.writeIndex < REQUEST_CAPACITY && s.readIndex < REQUEST_CAPACITY
  }

  /** The thread has not taken the submission mutex for its request yet. */
  predicate IsEntering(x: Submitter) {
    x.Outside? || x.AwaitingSlot? || x.HoldingSlot? || x.Rejected?
  }

  /** The next step of thread `t` in `run`, if it is not blocked. */
  function SubmitStep(s: State, t: nat): Option<State>
    requires Sized(s) && t < |s.submitters|
  {
    if IsEntering(s.submitters[t]) then EnterStep(s, t) else LeaveStep(s, t)
  }

  /** Admission, the wait for a free slot, and taking the mutex. */
  function EnterStep(s: State, t: nat): Option<State>
    requires t < |s.submitters| && IsEntering(s.submitters[t])
  {
    match s.submitters[t]
    case Outside =>
      if s.mutex != None then None
      else if !s.accepting then Some(s.(submitters := s.submitters[t := Rejected]))
      else Some(s.(admitted := s.admitted + 1, issued := s.issued + 1,
                   submitters := s.submitters[t := AwaitingSlot(s.issued)]))
    case AwaitingSlot(r) =>
      if s.free == 0 then None
      else Some(s.(free := s.free - 1, submitters := s.submitters[t := HoldingSlot(r)]))
    case HoldingSlot(r) =>
      if s.mutex != None then None
      else Some(s.(mutex := Some(t), submitters := s.submitters[t := Writing(r)]))
    case Rejected => None
  }

  /** Writing and publishing in the mutex, leaving it, posting the event, and the wait for the result. */
  function LeaveStep(s: State, t: nat): Option<State>
    requires Sized(s) && t < |s.submitters| && !IsEntering(s.submitters[t])
  {
    match s.submitters[t]
    case Writing(r) =>
      Some(s.(cells := s.cells[s.writeIndex := Some(r)],
              writeIndex := (s.writeIndex + 1) % REQUEST_CAPACITY,
              inserted := s.inserted + [r],
              submitters := s.submitters[t := Publishing(r)]))
    case Publishing(r) =>
      Some(s.(ready := s.ready + 1, submitters := s.submitters[t := Leaving(r)]))
    case Leaving(r) =>
      Some(s.(admitted := s.admitted - 1, mutex := None, submitters := s.submitters[t := Posting(r)]))
    case Posting(r) =>
      Some(s.(event := true, submitters := s.submitters[t := AwaitingResult(r)]))
    case AwaitingResult(r) =>
      if r in s.completed then Some(s.(submitters := s.submitters[t := Outside])) else None
  }

  /** The platform thread has taken a ready token and not completed the request yet. */
  predicate IsHandling(c: Consumer) {
    c.Popping? || c.Freeing? || c.Executing? || c.Completing?
  }

  /** The next step of the platform thread, if it is not blocked. */
  function ConsumeStep(s: State): Option<State>
    requires Sized(s)
  {
    if IsHandling(s.consumer) then HandleStep(s) else LoopStep(s)
  }

  /** The event loop between two requests. */
  function LoopStep(s: State): Option<State>
    requires !IsHandling(s.consumer)
  {
    match s.consumer
    case CheckRunning => Some(s.(consumer := if s.closing then CheckAdmitted else Draining(WhileRunning)))
    case CheckAdmitted => Some(s.(consumer := if s.admitted == 0 then Draining(Final) else Draining(WhileAdmitted)))
    case Draining(phase) =>
      if s.ready > 0 then Some(s.(ready := s.ready - 1, consumer := Popping(phase)))
      else Some(s.(consumer := if phase == Final then Returned else Recheck(phase)))
    case Recheck(phase) =>
      if phase == WhileRunning then Some(s.(consumer := if s.closing then CheckAdmitted else Waiting(phase)))
      else Some(s.(consumer := if s.admitted == 0 then CheckAdmitted else Waiting(phase)))
    case Waiting(phase) => if s.event then Some(Woken(s)) else None
    case Returned => None
  }

  /** Taking a request from the ring, executing and completing it. */
  function HandleStep(s: State): Option<State>
    requires Sized(s) && IsHandling(s.consumer)
  {
    match s.consumer
    case Popping(phase) =>
      if s.cells[s.readIndex] == None then None
      else Some(s.(cells := s.cells[s.readIndex := None],
                   readIndex := (s.readIndex + 1) % REQUEST_CAPACITY,
                   popped := s.popped + 1,
                   consumer := Freeing(phase, s.cells[s.readIndex].value)))
    case Freeing(phase, r) => Some(s.(free := s.free + 1, consumer := Executing(phase, r)))
    case Executing(phase, r) => Some(s.(executed := s.executed + [r], consumer := Completing(phase, r)))
    case Completing(phase, r) => Some(s.(completed := s.completed + [r], consumer := Draining(phase)))
  }

  /** Leaving the wait consumes the pending empty event. */
  function Woken(s: State): State
    requires s.consumer.Waiting?
  {
    s.(event := false, consumer := if s.consumer.phase == WhileRunning then CheckRunning else CheckAdmitted)
  }

  /** `Wake` is the arrival of an unrelated window event. */
  function Step(s: State, a: Action): Option<State>
    requires Sized(s)
  {
    match a
    case Submit(t) => if t < |s.submitters| then SubmitStep(s, t) else None
    case Close =>
      if s.closer == Working && s.mutex == None then Some(s.(accepting := false, closing := true, closer := ClosePosting)) else None
    case PostClose =>
      if s.closer == ClosePosting then Some(s.(event := true, closer := CloseDone)) else None
    case Consume => ConsumeStep(s)
    case Wake => if s.consumer.Waiting? then Some(Woken(s)) else None
  }

  // ---------------------------------------------------------------------
  // Counting threads

  /** The groups of threads whose sizes the semaphores and the admission count reflect. */
  datatype Group = AdmittedThreads | SlotHolders | Publishers

  predicate Belongs(x: Submitter, group: Group) {
    match group
    case AdmittedThreads => IsAdmitted(x)
    case SlotHolders => HoldsSlot(x)
    case Publishers => x.Publishing?
  }

  function Count(submitters: seq<Submitter>, group: Group): nat {
    if submitters == [] then 0
    else Count(submitters[..|submitters| - 1], group) + (if Belongs(submitters[|submitters| - 1], group) then 1 else 0)
  }

  lemma {:induction false} CountUpdate(submitters: seq<Submitter>, group: Group, t: nat, x: Submitter)
    requires t < |submitters|
    ensures Count(submitters[t := x], group) ==
        Count(submitters, group) - (if Belongs(submitters[t], group) then 1 else 0) + (if Belongs(x, group) then 1 else 0)
  {
    var n := |submitters| - 1;
    if t == n {
      assert submitters[t := x][..n] == submitters[..n];
    } else {
      assert submitters[t := x][..n] == submitters[..n][t := x];
      CountUpdate(submitters[..n], group, t, x);
    }
  }

  lemma {:induction false} CountPositive(submitters: seq<Submitter>, group: Group)
    ensures Count(submitters, group) > 0 <==> exists t | 0 <= t < |submitters| :: Belongs(submitters[t], group)
  {
    if submitters != [] {
      var n := |submitters| - 1;
      CountPositive(submitters[..n], group);
      assert forall t | 0 <= t < n :: submitters[..n][t] == submitters[t];
      if t :| 0 <= t < |submitters| && Belongs(submitters[t], group) {
        assert t < n ==> Belongs(submitters[..n][t], group);
      }
    }
  }

  predicate IsAdmitted(x: Submitter) {
    x.AwaitingSlot? || x.HoldingSlot? || x.Writing? || x.Publishing? || x.Leaving?
  }

  predicate HoldsSlot(x: Submitter) {
    x.HoldingSlot? || x.Writing?
  }

  predicate InMutex(x: Submitter) {
    x.Writing? || x.Publishing? || x.Leaving?
  }

  /** The request of the thread is not in the ring yet. */
  predicate NotInserted(x: Submitter) {
    x.AwaitingSlot? || x.HoldingSlot? || x.Writing?
  }

  predicate WillPost(x: Submitter) {
    x.Leaving? || x.Posting?
  }

  // ---------------------------------------------------------------------
  // The invariant

  /** The insertion number that cell `c` belongs to while `popped` requests have been taken. */
  function WindowIndex(popped: nat, c: nat): nat {
    popped + (c - popped) % REQUEST_CAPACITY
  }

  /** The cells hold exactly the inserted requests that have not been taken, in insertion order. */
  predicate RingInvariant(s: State) {
    && |s.cells| == REQUEST_CAPACITY
    && s.popped <= |s.inserted| <= s.popped + REQUEST_CAPACITY
    && s.writeIndex == |s.inserted| % REQUEST_CAPACITY
    && s.readIndex == s.popped % REQUEST_CAPACITY
    && forall c | 0 <= c < REQUEST_CAPACITY :: CellHolds(s, c, WindowIndex(s.popped, c))
  }

  /** Cell `c` holds insertion number `k`, if it has been made. */
  predicate CellHolds(s: State, c: nat, k: nat)
    requires c < |s.cells|
  {
    s.cells[c] == if k < |s.inserted| then Some(s.inserted[k]) else None
  }

  /** Every slot and every ready token is accounted for. */
  predicate CountInvariant(s: State) {
    && s.admitted == Count(s.submitters, AdmittedThreads)
    && s.popped <= |s.inserted|
    && s.free + Count(s.submitters, SlotHolders) + (|s.inserted| - s.popped) + (if s.consumer.Freeing? then 1 else 0) == REQUEST_CAPACITY
    && s.ready + Count(s.submitters, Publishers) + (if s.consumer.Popping? then 1 else 0) == |s.inserted| - s.popped
  }

  predicate MutexInvariant(s: State) {
    && (s.mutex.Some? ==> s.mutex.value < |s.submitters|)
    && forall t: nat | t < |s.submitters| :: InMutex(s.submitters[t]) <==> s.mutex == Some(t)
  }

  /** How many requests have been taken but not yet executed, or not yet completed. */
  function Unexecuted(c: Consumer): nat {
    if c.Freeing? || c.Executing? then 1 else 0
  }

  function Uncompleted(c: Consumer): nat {
    if c.Freeing? || c.Executing? || c.Completing? then 1 else 0
  }

  /** Requests are executed in insertion order, and completed in that order after execution. */
  predicate HistoryInvariant(s: State) {
    && Uncompleted(s.consumer) <= s.popped <= |s.inserted|
    && (Uncompleted(s.consumer) == 1 ==> s.consumer.request == s.inserted[s.popped - 1])
    && s.executed == s.inserted[..s.popped - Unexecuted(s.consumer)]
    && s.completed == s.inserted[..s.popped - Uncompleted(s.consumer)]
  }

  /** The request that a thread carries and has not inserted yet. */
  function Pending(x: Submitter): Option<nat> {
    if NotInserted(x) then Some(x.request) else None
  }

  /** Every request exists once: carried by one thread, or inserted once. */
  predicate DistinctRequests(s: State) {
    && (forall i, j | 0 <= i < j < |s.inserted| :: s.inserted[i] != s.inserted[j])
    && (forall i | 0 <= i < |s.inserted| :: s.inserted[i] < s.issued)
    && (forall t | 0 <= t < |s.submitters| && Pending(s.submitters[t]).Some? ::
          Pending(s.submitters[t]).value < s.issued && Pending(s.submitters[t]).value !in s.inserted)
    && (forall t, u | 0 <= t < u < |s.submitters| && Pending(s.submitters[t]).Some? ::
          Pending(s.submitters[t]) != Pending(s.submitters[u]))
  }

  predicate RequestsCovered(s: State) {
    forall r: nat | r < s.issued :: r in s.inserted || Carried(s, r)
  }

  predicate Carried(s: State, r: nat) {
    exists t | 0 <= t < |s.submitters| :: Pending(s.submitters[t]) == Some(r)
  }

  function PhaseOf(c: Consumer): Phase {
    match c
    case CheckRunning => WhileRunning
    case CheckAdmitted => WhileAdmitted
    case Returned => Final
    case _ => c.phase
  }

  /** Once the event loop has seen the executor closed, no thread is admitted any more. */
  predicate ShutdownInvariant(s: State) {
    && s.accepting == !s.closing
    && (s.closing <==> s.closer != Working)
    && (PhaseOf(s.consumer) != WhileRunning ==> s.closing)
    && (PhaseOf(s.consumer) == Final ==> s.admitted == 0)
    && (s.consumer == Returned ==> |s.inserted| == s.popped)
    && ((s.consumer.Recheck? || s.consumer.Waiting?) ==> s.consumer.phase != Final)
  }

  predicate EventComing(s: State) {
    s.event || exists t | 0 <= t < |s.submitters| :: WillPost(s.submitters[t])
  }

  /** No wake-up is lost. */
  predicate WakeInvariant(s: State) {
    && ((s.consumer.Recheck? || s.consumer.Waiting?) && s.ready > 0 ==> EventComing(s))
    && (s.consumer == Waiting(WhileRunning) && s.closing ==> s.event || s.closer == ClosePosting)
    && (s.consumer == Waiting(WhileAdmitted) && s.admitted == 0 ==> EventComing(s))
  }

  predicate Invariant(s: State) {
    && RingInvariant(s)
    && CountInvariant(s)
    && MutexInvariant(s)
    && HistoryInvariant(s)
    && DistinctRequests(s)
    && RequestsCovered(s)
    && ShutdownInvariant(s)
    && WakeInvariant(s)
  }

  // ---------------------------------------------------------------------
  // The invariant is inductive

  lemma InitEstablishesInvariant(s: State)
    requires Init(s)
    ensures Invariant(s)
  {
    CountPositive(s.submitters, AdmittedThreads);
    CountPositive(s.submitters, SlotHolders);
    CountPositive(s.submitters, Publishers);
  }

  lemma WindowIndexCell(popped: nat, k: nat)
    requires popped <= k < popped + REQUEST_CAPACITY
    ensures WindowIndex(popped, k % REQUEST_CAPACITY) == k
  {
  }

  lemma RemainderIs(x: int, k: int, r: nat)
    requires x == REQUEST_CAPACITY * k + r && r < REQUEST_CAPACITY
    ensures x % REQUEST_CAPACITY == r
  {
    assert x / REQUEST_CAPACITY == k;
  }

  lemma WindowIndexUnique(popped: nat, c: nat)
    requires c < REQUEST_CAPACITY
    ensures popped <= WindowIndex(popped, c) < popped + REQUEST_CAPACITY
    ensures WindowIndex(popped, c) % REQUEST_CAPACITY == c
    ensures WindowIndex(popped + 1, c) ==
        if c == popped % REQUEST_CAPACITY then popped + REQUEST_CAPACITY else WindowIndex(popped, c)
  {
    var k := (c - popped) / REQUEST_CAPACITY;
    var r: nat := (c - popped) % REQUEST_CAPACITY;
    assert c - popped == REQUEST_CAPACITY * k + r;
    RemainderIs(WindowIndex(popped, c), -k, c);
    WindowIndexMoves(popped, c, k, r);
  }

  lemma WindowIndexMoves(popped: nat, c: nat, k: int, r: nat)
    requires c < REQUEST_CAPACITY && r < REQUEST_CAPACITY && c - popped == REQUEST_CAPACITY * k + r
    ensures WindowIndex(popped + 1, c) ==
        if c == popped % REQUEST_CAPACITY then popped + REQUEST_CAPACITY else popped + r
  {
    if r == 0 {
      RemainderIs(popped, -k, c);
      RemainderIs(c - (popped + 1), k - 1, REQUEST_CAPACITY - 1);
    } else {
      if r <= c {
        RemainderIs(popped, -k, c - r);
      } else {
        RemainderIs(popped, -k - 1, c - r + REQUEST_CAPACITY);
      }
      RemainderIs(c - (popped + 1), k, r - 1);
    }
  }

  lemma WindowIndexHits(popped: nat, n: nat, c: nat)
    requires c < REQUEST_CAPACITY && popped <= n < popped + REQUEST_CAPACITY
    ensures WindowIndex(popped, c) == n <==> c == n % REQUEST_CAPACITY
  {
    WindowIndexUnique(popped, c);
    WindowIndexCell(popped, n);
  }

  lemma NextIndex(n: nat)
    ensures (n % REQUEST_CAPACITY + 1) % REQUEST_CAPACITY == (n + 1) % REQUEST_CAPACITY
  {
  }

  function Bit(b: bool): int {
    if b then 1 else 0
  }

  /** When one thread moves, the counters have to follow its moves between the groups. */
  lemma CountersFollowThread(s: State, t: nat, x: Submitter, s': State)
    requires CountInvariant(s) && t < |s.submitters|
    requires CountersMove(s, t, x, s')
    ensures CountInvariant(s')
  {
    CountUpdate(s.submitters, AdmittedThreads, t, x);
    CountUpdate(s.submitters, SlotHolders, t, x);
    CountUpdate(s.submitters, Publishers, t, x);
  }

  /** How one step of a thread moves the counters. */
  predicate CountersMove(s: State, t: nat, x: Submitter, s': State)
    requires t < |s.submitters|
  {
    && s'.submitters == s.submitters[t := x] && s'.consumer == s.consumer && s'.popped == s.popped
    && |s'.inserted| >= |s.inserted|
    && s'.admitted - s.admitted == Bit(IsAdmitted(x)) - Bit(IsAdmitted(s.submitters[t]))
    && s'.free - s.free == Bit(HoldsSlot(s.submitters[t])) - Bit(HoldsSlot(x)) - (|s'.inserted| - |s.inserted|)
    && s'.ready - s.ready == Bit(s.submitters[t].Publishing?) - Bit(x.Publishing?) + (|s'.inserted| - |s.inserted|)
  }

  lemma EnterMovesCounters(s: State, t: nat, s': State)
    requires Sized(s)
    requires t < |s.submitters| && IsEntering(s.submitters[t]) && EnterStep(s, t) == Some(s')
    ensures |s'.submitters| == |s.submitters| && CountersMove(s, t, s'.submitters[t], s')
  {
  }

  lemma LeaveMovesCounters(s: State, t: nat, s': State)
    requires Sized(s)
    requires t < |s.submitters| && !IsEntering(s.submitters[t]) && LeaveStep(s, t) == Some(s')
    ensures |s'.submitters| == |s.submitters| && CountersMove(s, t, s'.submitters[t], s')
  {
  }

  lemma SubmitMovesCounters(s: State, t: nat, s': State)
    requires Sized(s) && t < |s.submitters| && SubmitStep(s, t) == Some(s')
    ensures |s'.submitters| == |s.submitters| && CountersMove(s, t, s'.submitters[t], s')
  {
    if IsEntering(s.submitters[t]) {
      EnterMovesCounters(s, t, s');
    } else {
      LeaveMovesCounters(s, t, s');
    }
  }

  /** A thread that is about to write holds a slot, so its cell is empty. */
  lemma WriterFindsEmptyCell(s: State, t: nat)
    requires RingInvariant(s) && CountInvariant(s) && t < |s.submitters| && s.submitters[t].Writing?
    ensures |s.inserted| < s.popped + REQUEST_CAPACITY && s.cells[s.writeIndex] == None
  {
    CountPositive(s.submitters, SlotHolders);
    assert Belongs(s.submitters[t], SlotHolders);
    WindowIndexCell(s.popped, |s.inserted|);
  }

  lemma WriteKeepsCell(s: State, r: nat, s': State, c: nat, k: nat)
    requires s.writeIndex < |s.cells| && c < |s.cells| && CellHolds(s, c, k) && (k == |s.inserted| <==> c == s.writeIndex)
    requires s'.cells == s.cells[s.writeIndex := Some(r)] && s'.inserted == s.inserted + [r]
    ensures CellHolds(s', c, k)
  {
  }

  lemma WriteKeepsRing(s: State, r: nat, s': State)
    requires RingInvariant(s) && |s.inserted| < s.popped + REQUEST_CAPACITY
    requires s'.cells == s.cells[s.writeIndex := Some(r)] && s'.writeIndex == (s.writeIndex + 1) % REQUEST_CAPACITY
    requires s'.inserted == s.inserted + [r] && s'.popped == s.popped && s'.readIndex == s.readIndex
    ensures RingInvariant(s')
  {
    NextIndex(|s.inserted|);
    forall c | 0 <= c < REQUEST_CAPACITY
      ensures CellHolds(s', c, WindowIndex(s'.popped, c))
    {
      WindowIndexHits(s.popped, |s.inserted|, c);
      WriteKeepsCell(s, r, s', c, WindowIndex(s.popped, c));
    }
  }

  lemma SubmitKeepsRing(s: State, t: nat, s': State)
    requires RingInvariant(s) && CountInvariant(s)
    requires t < |s.submitters| && SubmitStep(s, t) == Some(s')
    ensures RingInvariant(s')
  {
    if s.submitters[t].Writing? {
      WriterFindsEmptyCell(s, t);
      WriteKeepsRing(s, s.submitters[t].request, s');
    } else {
      SameRing(s, s');
    }
  }

  lemma EnterKeepsMutex(s: State, t: nat, s': State)
    requires Sized(s) && MutexInvariant(s)
    requires t < |s.submitters| && IsEntering(s.submitters[t]) && EnterStep(s, t) == Some(s')
    ensures MutexInvariant(s')
  {
  }

  lemma LeaveKeepsMutex(s: State, t: nat, s': State)
    requires Sized(s) && MutexInvariant(s)
    requires t < |s.submitters| && !IsEntering(s.submitters[t]) && LeaveStep(s, t) == Some(s')
    ensures MutexInvariant(s')
  {
  }

  lemma SubmitKeepsMutex(s: State, t: nat, s': State)
    requires Sized(s) && MutexInvariant(s)
    requires t < |s.submitters| && SubmitStep(s, t) == Some(s')
    ensures MutexInvariant(s')
  {
    if IsEntering(s.submitters[t]) {
      EnterKeepsMutex(s, t, s');
    } else {
      LeaveKeepsMutex(s, t, s');
    }
  }

  lemma GrowthKeepsPrefix(a: seq<nat>, b: seq<nat>, n: nat)
    requires a <= b && n <= |a|
    ensures b[..n] == a[..n]
  {
  }

  /** The history does not mind requests being inserted behind the ones taken. */
  lemma InsertionKeepsHistory(s: State, s': State)
    requires HistoryInvariant(s)
    requires s'.consumer == s.consumer && s'.popped == s.popped && s'.executed == s.executed && s'.completed == s.completed
    requires s.inserted <= s'.inserted
    ensures HistoryInvariant(s')
  {
    GrowthKeepsPrefix(s.inserted, s'.inserted, s.popped - Unexecuted(s.consumer));
    GrowthKeepsPrefix(s.inserted, s'.inserted, s.popped - Uncompleted(s.consumer));
  }

  lemma EnterKeepsHistory(s: State, t: nat, s': State)
    requires Sized(s) && HistoryInvariant(s)
    requires t < |s.submitters| && IsEntering(s.submitters[t]) && EnterStep(s, t) == Some(s')
    ensures HistoryInvariant(s')
  {
    InsertionKeepsHistory(s, s');
  }

  lemma LeaveKeepsHistory(s: State, t: nat, s': State)
    requires Sized(s) && HistoryInvariant(s)
    requires t < |s.submitters| && !IsEntering(s.submitters[t]) && LeaveStep(s, t) == Some(s')
    ensures HistoryInvariant(s')
  {
    InsertionKeepsHistory(s, s');
  }

  lemma SubmitKeepsHistory(s: State, t: nat, s': State)
    requires Sized(s) && HistoryInvariant(s)
    requires t < |s.submitters| && SubmitStep(s, t) == Some(s')
    ensures HistoryInvariant(s')
  {
    if IsEntering(s.submitters[t]) {
      EnterKeepsHistory(s, t, s');
    } else {
      LeaveKeepsHistory(s, t, s');
    }
  }

  /** Most steps leave all carried requests where they are. */
  lemma SamePendingKeepsRequests(s: State, s': State)
    requires DistinctRequests(s) && RequestsCovered(s)
    requires |s'.submitters| == |s.submitters| && s'.inserted == s.inserted && s'.issued == s.issued
    requires forall t | 0 <= t < |s.submitters| :: Pending(s'.submitters[t]) == Pending(s.submitters[t])
    ensures DistinctRequests(s') && RequestsCovered(s')
  {
    assert forall r: nat :: Carried(s, r) ==> Carried(s', r);
  }

  lemma AdmissionKeepsRequests(s: State, t: nat, s': State)
    requires DistinctRequests(s) && RequestsCovered(s) && t < |s.submitters|
    requires Pending(s.submitters[t]) == None
    requires s'.submitters == s.submitters[t := AwaitingSlot(s.issued)] && s'.inserted == s.inserted && s'.issued == s.issued + 1
    ensures DistinctRequests(s') && RequestsCovered(s')
  {
    forall r: nat | r < s'.issued
      ensures r in s'.inserted || Carried(s', r)
    {
      if r == s.issued {
        assert Pending(s'.submitters[t]) == Some(r);
      } else if Carried(s, r) {
        var u :| 0 <= u < |s.submitters| && Pending(s.submitters[u]) == Some(r);
        assert Pending(s'.submitters[u]) == Some(r);
      }
    }
  }

  lemma InsertionKeepsRequests(s: State, t: nat, r: nat, s': State)
    requires DistinctRequests(s) && RequestsCovered(s) && t < |s.submitters|
    requires Pending(s.submitters[t]) == Some(r)
    requires s'.submitters == s.submitters[t := Publishing(r)] && s'.inserted == s.inserted + [r] && s'.issued == s.issued
    ensures DistinctRequests(s') && RequestsCovered(s')
  {
    assert s'.inserted[|s.inserted|] == r;
    forall x: nat | x < s'.issued
      ensures x in s'.inserted || Carried(s', x)
    {
      if Carried(s, x) && x != r {
        var u :| 0 <= u < |s.submitters| && Pending(s.submitters[u]) == Some(x);
        assert Pending(s'.submitters[u]) == Some(x);
      }
    }
  }

  lemma SubmitKeepsRequests(s: State, t: nat, s': State)
    requires Sized(s) && DistinctRequests(s) && RequestsCovered(s)
    requires t < |s.submitters| && SubmitStep(s, t) == Some(s')
    ensures DistinctRequests(s') && RequestsCovered(s')
  {
    if s.submitters[t].Outside? && s.accepting {
      AdmissionKeepsRequests(s, t, s');
    } else if s.submitters[t].Writing? {
      InsertionKeepsRequests(s, t, s.submitters[t].request, s');
    } else {
      SamePendingKeepsRequests(s, s');
    }
  }

  lemma SubmitKeepsShutdown(s: State, t: nat, s': State)
    requires Sized(s) && ShutdownInvariant(s) && CountInvariant(s)
    requires t < |s.submitters| && SubmitStep(s, t) == Some(s')
    ensures ShutdownInvariant(s')
  {
    CountPositive(s.submitters, AdmittedThreads);
    assert PhaseOf(s.consumer) == Final ==> !Belongs(s.submitters[t], AdmittedThreads);
  }

  lemma EnterKeepsWake(s: State, t: nat, s': State)
    requires Sized(s) && WakeInvariant(s) && s.admitted >= 0
    requires t < |s.submitters| && IsEntering(s.submitters[t]) && EnterStep(s, t) == Some(s')
    ensures WakeInvariant(s')
  {
    if EventComing(s) && !s.event {
      var u :| 0 <= u < |s.submitters| && WillPost(s.submitters[u]);
      assert s'.event || WillPost(s'.submitters[u]);
    }
    assert WillPost(s'.submitters[t]) ==> EventComing(s');
  }

  lemma LeaveKeepsWake(s: State, t: nat, s': State)
    requires Sized(s) && WakeInvariant(s) && s.admitted >= 0
    requires t < |s.submitters| && !IsEntering(s.submitters[t]) && LeaveStep(s, t) == Some(s')
    ensures WakeInvariant(s')
  {
    if EventComing(s) && !s.event {
      var u :| 0 <= u < |s.submitters| && WillPost(s.submitters[u]);
      assert s'.event || WillPost(s'.submitters[u]);
    }
    assert WillPost(s'.submitters[t]) ==> EventComing(s');
  }

  lemma SubmitKeepsWake(s: State, t: nat, s': State)
    requires Sized(s) && WakeInvariant(s) && s.admitted >= 0
    requires t < |s.submitters| && SubmitStep(s, t) == Some(s')
    ensures WakeInvariant(s')
  {
    if IsEntering(s.submitters[t]) {
      EnterKeepsWake(s, t, s');
    } else {
      LeaveKeepsWake(s, t, s');
    }
  }

  lemma PopKeepsCell(s: State, s': State, c: nat, k: nat, k': nat)
    requires s.readIndex < |s.cells| && c < |s.cells| && CellHolds(s, c, k)
    requires if c == s.readIndex then k' >= |s.inserted| else k' == k
    requires s'.cells == s.cells[s.readIndex := None] && s'.inserted == s.inserted
    ensures CellHolds(s', c, k')
  {
  }

  lemma PopKeepsRing(s: State, s': State)
    requires RingInvariant(s) && s.popped < |s.inserted|
    requires s'.cells == s.cells[s.readIndex := None] && s'.readIndex == (s.readIndex + 1) % REQUEST_CAPACITY
    requires s'.inserted == s.inserted && s'.popped == s.popped + 1 && s'.writeIndex == s.writeIndex
    ensures RingInvariant(s')
  {
    NextIndex(s.popped);
    forall c | 0 <= c < REQUEST_CAPACITY
      ensures CellHolds(s', c, WindowIndex(s'.popped, c))
    {
      WindowIndexUnique(s.popped, c);
      PopKeepsCell(s, s', c, WindowIndex(s.popped, c), WindowIndex(s'.popped, c));
    }
  }

  /** A step that leaves the ring alone keeps it. */
  lemma SameRing(s: State, s': State)
    requires RingInvariant(s)
    requires s'.cells == s.cells && s'.writeIndex == s.writeIndex && s'.readIndex == s.readIndex
    requires s'.inserted == s.inserted && s'.popped == s.popped
    ensures RingInvariant(s')
  {
    forall c | 0 <= c < REQUEST_CAPACITY
      ensures CellHolds(s', c, WindowIndex(s'.popped, c))
    {
      assert CellHolds(s, c, WindowIndex(s.popped, c));
    }
  }

  /** A thread that holds a ready token finds the oldest request at the read index. */
  lemma PopperFindsRequest(s: State)
    requires RingInvariant(s) && CountInvariant(s) && s.consumer.Popping?
    ensures s.popped < |s.inserted| && s.cells[s.readIndex] == Some(s.inserted[s.popped])
  {
    WindowIndexCell(s.popped, s.popped);
  }

  /** Between two requests the platform thread changes the event flag, takes a ready token, and moves on. */
  predicate LoopChanges(s: State, s': State) {
    && s' == s.(event := s'.event, ready := s'.ready, consumer := s'.consumer)
    && (IsHandling(s'.consumer) ==> s'.consumer.Popping?)
    && s.ready - s'.ready == (if s'.consumer.Popping? then 1 else 0)
  }

  lemma LoopChangesLittle(s: State, s': State)
    requires !IsHandling(s.consumer) && LoopStep(s) == Some(s')
    ensures LoopChanges(s, s')
  {
    if s.consumer.Draining? {
      DrainChangesLittle(s, s');
    }
  }

  lemma DrainChangesLittle(s: State, s': State)
    requires s.consumer.Draining? && LoopStep(s) == Some(s')
    ensures LoopChanges(s, s')
  {
  }

  lemma LoopKeepsRing(s: State, s': State)
    requires Sized(s) && RingInvariant(s) && CountInvariant(s)
    requires !IsHandling(s.consumer) && LoopStep(s) == Some(s')
    ensures RingInvariant(s')
  {
    LoopChangesLittle(s, s');
    SameRing(s, s');
  }

  lemma HandleKeepsRing(s: State, s': State)
    requires Sized(s) && RingInvariant(s) && CountInvariant(s)
    requires IsHandling(s.consumer) && HandleStep(s) == Some(s')
    ensures RingInvariant(s')
  {
    if s.consumer.Popping? {
      PopperFindsRequest(s);
      PopKeepsRing(s, s');
    } else {
      SameRing(s, s');
    }
  }

  lemma ConsumeKeepsRing(s: State, s': State)
    requires RingInvariant(s) && CountInvariant(s) && ConsumeStep(s) == Some(s')
    ensures RingInvariant(s')
  {
    if IsHandling(s.consumer) {
      HandleKeepsRing(s, s');
    } else {
      LoopKeepsRing(s, s');
    }
  }

  /** When the platform thread moves, the counters follow its tokens. */
  predicate TokensMove(s: State, s': State) {
    && s'.submitters == s.submitters && s'.inserted == s.inserted && s'.admitted == s.admitted
    && s.popped <= s'.popped <= |s.inserted|
    && s'.free - s.free == Bit(s.consumer.Freeing?) - Bit(s'.consumer.Freeing?) + (s'.popped - s.popped)
    && s'.ready - s.ready == Bit(s.consumer.Popping?) - Bit(s'.consumer.Popping?) - (s'.popped - s.popped)
  }

  lemma CountersFollowConsumer(s: State, s': State)
    requires CountInvariant(s) && TokensMove(s, s')
    ensures CountInvariant(s')
  {
  }

  lemma LoopMovesTokens(s: State, s': State)
    requires Sized(s) && s.popped <= |s.inserted|
    requires !IsHandling(s.consumer) && LoopStep(s) == Some(s')
    ensures TokensMove(s, s')
  {
    LoopChangesLittle(s, s');
  }

  lemma HandleMovesTokens(s: State, s': State)
    requires Sized(s) && s.popped <= |s.inserted| && (s.consumer.Popping? ==> s.popped < |s.inserted|)
    requires IsHandling(s.consumer) && HandleStep(s) == Some(s')
    ensures TokensMove(s, s')
  {
  }

  lemma ConsumeMovesTokens(s: State, s': State)
    requires Sized(s) && s.popped <= |s.inserted| && (s.consumer.Popping? ==> s.popped < |s.inserted|)
    requires ConsumeStep(s) == Some(s')
    ensures TokensMove(s, s')
  {
    if IsHandling(s.consumer) {
      HandleMovesTokens(s, s');
    } else {
      LoopMovesTokens(s, s');
    }
  }

  /** How one step of the platform thread moves the history. */
  predicate HistoryMoves(s: State, s': State)
    requires Uncompleted(s.consumer) <= s.popped <= |s.inserted|
  {
    || (&& s'.popped == s.popped && s'.executed == s.executed && s'.completed == s.completed
        && Unexecuted(s'.consumer) == Unexecuted(s.consumer) && Uncompleted(s'.consumer) == Uncompleted(s.consumer)
        && (Uncompleted(s.consumer) == 1 ==> s'.consumer.request == s.consumer.request))
    || (&& s.consumer.Popping? && s'.consumer.Freeing? && s'.popped == s.popped + 1 && s'.popped <= |s.inserted|
        && s'.executed == s.executed && s'.completed == s.completed && s'.consumer.request == s.inserted[s.popped])
    || (&& s.consumer.Executing? && s'.consumer == Completing(s.consumer.phase, s.consumer.request)
        && s'.popped == s.popped && s'.executed == s.executed + [s.consumer.request] && s'.completed == s.completed)
    || (&& s.consumer.Completing? && Uncompleted(s'.consumer) == 0 && s'.popped == s.popped
        && s'.executed == s.executed && s'.completed == s.completed + [s.consumer.request])
  }

  /** The history follows the platform thread through one request. */
  lemma HistoryFollowsConsumer(s: State, s': State)
    requires HistoryInvariant(s) && s'.inserted == s.inserted
    requires HistoryMoves(s, s')
    ensures HistoryInvariant(s')
  {
    if s.consumer.Executing? || s.consumer.Completing? {
      assert s.inserted[..s.popped] == s.inserted[..s.popped - 1] + [s.inserted[s.popped - 1]];
    }
  }

  lemma LoopMovesHistory(s: State, s': State)
    requires Sized(s) && Uncompleted(s.consumer) <= s.popped <= |s.inserted|
    requires !IsHandling(s.consumer) && LoopStep(s) == Some(s')
    ensures HistoryMoves(s, s')
  {
    LoopChangesLittle(s, s');
  }

  lemma HandleMovesHistory(s: State, s': State)
    requires Sized(s) && Uncompleted(s.consumer) <= s.popped <= |s.inserted|
    requires s.consumer.Popping? ==> s.popped < |s.inserted| && s.cells[s.readIndex] == Some(s.inserted[s.popped])
    requires IsHandling(s.consumer) && HandleStep(s) == Some(s')
    ensures HistoryMoves(s, s')
  {
  }

  lemma ConsumeMovesHistory(s: State, s': State)
    requires Sized(s) && Uncompleted(s.consumer) <= s.popped <= |s.inserted|
    requires s.consumer.Popping? ==> s.popped < |s.inserted| && s.cells[s.readIndex] == Some(s.inserted[s.popped])
    requires ConsumeStep(s) == Some(s')
    ensures HistoryMoves(s, s')
  {
    if IsHandling(s.consumer) {
      HandleMovesHistory(s, s');
    } else {
      LoopMovesHistory(s, s');
    }
  }

  lemma LoopKeepsShutdown(s: State, s': State)
    requires Sized(s) && CountInvariant(s) && ShutdownInvariant(s)
    requires !IsHandling(s.consumer) && LoopStep(s) == Some(s')
    ensures ShutdownInvariant(s')
  {
    CountPositive(s.submitters, Publishers);
    CountPositive(s.submitters, AdmittedThreads);
    assert forall t | 0 <= t < |s.submitters| && Belongs(s.submitters[t], Publishers) :: Belongs(s.submitters[t], AdmittedThreads);
  }

  lemma HandleKeepsShutdown(s: State, s': State)
    requires Sized(s) && CountInvariant(s) && ShutdownInvariant(s)
    requires IsHandling(s.consumer) && HandleStep(s) == Some(s')
    ensures ShutdownInvariant(s')
  {
  }

  lemma ConsumeKeepsShutdown(s: State, s': State)
    requires Sized(s) && CountInvariant(s) && ShutdownInvariant(s) && ConsumeStep(s) == Some(s')
    ensures ShutdownInvariant(s')
  {
    if IsHandling(s.consumer) {
      HandleKeepsShutdown(s, s');
    } else {
      LoopKeepsShutdown(s, s');
    }
  }

  lemma ConsumeKeepsWake(s: State, s': State)
    requires Sized(s) && ShutdownInvariant(s) && WakeInvariant(s) && ConsumeStep(s) == Some(s')
    ensures WakeInvariant(s')
  {
    assert !s.consumer.Waiting? ==> (EventComing(s) ==> EventComing(s'));
  }

  /** Every step of every thread keeps the invariant. */
  lemma StepKeepsInvariant(s: State, a: Action, s': State)
    requires Invariant(s)
    requires Sized(s) && Step(s, a) == Some(s')
    ensures Invariant(s')
  {
    match a
    case Submit(t) =>
      SubmitMovesCounters(s, t, s');
      CountersFollowThread(s, t, s'.submitters[t], s');
      SubmitKeepsRing(s, t, s');
      SubmitKeepsMutex(s, t, s');
      SubmitKeepsHistory(s, t, s');
      SubmitKeepsRequests(s, t, s');
      SubmitKeepsShutdown(s, t, s');
      SubmitKeepsWake(s, t, s');
    case Consume =>
      if s.consumer.Popping? {
        PopperFindsRequest(s);
      }
      ConsumeKeepsRing(s, s');
      ConsumeMovesTokens(s, s');
      CountersFollowConsumer(s, s');
      ConsumeMovesHistory(s, s');
      HistoryFollowsConsumer(s, s');
      ConsumeKeepsThreads(s, s');
      ConsumeKeepsRequests(s, s');
      ConsumeKeepsShutdown(s, s');
      ConsumeKeepsWake(s, s');
    case _ =>
      OthersKeepInvariant(s, a, s');
  }

  lemma LoopKeepsThreads(s: State, s': State)
    requires Sized(s)
    requires !IsHandling(s.consumer) && LoopStep(s) == Some(s')
    ensures s'.submitters == s.submitters && s'.inserted == s.inserted && s'.issued == s.issued && s'.mutex == s.mutex
  {
  }

  lemma HandleKeepsThreads(s: State, s': State)
    requires Sized(s)
    requires IsHandling(s.consumer) && HandleStep(s) == Some(s')
    ensures s'.submitters == s.submitters && s'.inserted == s.inserted && s'.issued == s.issued && s'.mutex == s.mutex
  {
  }

  lemma ConsumeKeepsThreads(s: State, s': State)
    requires Sized(s) && ConsumeStep(s) == Some(s')
    ensures s'.submitters == s.submitters && s'.inserted == s.inserted && s'.issued == s.issued && s'.mutex == s.mutex
  {
    if IsHandling(s.consumer) {
      HandleKeepsThreads(s, s');
    } else {
      LoopKeepsThreads(s, s');
    }
  }

  lemma ConsumeKeepsRequests(s: State, s': State)
    requires MutexInvariant(s) && DistinctRequests(s) && RequestsCovered(s)
    requires s'.submitters == s.submitters && s'.inserted == s.inserted && s'.issued == s.issued && s'.mutex == s.mutex
    ensures MutexInvariant(s') && DistinctRequests(s') && RequestsCovered(s')
  {
    SamePendingKeepsRequests(s, s');
  }

  /** Closing the executor, posting the closing event, and waking up for an unrelated event change flags only. */
  predicate ChangesFlags(s: State, s': State) {
    && s' == s.(accepting := s'.accepting, closing := s'.closing, event := s'.event, closer := s'.closer, consumer := s'.consumer)
    && (s'.consumer == s.consumer || (s.consumer.Waiting? && (s'.consumer == CheckRunning || s'.consumer == CheckAdmitted)))
  }

  lemma OthersChangeFlags(s: State, a: Action, s': State)
    requires (a.Close? || a.PostClose? || a.Wake?) && Sized(s) && Step(s, a) == Some(s')
    ensures ChangesFlags(s, s')
  {
  }

  lemma FlagsKeepCounts(s: State, s': State)
    requires CountInvariant(s) && MutexInvariant(s) && HistoryInvariant(s) && ChangesFlags(s, s')
    ensures CountInvariant(s') && MutexInvariant(s') && HistoryInvariant(s')
  {
  }

  lemma OthersKeepWake(s: State, a: Action, s': State)
    requires ShutdownInvariant(s) && WakeInvariant(s) && (a.Close? || a.PostClose? || a.Wake?)
    requires Sized(s) && Step(s, a) == Some(s')
    ensures ShutdownInvariant(s') && WakeInvariant(s')
  {
    assert a != Wake ==> (EventComing(s) ==> EventComing(s'));
  }

  lemma OthersKeepInvariant(s: State, a: Action, s': State)
    requires Invariant(s) && (a.Close? || a.PostClose? || a.Wake?)
    requires Sized(s) && Step(s, a) == Some(s')
    ensures Invariant(s')
  {
    OthersChangeFlags(s, a, s');
    SameRing(s, s');
    FlagsKeepCounts(s, s');
    SamePendingKeepsRequests(s, s');
    OthersKeepWake(s, a, s');
  }

  // ---------------------------------------------------------------------
  // Runs

  /** A run: consecutive states, each reached from the one before by some step. */
  ghost predicate IsRun(states: seq<State>, actions: seq<Action>) {
    && |states| == |actions| + 1
    && Init(states[0])
    && forall i | 0 <= i < |actions| ::
      && Sized(states[i])
      && Step(states[i], actions[i]) == Some(states[i + 1])
  }

  lemma {:induction false} RunKeepsInvariant(states: seq<State>, actions: seq<Action>, i: nat)
    requires IsRun(states, actions) && i < |states|
    ensures Invariant(states[i])
    decreases i
  {
    if i == 0 {
      InitEstablishesInvariant(states[0]);
    } else {
      RunKeepsInvariant(states, actions, i - 1);
      StepKeepsInvariant(states[i - 1], actions[i - 1], states[i - 1 + 1]);
    }
  }

  /**
   * In every run requests are executed exactly once and in the order of their
   * insertion, no thread ever overwrites an occupied cell, and the platform
   * thread never takes an empty one.
   */
  lemma RequestsExecuteOnceInOrder(states: seq<State>, actions: seq<Action>, i: nat)
    requires IsRun(states, actions) && i < |states|
    ensures states[i].executed <= states[i].inserted
    ensures forall a, b | 0 <= a < b < |states[i].executed| :: states[i].executed[a] != states[i].executed[b]
    ensures forall t | 0 <= t < |states[i].submitters| && states[i].submitters[t].Writing? ::
        states[i].writeIndex < |states[i].cells| && states[i].cells[states[i].writeIndex] == None
    ensures states[i].consumer.Popping? ==>
        states[i].readIndex < |states[i].cells| && states[i].cells[states[i].readIndex] != None
  {
    var s := states[i];
    RunKeepsInvariant(states, actions, i);
    forall t | 0 <= t < |s.submitters| && s.submitters[t].Writing?
      ensures s.cells[s.writeIndex] == None
    {
      WriterFindsEmptyCell(s, t);
    }
    WindowIndexCell(s.popped, s.popped);
  }

  /** When the event loop has returned, every request that was ever admitted has completed. */
  lemma ReturnedMeansAllCompleted(states: seq<State>, actions: seq<Action>, i: nat, r: nat)
    requires IsRun(states, actions) && i < |states|
    requires states[i].consumer == Returned && r < states[i].issued
    ensures r in states[i].completed && r in states[i].executed
  {
    var s := states[i];
    RunKeepsInvariant(states, actions, i);
    CountPositive(s.submitters, AdmittedThreads);
    assert s.inserted[..s.popped] == s.inserted;
    assert forall t | 0 <= t < |s.submitters| && Pending(s.submitters[t]) == Some(r) :: Belongs(s.submitters[t], AdmittedThreads);
  }

  /** A thread returns from `run` only after its request has been executed. */
  lemma RunReturnsAfterExecution(states: seq<State>, actions: seq<Action>, i: nat, t: nat)
    requires IsRun(states, actions) && i < |actions| && actions[i] == Submit(t)
    requires t < |states[i].submitters| && t < |states[i + 1].submitters|
    requires states[i].submitters[t].AwaitingResult? && states[i + 1].submitters[t] == Outside
    ensures states[i].submitters[t].request in states[i].executed
  {
    RunKeepsInvariant(states, actions, i);
    var s := states[i];
    assert Step(s, actions[i]) == Some(states[i + 1]);
    assert s.inserted[..s.popped - Uncompleted(s.consumer)] <= s.inserted[..s.popped - Unexecuted(s.consumer)];
  }

  /**
   * No lost wake-up: while the platform thread waits with something to do, an
   * empty event is pending or some thread is about to post one.
   */
  lemma NoLostWakeUp(states: seq<State>, actions: seq<Action>, i: nat)
    requires IsRun(states, actions) && i < |states| && states[i].consumer.Waiting?
    requires
      || states[i].ready > 0
      || (states[i].consumer.phase == WhileRunning && states[i].closing)
      || (states[i].consumer.phase == WhileAdmitted && states[i].admitted == 0)
    ensures states[i].event || states[i].closer == ClosePosting
        || exists t | 0 <= t < |states[i].submitters| :: WillPost(states[i].submitters[t])
  {
    RunKeepsInvariant(states, actions, i);
  }

  /** A step is enabled that needs neither a new submission, nor the closing of the executor, nor an unrelated window event. */
  predicate CanProceed(s: State, a: Action)
    requires Sized(s)
  {
    && Step(s, a).Some?
    && a != Wake && a != Close
    && !(a.Submit? && s.submitters[a.thread] == Outside)
  }

  /**
   * Freedom from deadlock: unless the event loop has returned, or is idle with
   * the executor open and every admitted request completed, some thread can take
   * a step of its own.
   */
  lemma NoDeadlock(states: seq<State>, actions: seq<Action>, i: nat)
    requires IsRun(states, actions) && i < |states| && states[i].consumer != Returned
    requires states[i].closing || exists r: nat :: r < states[i].issued && r !in states[i].completed
    ensures Invariant(states[i])
    ensures exists a: Action :: CanProceed(states[i], a)
  {
    var s := states[i];
    RunKeepsInvariant(states, actions, i);
    WaitingThreadsProgress(s);
  }

  lemma WaitingThreadsProgress(s: State)
    requires Invariant(s) && s.consumer != Returned
    requires s.closing || exists r: nat :: r < s.issued && r !in s.completed
    ensures exists a: Action :: CanProceed(s, a)
  {
    WindowIndexCell(s.popped, s.popped);
    if Step(s, Consume).Some? {
      assert CanProceed(s, Consume);
    } else {
      assert s.consumer.Waiting? && !s.event;
      if s.closer == ClosePosting {
        assert CanProceed(s, PostClose);
      } else if t :| 0 <= t < |s.submitters| && (InMutex(s.submitters[t]) || WillPost(s.submitters[t])) {
        assert CanProceed(s, Submit(t));
      } else {
        IdleWhileWaiting(s);
      }
    }
  }

  /** Nobody is in the mutex or about to post: some admitted thread can go on. */
  lemma IdleWhileWaiting(s: State)
    requires Invariant(s) && s.consumer.Waiting? && !s.event && s.closer != ClosePosting
    requires forall t | 0 <= t < |s.submitters| :: !InMutex(s.submitters[t]) && !WillPost(s.submitters[t])
    requires s.closing || exists r: nat :: r < s.issued && r !in s.completed
    ensures exists a: Action :: CanProceed(s, a)
  {
    assert s.ready == 0;
    CountPositive(s.submitters, Publishers);
    assert |s.inserted| == s.popped;
    assert s.inserted[..s.popped] == s.inserted;
    SomeThreadIsAdmitted(s);
    AdmittedThreadProceeds(s);
  }

  /** With the mutex free and nothing in the ring, an admitted thread takes the mutex or a slot. */
  lemma AdmittedThreadProceeds(s: State)
    requires Sized(s) && CountInvariant(s) && MutexInvariant(s) && !s.consumer.Freeing? && |s.inserted| == s.popped
    requires forall t | 0 <= t < |s.submitters| :: !InMutex(s.submitters[t]) && !WillPost(s.submitters[t])
    requires exists t | 0 <= t < |s.submitters| :: NotInserted(s.submitters[t])
    ensures exists a: Action :: CanProceed(s, a)
  {
    var t :| 0 <= t < |s.submitters| && NotInserted(s.submitters[t]);
    if u :| 0 <= u < |s.submitters| && s.submitters[u].HoldingSlot? {
      assert s.mutex == None;
      assert CanProceed(s, Submit(u));
    } else {
      CountPositive(s.submitters, SlotHolders);
      assert CanProceed(s, Submit(t));
    }
  }

  lemma SomeThreadIsAdmitted(s: State)
    requires Invariant(s) && s.consumer.Waiting? && !s.event && s.closer != ClosePosting
    requires forall t | 0 <= t < |s.submitters| :: !InMutex(s.submitters[t]) && !WillPost(s.submitters[t])
    requires |s.inserted| == s.popped && s.inserted[..s.popped] == s.inserted
    requires s.closing || exists r: nat :: r < s.issued && r !in s.completed
    ensures exists t | 0 <= t < |s.submitters| :: NotInserted(s.submitters[t])
  {
    CountPositive(s.submitters, AdmittedThreads);
    if !s.closing {
      var r: nat :| r < s.issued && r !in s.completed;
      assert r !in s.inserted && Carried(s, r);
    } else {
      assert s.consumer.phase == WhileAdmitted;
      assert s.admitted != 0;
      var t :| 0 <= t < |s.submitters| && Belongs(s.submitters[t], AdmittedThreads);
      assert NotInserted(s.submitters[t]);
    }
  }
}
