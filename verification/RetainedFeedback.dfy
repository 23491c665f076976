/**
 * A resource retained by feedback, over any number of iterations in flight.
 *
 * The submitting thread records the dependencies of each iteration; workers run a
 * job once all jobs it depends on have run. Four jobs of an iteration matter: the
 * phi that selects the value fed back, the construction that acquires a slot, the
 * last writer that produces the next value to feed back, and the end of the
 * iteration. Acquisitions take the slots round robin. The end of an iteration
 * releases the generation that the phi selected or, if the phi selected none, the
 * one that the acquisition replaced.
 *
 * Construction may be memoised: an iteration whose construction is skipped keeps the
 * active generation and acquires nothing, but still counts for the round robin.
 */
module RetainedFeedback {
  import opened Wrappers
  import opened CompletionHistory

  datatype Job = Select(iteration: nat) | Acquire(iteration: nat) | Produce(iteration: nat) | Finish(iteration: nat)

  /**
   * `ordered` says that the producer of the value fed back depends on the phi, as it
   * does when it reads the value of the iteration before; nothing else orders them.
   * `executes` says in which iterations the construction is not skipped, and `writes`
   * in which of the others the producer runs all the same. After a construction that
   * executed the producer always runs, because its input is marked changed.
   */
  datatype Config = Config(slots: nat, inFlight: nat, ordered: bool, executes: nat -> bool, writes: nat -> bool)

  datatype State = State(
    // The submitting thread: iterations submitted, and the completions recorded
    submitted: nat,
    completions: seq<JobId>,
    dependencies: map<Job, set<Job>>,
    // The workers: jobs that have run, the active generation, the generation to feed
    // back, who holds each slot, and what the end of each iteration releases
    ran: set<Job>,
    active: Option<nat>,
    feedback: Option<nat>,
    slots: seq<Option<nat>>,
    previous: map<nat, nat>)

  /** The numbers of slots for which the history row is exact (HistoryEntryIsExact). */
  predicate Configured(c: Config) {
    2 <= c.slots <= c.inFlight + 1
  }

  /** The region's iterations are numbered by their completions. */
  predicate Init(c: Config, s: State) {
    && s.submitted == 0 && s.completions == [] && s.dependencies == map[] && s.ran == {}
    && s.active == None && s.feedback == None && s.previous == map[]
    && |s.slots| == c.slots && (forall i | 0 <= i < c.slots :: s.slots[i] == None)
  }

  /** What the history row gives the next acquisition; nothing while some slot was never used. */
  function HistoryDependency(c: Config, completions: seq<JobId>): Option<JobId>
    requires Configured(c)
  {
    if |completions| < c.slots then None
    else Latest(completions, c.inFlight, (|completions| - (c.slots - 1)) % c.inFlight)
  }

  /** Submission fails when the row has no entry for the acquisition. */
  predicate CanSubmit(c: Config, s: State)
    requires Configured(c)
  {
    |s.completions| < c.slots || HistoryDependency(c, s.completions).Some?
  }

  /** The temporal edge of the feedback: the phi waits for the producer of the iteration before. */
  function SelectDependencies(a: nat): set<Job> {
    if a > 0 then {Produce(a - 1)} else {}
  }

  /** The acquisition waits for the one before, the latest writer, and the completion in the history row. */
  function AcquireDependencies(c: Config, s: State): set<Job>
    requires Configured(c)
  {
    (if s.submitted > 0 then {Acquire(s.submitted - 1), Produce(s.submitted - 1)} else {})
    + (match HistoryDependency(c, s.completions)
       case None => {}
       case Some(iteration) => {Finish(iteration)})
  }

  function ProduceDependencies(c: Config, a: nat): set<Job> {
    if c.ordered then {Acquire(a), Select(a)} else {Acquire(a)}
  }

  /** The finish waits for the terminal jobs, which follow every node of the iteration. */
  function FinishDependencies(a: nat): set<Job> {
    {Select(a), Produce(a)}
  }

  function Submitted(c: Config, s: State): State
    requires Configured(c)
  {
    var a := s.submitted;
    s.(submitted := a + 1,
       completions := s.completions + [a],
       dependencies := s.dependencies[Select(a) := SelectDependencies(a)][Acquire(a) := AcquireDependencies(c, s)]
         [Produce(a) := ProduceDependencies(c, a)][Finish(a) := FinishDependencies(a)])
  }

  predicate Ready(s: State, j: Job) {
    j in s.dependencies && j !in s.ran && s.dependencies[j] <= s.ran
  }

  function SlotOf(c: Config, a: nat): nat
    requires Configured(c)
  {
    a % c.slots
  }

  predicate WellSized(c: Config, s: State) {
    Configured(c) && |s.slots| == c.slots
  }

  /** The reservation that the acquisition asserts to succeed. */
  predicate SlotFree(c: Config, s: State, a: nat)
    requires WellSized(c, s)
  {
    s.slots[SlotOf(c, a)] == None
  }

  /** The generation is held, in its own slot; its release asserts this. */
  predicate Validates(c: Config, s: State, g: nat)
    requires WellSized(c, s)
  {
    s.slots[SlotOf(c, g)] == Some(g)
  }

  /** From the second iteration on the phi puts what it selects up for release. */
  function SelectRan(s: State, a: nat): State {
    s.(ran := s.ran + {Select(a)},
       previous := if a > 0 && s.feedback.Some? then s.previous[a := s.feedback.value] else s.previous)
  }

  /** An acquisition puts what it replaces up for release unless the phi has already chosen. */
  function AcquireRan(c: Config, s: State, a: nat): State
    requires WellSized(c, s)
  {
    if c.executes(a) then
      s.(ran := s.ran + {Acquire(a)},
         active := Some(a),
         slots := s.slots[SlotOf(c, a) := Some(a)],
         previous := if a !in s.previous && s.active.Some? then s.previous[a := s.active.value] else s.previous)
    else
      s.(ran := s.ran + {Acquire(a)})
  }

  predicate Produces(c: Config, a: nat) {
    c.executes(a) || c.writes(a)
  }

  /** The generation of this iteration is fed back, or the active one if construction was skipped; a skipped producer feeds back nothing new. */
  function ProduceRan(c: Config, s: State, a: nat): State {
    s.(ran := s.ran + {Produce(a)},
       feedback := if c.executes(a) then Some(a) else if Produces(c, a) then s.active else s.feedback)
  }

  function FinishRan(c: Config, s: State, a: nat): State
    requires WellSized(c, s)
  {
    if a in s.previous then
      s.(ran := s.ran + {Finish(a)},
         slots := s.slots[SlotOf(c, s.previous[a]) := None],
         previous := s.previous - {a})
    else
      s.(ran := s.ran + {Finish(a)})
  }

  /** One step: the submission of an iteration, or a job whose dependencies have run. */
  datatype Step = Submit | Run(job: Job)

  /** None of the assertions fails when the job runs: a free slot, a generation to feed back, a held one to release. */
  predicate Succeeds(c: Config, s: State, j: Job)
    requires WellSized(c, s)
  {
    match j
    case Acquire(a) => c.executes(a) ==> SlotFree(c, s, a)
    case Produce(a) => Produces(c, a) ==> c.executes(a) || s.active.Some?
    case Finish(a) => a in s.previous ==> Validates(c, s, s.previous[a])
    case Select(_) => true
  }

  predicate Enabled(c: Config, s: State, step: Step)
    requires WellSized(c, s)
  {
    match step
    case Submit => CanSubmit(c, s)
    case Run(j) => Ready(s, j) && Succeeds(c, s, j)
  }

  function Apply(c: Config, s: State, step: Step): State
    requires WellSized(c, s)
  {
    match step
    case Submit => Submitted(c, s)
    case Run(Select(a)) => SelectRan(s, a)
    case Run(Acquire(a)) => AcquireRan(c, s, a)
    case Run(Produce(a)) => ProduceRan(c, s, a)
    case Run(Finish(a)) => FinishRan(c, s, a)
  }

  ghost predicate IsRun(c: Config, states: seq<State>, steps: seq<Step>) {
    && Configured(c)
    && |states| == |steps| + 1
    && Init(c, states[0])
    && forall i | 0 <= i < |steps| ::
      WellSized(c, states[i]) && Enabled(c, states[i], steps[i]) && states[i + 1] == Apply(c, states[i], steps[i])
  }

  // ---------------------------------------------------------------------
  // What the submission records, in every configuration

  predicate SubmissionInvariant(c: Config, s: State)
    requires Configured(c)
  {
    && |s.completions| == s.submitted
    && (forall a | 0 <= a < s.submitted :: s.completions[a] == a)
    && (forall j | j in s.dependencies :: j.iteration < s.submitted)
    && (forall j | j in s.ran :: j in s.dependencies && s.dependencies[j] <= s.ran)
  }

  /** What acquisition a waits for: the iteration before it, and the iteration that freed its slot. */
  function WaitsFor(c: Config, a: nat): set<Job>
    requires Configured(c)
  {
    (if a > 0 then {Acquire(a - 1), Produce(a - 1)} else {}) + (if a >= c.slots then {Finish(a - (c.slots - 1))} else {})
  }

  predicate Planned(c: Config, s: State, a: nat)
    requires Configured(c)
  {
    && Select(a) in s.dependencies && s.dependencies[Select(a)] == SelectDependencies(a)
    && Acquire(a) in s.dependencies && s.dependencies[Acquire(a)] == WaitsFor(c, a)
    && Produce(a) in s.dependencies && s.dependencies[Produce(a)] == ProduceDependencies(c, a)
    && Finish(a) in s.dependencies && s.dependencies[Finish(a)] == FinishDependencies(a)
  }

  predicate DependencyInvariant(c: Config, s: State)
    requires Configured(c)
  {
    forall a: nat | a < s.submitted :: Planned(c, s, a)
  }

  predicate Recorded(c: Config, s: State) {
    WellSized(c, s) && SubmissionInvariant(c, s) && DependencyInvariant(c, s)
  }

  /** The history row always returns the completion of acquisition a - (slots - 1). */
  lemma SubmissionRecordsDependencies(c: Config, s: State)
    requires Configured(c) && SubmissionInvariant(c, s)
    ensures CanSubmit(c, s) && AcquireDependencies(c, s) == WaitsFor(c, s.submitted)
  {
    var a := s.submitted;
    if a >= c.slots {
      LatestFindsRecent(s.completions, c.inFlight, a - (c.slots - 1));
    }
  }

  lemma SubmitKeepsRecord(c: Config, s: State)
    requires Recorded(c, s)
    ensures Recorded(c, Submitted(c, s))
  {
    SubmissionRecordsDependencies(c, s);
    var s' := Submitted(c, s);
    forall a: nat | a < s'.submitted
      ensures Planned(c, s', a)
    {
      assert a < s.submitted ==> Planned(c, s, a);
    }
  }

  lemma RunKeepsRecord(c: Config, s: State, s': State, j: Job)
    requires Recorded(c, s) && Ready(s, j) && s'.ran == s.ran + {j} && |s'.slots| == c.slots
    requires s'.submitted == s.submitted && s'.completions == s.completions && s'.dependencies == s.dependencies
    ensures Recorded(c, s')
  {
    forall a: nat | a < s'.submitted
      ensures Planned(c, s', a)
    {
      assert Planned(c, s, a);
    }
  }

  lemma StepKeepsRecord(c: Config, s: State, step: Step)
    requires Recorded(c, s) && Enabled(c, s, step)
    ensures Recorded(c, Apply(c, s, step))
  {
    match step
    case Submit => SubmitKeepsRecord(c, s);
    case Run(j) => RunKeepsRecord(c, s, Apply(c, s, step), j);
  }

  lemma {:induction false} RunIsRecorded(c: Config, states: seq<State>, steps: seq<Step>, i: nat)
    requires IsRun(c, states, steps) && i < |states|
    ensures Recorded(c, states[i])
  {
    if i > 0 {
      RunIsRecorded(c, states, steps, i - 1);
      StepKeepsRecord(c, states[i - 1], steps[i - 1]);
      assert states[i - 1 + 1] == Apply(c, states[i - 1], steps[i - 1]);
    }
  }

  // ---------------------------------------------------------------------
  // What has run before a job

  lemma {:induction false} AcquisitionsRunInOrder(c: Config, s: State, a: nat, b: nat)
    requires Recorded(c, s) && Acquire(a) in s.ran && b <= a
    ensures Acquire(b) in s.ran
    ensures b < a ==> Produce(b) in s.ran
  {
    if b < a {
      assert Planned(c, s, a) && Acquire(a - 1) in s.dependencies[Acquire(a)];
      assert Produce(a - 1) in s.dependencies[Acquire(a)];
      AcquisitionsRunInOrder(c, s, a - 1, b);
    }
  }

  lemma ProduceFollowsAcquire(c: Config, s: State, a: nat)
    requires Recorded(c, s) && Produce(a) in s.ran
    ensures Acquire(a) in s.ran
    ensures c.ordered ==> Select(a) in s.ran
  {
    assert Planned(c, s, a) && Acquire(a) in s.dependencies[Produce(a)];
    assert c.ordered ==> Select(a) in s.dependencies[Produce(a)];
  }

  lemma SelectFollowsProduce(c: Config, s: State, a: nat)
    requires Recorded(c, s) && (Select(a) in s.ran || Ready(s, Select(a))) && a > 0
    ensures Produce(a - 1) in s.ran && Acquire(a - 1) in s.ran
  {
    assert Planned(c, s, a) && Produce(a - 1) in s.dependencies[Select(a)];
    ProduceFollowsAcquire(c, s, a - 1);
  }

  lemma FinishIsLast(c: Config, s: State, a: nat)
    requires Recorded(c, s) && (Finish(a) in s.ran || Ready(s, Finish(a)))
    ensures Select(a) in s.ran && Produce(a) in s.ran && Acquire(a) in s.ran
  {
    assert Planned(c, s, a) && {Select(a), Produce(a)} <= s.ran;
    ProduceFollowsAcquire(c, s, a);
  }

  /** All iterations up to a - (slots - 1), except the first, have finished before acquisition a runs. */
  lemma {:induction false} EarlierIterationsFinished(c: Config, s: State, a: nat, b: nat)
    requires Recorded(c, s) && a < s.submitted && WaitsFor(c, a) <= s.ran
    requires 1 <= b <= a - (c.slots - 1)
    ensures Finish(b) in s.ran
  {
    if b < a - (c.slots - 1) {
      assert Acquire(a - 1) in WaitsFor(c, a);
      assert Planned(c, s, a - 1);
      EarlierIterationsFinished(c, s, a - 1, b);
    } else {
      assert Finish(b) in WaitsFor(c, a);
    }
  }

  /** The place of a job in its iteration: the phi and the acquisition wait for earlier iterations only. */
  function Rank(j: Job): nat {
    match j
    case Produce(_) => 1
    case Finish(_) => 2
    case _ => 0
  }

  /** While a submitted job has not run, some job may run: the dependencies have no cycle. */
  lemma {:induction false} SomeJobIsReady(c: Config, s: State, j: Job) returns (next: Job)
    requires Recorded(c, s) && j in s.dependencies && j !in s.ran
    ensures Ready(s, next)
    decreases j.iteration, Rank(j)
  {
    assert Planned(c, s, j.iteration);
    if s.dependencies[j] <= s.ran {
      next := j;
    } else {
      var d :| d in s.dependencies[j] && d !in s.ran;
      assert d.iteration < s.submitted ==> Planned(c, s, d.iteration);
      next := SomeJobIsReady(c, s, d);
    }
  }

  // ---------------------------------------------------------------------
  // The invariant under the condition

  /**
   * The producer does not run without a construction, and once construction has
   * executed it always does, with a producer that waits for the phi.
   */
  predicate SteadyAt(c: Config, n: nat) {
    && (c.writes(n) ==> c.executes(n))
    && (c.executes(n) ==> c.ordered && c.executes(n + 1))
  }

  ghost predicate Steady(c: Config) {
    forall n: nat :: SteadyAt(c, n)
  }

  /** The generation that iteration a replaces. */
  function Replaced(c: Config, a: nat): Option<nat> {
    if a > 0 && c.executes(a - 1) then Some(a - 1) else None
  }

  predicate Released(s: State, g: nat) {
    Finish(g + 1) in s.ran
  }

  predicate Held(c: Config, s: State, g: nat) {
    c.executes(g) && Acquire(g) in s.ran && !Released(s, g)
  }

  /** The acquisition that comes next: all before it have run, and none after. */
  predicate NextAcquire(s: State, a: nat) {
    (a > 0 ==> Acquire(a - 1) in s.ran) && Acquire(a) !in s.ran
  }

  predicate NextProduce(s: State, a: nat) {
    (a > 0 ==> Produce(a - 1) in s.ran) && Produce(a) !in s.ran
  }

  predicate PutUp(c: Config, s: State, n: nat) {
    Replaced(c, n).Some? && (Select(n) in s.ran || Acquire(n) in s.ran) && Finish(n) !in s.ran
  }

  ghost predicate ActiveInvariant(c: Config, s: State) {
    && (forall a: nat | NextAcquire(s, a) :: s.active == Replaced(c, a))
    && (forall a: nat | NextProduce(s, a) :: s.feedback == Replaced(c, a))
    && (s.feedback.Some? ==> c.executes(s.feedback.value))
  }

  ghost predicate PreviousInvariant(c: Config, s: State) {
    && (forall n: nat :: n in s.previous <==> PutUp(c, s, n))
    && (forall n: nat | n in s.previous :: n > 0 && s.previous[n] == n - 1)
  }

  ghost predicate SlotInvariant(c: Config, s: State)
    requires WellSized(c, s)
  {
    && (forall i: nat | i < c.slots && s.slots[i].Some? :: Held(c, s, s.slots[i].value) && SlotOf(c, s.slots[i].value) == i)
    && (forall g: nat | Held(c, s, g) :: Validates(c, s, g))
  }

  ghost predicate Invariant(c: Config, s: State) {
    && Recorded(c, s)
    && ActiveInvariant(c, s)
    && PreviousInvariant(c, s)
    && SlotInvariant(c, s)
  }

  lemma InitEstablishesInvariant(c: Config, s: State)
    requires Configured(c) && Init(c, s)
    ensures Invariant(c, s)
  {
    assert forall a: nat | NextAcquire(s, a) :: a == 0;
    assert forall a: nat | NextProduce(s, a) :: a == 0;
  }

  /** The runtime tables depend on what has run, not on what is submitted. */
  lemma SubmitKeepsInvariant(c: Config, s: State)
    requires Invariant(c, s)
    ensures Invariant(c, Submitted(c, s))
  {
    var s' := Submitted(c, s);
    SubmitKeepsRecord(c, s);
    assert forall a: nat :: NextAcquire(s', a) == NextAcquire(s, a) && NextProduce(s', a) == NextProduce(s, a);
    assert forall a: nat :: PutUp(c, s', a) == PutUp(c, s, a) && Held(c, s', a) == Held(c, s, a);
    assert forall g: nat :: Validates(c, s', g) == Validates(c, s, g);
  }

  // The phi

  /** The phi of iteration n finds the generation of the iteration before. */
  lemma SelectFindsReplaced(c: Config, s: State, n: nat)
    requires Steady(c) && Invariant(c, s) && Ready(s, Select(n)) && n > 0
    ensures s.feedback == Replaced(c, n)
  {
    SelectFollowsProduce(c, s, n);
    if Produce(n) in s.ran {
      ProduceFollowsAcquire(c, s, n);
      FeedbackWithoutOrder(c, s, n);
    } else {
      assert NextProduce(s, n);
    }
  }

  /** A producer that has overtaken the phi is not ordered, so construction never executes. */
  lemma FeedbackWithoutOrder(c: Config, s: State, n: nat)
    requires Steady(c) && Invariant(c, s) && !c.ordered
    ensures s.feedback == Replaced(c, n)
  {
    assert n > 0 ==> SteadyAt(c, n - 1);
    assert s.feedback.Some? ==> SteadyAt(c, s.feedback.value);
  }

  lemma SelectKeepsPrevious(c: Config, s: State, n: nat)
    requires Steady(c) && Invariant(c, s) && Ready(s, Select(n))
    ensures PreviousInvariant(c, SelectRan(s, n))
  {
    var s' := SelectRan(s, n);
    if n > 0 {
      SelectFindsReplaced(c, s, n);
    }
    if Finish(n) in s.ran {
      FinishIsLast(c, s, n);
    }
    assert forall m: nat | m != n :: PutUp(c, s', m) == PutUp(c, s, m);
  }

  lemma SelectKeepsInvariant(c: Config, s: State, n: nat)
    requires Steady(c) && Invariant(c, s) && Ready(s, Select(n))
    ensures Invariant(c, SelectRan(s, n))
  {
    var s' := SelectRan(s, n);
    RunKeepsRecord(c, s, s', Select(n));
    SelectKeepsPrevious(c, s, n);
    assert forall a: nat :: NextAcquire(s', a) == NextAcquire(s, a) && NextProduce(s', a) == NextProduce(s, a);
    assert forall g: nat :: Held(c, s', g) == Held(c, s, g) && Validates(c, s', g) == Validates(c, s, g);
  }

  // The acquisition

  lemma {:induction false} SameSlotIsFarApart(c: Config, g: nat, a: nat)
    requires Configured(c) && g < a && SlotOf(c, g) == SlotOf(c, a)
    ensures g + c.slots <= a
  {
    if a < g + c.slots {
      NearbyResiduesDiffer(g, a, c.slots);
    }
  }

  lemma AcquiredBefore(c: Config, s: State, a: nat, g: nat)
    requires Recorded(c, s) && Acquire(a) !in s.ran && Acquire(g) in s.ran
    ensures g < a
  {
    if g >= a {
      AcquisitionsRunInOrder(c, s, g, a);
    }
  }

  /** An acquisition that is ready to run finds its round-robin slot free. */
  lemma SlotIsFree(c: Config, s: State, a: nat)
    requires Invariant(c, s) && Ready(s, Acquire(a))
    ensures SlotFree(c, s, a)
  {
    var i := SlotOf(c, a);
    if s.slots[i].Some? {
      var g := s.slots[i].value;
      AcquiredBefore(c, s, a, g);
      SameSlotIsFarApart(c, g, a);
      assert Planned(c, s, a);
      EarlierIterationsFinished(c, s, a, g + 1);
    }
  }

  lemma ReadyIsNext(c: Config, s: State, a: nat)
    requires Recorded(c, s) && Ready(s, Acquire(a))
    ensures NextAcquire(s, a)
  {
    assert Planned(c, s, a);
    assert a > 0 ==> Acquire(a - 1) in WaitsFor(c, a);
  }

  lemma NextIsUnique(c: Config, s: State, a: nat, b: nat)
    requires Recorded(c, s) && NextAcquire(s, a) && NextAcquire(s, b)
    ensures a == b
  {
    if a < b {
      AcquisitionsRunInOrder(c, s, b - 1, a);
    } else if b < a {
      AcquisitionsRunInOrder(c, s, a - 1, b);
    }
  }

  lemma AcquireKeepsActive(c: Config, s: State, a: nat)
    requires Invariant(c, s) && Ready(s, Acquire(a)) && Steady(c)
    ensures ActiveInvariant(c, AcquireRan(c, s, a))
  {
    var s' := AcquireRan(c, s, a);
    ReadyIsNext(c, s, a);
    assert s.active == Replaced(c, a) && (a > 0 ==> SteadyAt(c, a - 1));
    forall b: nat | NextAcquire(s', b)
      ensures s'.active == Replaced(c, b)
    {
      if b != a + 1 {
        NextIsUnique(c, s, a, b);
      }
    }
    assert forall b: nat :: NextProduce(s', b) == NextProduce(s, b);
  }

  lemma AcquireKeepsPrevious(c: Config, s: State, a: nat)
    requires Invariant(c, s) && Ready(s, Acquire(a)) && Steady(c)
    ensures PreviousInvariant(c, AcquireRan(c, s, a))
  {
    var s' := AcquireRan(c, s, a);
    ReadyIsNext(c, s, a);
    assert s.active == Replaced(c, a) && (a > 0 ==> SteadyAt(c, a - 1));
    if Finish(a) in s.ran {
      FinishIsLast(c, s, a);
    }
    assert forall m: nat | m != a :: PutUp(c, s', m) == PutUp(c, s, m);
  }

  lemma AcquireKeepsSlots(c: Config, s: State, a: nat)
    requires Invariant(c, s) && Ready(s, Acquire(a))
    ensures SlotInvariant(c, AcquireRan(c, s, a))
  {
    var s' := AcquireRan(c, s, a);
    SlotIsFree(c, s, a);
    if Finish(a + 1) in s.ran {
      FinishIsLast(c, s, a + 1);
      AcquisitionsRunInOrder(c, s, a + 1, a);
    }
    assert forall g: nat :: Held(c, s', g) <==> (Held(c, s, g) || (g == a && c.executes(a)));
  }

  lemma AcquireKeepsInvariant(c: Config, s: State, a: nat)
    requires Steady(c) && Invariant(c, s) && Ready(s, Acquire(a))
    ensures Invariant(c, AcquireRan(c, s, a))
  {
    RunKeepsRecord(c, s, AcquireRan(c, s, a), Acquire(a));
    AcquireKeepsActive(c, s, a);
    AcquireKeepsPrevious(c, s, a);
    AcquireKeepsSlots(c, s, a);
  }

  // The producer

  lemma NextProduceIsUnique(c: Config, s: State, a: nat, b: nat)
    requires Recorded(c, s) && Ready(s, Produce(a)) && NextProduce(s, b)
    ensures a == b
  {
    assert Planned(c, s, a) && Acquire(a) in s.dependencies[Produce(a)];
    if b < a {
      AcquisitionsRunInOrder(c, s, a, b);
    } else if a < b {
      ProduceFollowsAcquire(c, s, b - 1);
      AcquisitionsRunInOrder(c, s, b - 1, a);
    }
  }

  /** No acquisition runs between the one of an iteration and its producer. */
  lemma ActiveAtProduce(c: Config, s: State, a: nat)
    requires Recorded(c, s) && Ready(s, Produce(a))
    ensures NextAcquire(s, a + 1) && NextProduce(s, a)
  {
    assert Planned(c, s, a) && Acquire(a) in s.dependencies[Produce(a)];
    if a > 0 {
      AcquisitionsRunInOrder(c, s, a, a - 1);
    }
    if Acquire(a + 1) in s.ran {
      AcquisitionsRunInOrder(c, s, a + 1, a);
    }
  }

  lemma ProduceKeepsActive(c: Config, s: State, a: nat)
    requires Steady(c) && Invariant(c, s) && Ready(s, Produce(a))
    ensures ActiveInvariant(c, ProduceRan(c, s, a))
  {
    var s' := ProduceRan(c, s, a);
    ActiveAtProduce(c, s, a);
    assert s.active == Replaced(c, a + 1) && s.feedback == Replaced(c, a);
    assert SteadyAt(c, a) && (a > 0 ==> SteadyAt(c, a - 1));
    forall b: nat | NextProduce(s', b)
      ensures b == a + 1
    {
      if b != a + 1 {
        NextProduceIsUnique(c, s, a, b);
      }
    }
    assert forall b: nat :: NextAcquire(s', b) == NextAcquire(s, b);
  }

  lemma ProduceKeepsInvariant(c: Config, s: State, a: nat)
    requires Steady(c) && Invariant(c, s) && Ready(s, Produce(a))
    ensures Invariant(c, ProduceRan(c, s, a))
  {
    var s' := ProduceRan(c, s, a);
    RunKeepsRecord(c, s, s', Produce(a));
    ProduceKeepsActive(c, s, a);
    assert forall g: nat :: PutUp(c, s', g) == PutUp(c, s, g) && Held(c, s', g) == Held(c, s, g);
    assert forall g: nat :: Validates(c, s', g) == Validates(c, s, g);
  }

  // The end of an iteration

  /** The generation that the end of an iteration releases is the one before, and held. */
  lemma ReleasesHeldGeneration(c: Config, s: State, a: nat)
    requires Invariant(c, s) && Ready(s, Finish(a))
    ensures a in s.previous <==> Replaced(c, a).Some?
    ensures a in s.previous ==> s.previous[a] == a - 1 && Held(c, s, a - 1) && Validates(c, s, a - 1)
  {
    FinishIsLast(c, s, a);
    assert a in s.previous <==> PutUp(c, s, a);
    if a in s.previous {
      AcquisitionsRunInOrder(c, s, a, a - 1);
      assert Held(c, s, a - 1);
    }
  }

  lemma FinishKeepsHeld(c: Config, s: State, a: nat, g: nat)
    requires Invariant(c, s) && Ready(s, Finish(a))
    ensures Held(c, FinishRan(c, s, a), g) <==> Held(c, s, g) && !(a in s.previous && g == a - 1)
  {
    ReleasesHeldGeneration(c, s, a);
  }

  lemma FinishKeepsSlots(c: Config, s: State, a: nat)
    requires Invariant(c, s) && Ready(s, Finish(a))
    ensures SlotInvariant(c, FinishRan(c, s, a))
  {
    var s' := FinishRan(c, s, a);
    ReleasesHeldGeneration(c, s, a);
    forall g: nat
      ensures Held(c, s', g) <==> Held(c, s, g) && !(a in s.previous && g == a - 1)
    {
      FinishKeepsHeld(c, s, a, g);
    }
  }

  lemma FinishKeepsInvariant(c: Config, s: State, a: nat)
    requires Invariant(c, s) && Ready(s, Finish(a))
    ensures Invariant(c, FinishRan(c, s, a))
  {
    var s' := FinishRan(c, s, a);
    RunKeepsRecord(c, s, s', Finish(a));
    FinishKeepsSlots(c, s, a);
    assert forall b: nat :: NextAcquire(s', b) == NextAcquire(s, b) && NextProduce(s', b) == NextProduce(s, b);
    assert forall m: nat :: PutUp(c, s', m) == (PutUp(c, s, m) && m != a);
  }

  lemma ReadySucceeds(c: Config, s: State, j: Job)
    requires Steady(c) && Invariant(c, s) && Ready(s, j)
    ensures Succeeds(c, s, j)
  {
    match j
    case Acquire(a) => SlotIsFree(c, s, a);
    case Produce(a) => assert SteadyAt(c, a);
    case Finish(a) => ReleasesHeldGeneration(c, s, a);
    case Select(_) =>
  }

  lemma StepKeepsInvariant(c: Config, s: State, step: Step)
    requires Steady(c) && Invariant(c, s) && Enabled(c, s, step)
    ensures Invariant(c, Apply(c, s, step))
  {
    match step
    case Submit => SubmitKeepsInvariant(c, s);
    case Run(Select(a)) => SelectKeepsInvariant(c, s, a);
    case Run(Acquire(a)) => AcquireKeepsInvariant(c, s, a);
    case Run(Produce(a)) => ProduceKeepsInvariant(c, s, a);
    case Run(Finish(a)) => FinishKeepsInvariant(c, s, a);
  }

  lemma {:induction false} RunKeepsInvariant(c: Config, states: seq<State>, steps: seq<Step>, i: nat)
    requires Steady(c) && IsRun(c, states, steps) && i < |states|
    ensures Invariant(c, states[i])
  {
    if i == 0 {
      InitEstablishesInvariant(c, states[0]);
    } else {
      RunKeepsInvariant(c, states, steps, i - 1);
      StepKeepsInvariant(c, states[i - 1], steps[i - 1]);
      assert states[i - 1 + 1] == Apply(c, states[i - 1], steps[i - 1]);
    }
  }

  // ---------------------------------------------------------------------
  // Slots never collide

  /**
   * If construction always executes and the producer waits for the phi, every
   * acquisition that may run finds all generations up to a - slots released and its
   * own slot free, in every interleaving the recorded dependencies allow.
   */
  lemma RetainedSlotsNeverCollide(c: Config, states: seq<State>, steps: seq<Step>, i: nat, a: nat)
    requires IsRun(c, states, steps) && i < |states| && Ready(states[i], Acquire(a))
    requires c.ordered && forall b: nat :: c.executes(b)
    ensures forall g: nat | g + c.slots <= a :: Released(states[i], g)
    ensures WellSized(c, states[i]) && SlotFree(c, states[i], a)
  {
    RunKeepsInvariant(c, states, steps, i);
    assert Planned(c, states[i], a);
    forall g: nat | g + c.slots <= a
      ensures Released(states[i], g)
    {
      EarlierIterationsFinished(c, states[i], a, g + 1);
    }
    SlotIsFree(c, states[i], a);
  }

  // ---------------------------------------------------------------------
  // The exact condition

  ghost predicate Reachable(c: Config, s: State) {
    exists states: seq<State>, steps: seq<Step> :: IsRun(c, states, steps) && states[|steps|] == s
  }

  /** A job may run, and an assertion fails when it does. */
  ghost predicate Fails(c: Config, s: State) {
    WellSized(c, s) && exists j: Job :: Ready(s, j) && !Succeeds(c, s, j)
  }

  /** No acquisition finds its slot taken, no producer lacks a generation, and no end of an iteration releases what is not held. */
  ghost predicate NeverFails(c: Config) {
    forall s: State :: Reachable(c, s) ==> !Fails(c, s)
  }

  lemma ReachableIsRecorded(c: Config, s: State)
    requires Reachable(c, s)
    ensures Recorded(c, s)
  {
    var states: seq<State>, steps: seq<Step> :| IsRun(c, states, steps) && states[|steps|] == s;
    RunIsRecorded(c, states, steps, |steps|);
  }

  lemma ReachableStep(c: Config, s: State, step: Step)
    requires Reachable(c, s) && WellSized(c, s) && Enabled(c, s, step)
    ensures Reachable(c, Apply(c, s, step))
  {
    var states: seq<State>, steps: seq<Step> :| IsRun(c, states, steps) && states[|steps|] == s;
    var states', steps' := states + [Apply(c, s, step)], steps + [step];
    forall i | 0 <= i < |steps'|
      ensures WellSized(c, states'[i]) && Enabled(c, states'[i], steps'[i]) && states'[i + 1] == Apply(c, states'[i], steps'[i])
    {
      assert states'[i] == states[i] && (i < |steps| ==> states'[i + 1] == states[i + 1]);
    }
    assert IsRun(c, states', steps') && states'[|steps'|] == Apply(c, s, step);
  }

  lemma SteadyNeverFails(c: Config)
    requires Steady(c)
    ensures NeverFails(c)
  {
    forall s: State | Reachable(c, s)
      ensures !Fails(c, s)
    {
      var states: seq<State>, steps: seq<Step> :| IsRun(c, states, steps) && states[|steps|] == s;
      RunKeepsInvariant(c, states, steps, |steps|);
      forall j: Job | Ready(s, j)
        ensures Succeeds(c, s, j)
      {
        ReadySucceeds(c, s, j);
      }
    }
  }

  // Runs that take one iteration after the other

  function OnlyHeld(c: Config, held: Option<nat>): seq<Option<nat>>
    requires Configured(c)
  {
    seq(c.slots, i => if held.Some? && SlotOf(c, held.value) == i then held else None)
  }

  lemma OnlyHeldChanges(c: Config, g: nat, m: nat)
    requires Configured(c) && SlotOf(c, g) != SlotOf(c, m)
    ensures OnlyHeld(c, None)[SlotOf(c, m) := Some(m)] == OnlyHeld(c, Some(m))
    ensures OnlyHeld(c, Some(g))[SlotOf(c, g) := None] == OnlyHeld(c, None)
    ensures OnlyHeld(c, Some(g))[SlotOf(c, m) := Some(m)][SlotOf(c, g) := None] == OnlyHeld(c, Some(m))
    ensures OnlyHeld(c, Some(g))[SlotOf(c, m) := Some(m)][SlotOf(c, m) := None] == OnlyHeld(c, Some(g))
  {
  }

  /** Of iteration m exactly the given jobs have run, of the earlier ones all, and of later ones none. */
  ghost predicate RanUpTo(s: State, m: nat, select: bool, acquire: bool, produce: bool) {
    forall n: nat ::
      && (Select(n) in s.ran <==> n < m || (n == m && select))
      && (Acquire(n) in s.ran <==> n < m || (n == m && acquire))
      && (Produce(n) in s.ran <==> n < m || (n == m && produce))
      && (Finish(n) in s.ran <==> n < m)
  }

  /** Iterations before m are complete; `latest` is active and fed back, and `held` is the only generation held. */
  ghost predicate Settled(c: Config, s: State, m: nat, latest: Option<nat>, held: Option<nat>) {
    && Reachable(c, s) && Configured(c)
    && s.submitted == m && RanUpTo(s, m, false, false, false)
    && s.active == latest && s.feedback == latest && (latest.Some? ==> latest.value < m)
    && s.previous == map[] && s.slots == OnlyHeld(c, held)
  }

  /** What the jobs of iteration m may rely on while it runs. */
  ghost predicate Running(c: Config, s: State, m: nat, select: bool, acquire: bool, produce: bool) {
    Reachable(c, s) && Recorded(c, s) && s.submitted == m + 1 && RanUpTo(s, m, select, acquire, produce)
  }

  lemma StartIteration(c: Config, s: State, m: nat, latest: Option<nat>, held: Option<nat>) returns (s': State)
    requires Settled(c, s, m, latest, held)
    ensures s' == Submitted(c, s) && Running(c, s', m, false, false, false)
  {
    ReachableIsRecorded(c, s);
    SubmissionRecordsDependencies(c, s);
    s' := Submitted(c, s);
    ReachableStep(c, s, Submit);
    ReachableIsRecorded(c, s');
  }

  lemma RunSelect(c: Config, s: State, m: nat, acquire: bool, produce: bool) returns (s': State)
    requires Running(c, s, m, false, acquire, produce)
    ensures s' == SelectRan(s, m) && Running(c, s', m, true, acquire, produce)
  {
    assert Planned(c, s, m);
    s' := SelectRan(s, m);
    ReachableStep(c, s, Run(Select(m)));
    ReachableIsRecorded(c, s');
  }

  lemma AcquireIsReady(c: Config, s: State, m: nat, select: bool)
    requires Running(c, s, m, select, false, false)
    ensures Ready(s, Acquire(m))
  {
    assert Planned(c, s, m);
  }

  lemma RunAcquire(c: Config, s: State, m: nat, select: bool) returns (s': State)
    requires Running(c, s, m, select, false, false) && (c.executes(m) ==> SlotFree(c, s, m))
    ensures s' == AcquireRan(c, s, m) && Running(c, s', m, select, true, false)
  {
    AcquireIsReady(c, s, m, select);
    s' := AcquireRan(c, s, m);
    ReachableStep(c, s, Run(Acquire(m)));
    ReachableIsRecorded(c, s');
  }

  lemma ProduceIsReady(c: Config, s: State, m: nat, select: bool)
    requires Running(c, s, m, select, true, false) && (select || !c.ordered)
    ensures Ready(s, Produce(m))
  {
    assert Planned(c, s, m);
  }

  lemma RunProduce(c: Config, s: State, m: nat, select: bool) returns (s': State)
    requires Running(c, s, m, select, true, false) && (select || !c.ordered) && Succeeds(c, s, Produce(m))
    ensures s' == ProduceRan(c, s, m) && Running(c, s', m, select, true, true)
  {
    ProduceIsReady(c, s, m, select);
    s' := ProduceRan(c, s, m);
    ReachableStep(c, s, Run(Produce(m)));
    ReachableIsRecorded(c, s');
  }

  lemma FinishIsReady(c: Config, s: State, m: nat)
    requires Running(c, s, m, true, true, true)
    ensures Ready(s, Finish(m))
  {
    assert Planned(c, s, m);
  }

  lemma RunFinish(c: Config, s: State, m: nat) returns (s': State)
    requires Running(c, s, m, true, true, true) && (m in s.previous ==> Validates(c, s, s.previous[m]))
    ensures s' == FinishRan(c, s, m) && Reachable(c, s') && s'.submitted == m + 1 && RanUpTo(s', m + 1, false, false, false)
  {
    FinishIsReady(c, s, m);
    s' := FinishRan(c, s, m);
    ReachableStep(c, s, Run(Finish(m)));
  }

  /** Up to the end of iteration m, the phi first: what is released next is the latest generation. */
  lemma SelectFirst(c: Config, s: State, m: nat, latest: Option<nat>, held: Option<nat>) returns (s': State)
    requires Settled(c, s, m, latest, held)
    requires if c.executes(m) then SlotFree(c, s, m) else c.writes(m) ==> latest.Some?
    ensures Running(c, s', m, true, true, true)
    ensures s'.previous == if latest.Some? then map[m := latest.value] else map[]
    ensures s'.active == s'.feedback == if c.executes(m) then Some(m) else latest
    ensures s'.slots == if c.executes(m) then s.slots[SlotOf(c, m) := Some(m)] else s.slots
  {
    s' := StartIteration(c, s, m, latest, held);
    s' := RunSelect(c, s', m, false, false);
    s' := RunAcquire(c, s', m, true);
    s' := RunProduce(c, s', m, true);
  }

  /** An iteration that finds the latest generation held releases it. */
  lemma SequentialIteration(c: Config, s: State, m: nat, latest: Option<nat>) returns (s': State)
    requires Settled(c, s, m, latest, latest) && (latest.Some? ==> latest.value == m - 1)
    requires c.writes(m) ==> c.executes(m) || latest.Some?
    ensures Settled(c, s', m + 1, if c.executes(m) then Some(m) else latest, if c.executes(m) then Some(m) else None)
  {
    if latest.Some? {
      NearbyResiduesDiffer(m - 1, m, c.slots);
      OnlyHeldChanges(c, m - 1, m);
    } else {
      NearbyResiduesDiffer(m, m + 1, c.slots);
      OnlyHeldChanges(c, m + 1, m);
    }
    s' := SelectFirst(c, s, m, latest, latest);
    s' := RunFinish(c, s', m);
  }

  /** As long as the condition holds, the latest generation is held. */
  lemma {:induction false} SequentialRun(c: Config, m: nat) returns (s: State)
    requires Configured(c)
    requires forall n: nat | n + 1 < m :: SteadyAt(c, n)
    requires m > 0 ==> c.writes(m - 1) ==> c.executes(m - 1)
    ensures Settled(c, s, m, Replaced(c, m), Replaced(c, m))
  {
    if m == 0 {
      s := State(0, [], map[], {}, None, None, seq(c.slots, i => None), map[]);
      var steps: seq<Step> := [];
      assert IsRun(c, [s], steps) && [s][|steps|] == s;
    } else {
      assert m > 1 ==> SteadyAt(c, m - 2);
      s := SequentialRun(c, m - 1);
      s := SequentialIteration(c, s, m - 1, Replaced(c, m - 1));
    }
  }

  /** When the latest generation is not held any more, the next iteration fails. */
  lemma LatestNotHeldFails(c: Config, s: State, m: nat, g: nat, held: Option<nat>)
    requires Settled(c, s, m, Some(g), held) && held != Some(g)
    ensures !NeverFails(c)
  {
    if c.executes(m) && !SlotFree(c, s, m) {
      var s' := StartIteration(c, s, m, Some(g), held);
      AcquireIsReady(c, s', m, false);
      assert !Succeeds(c, s', Acquire(m));
      assert Fails(c, s');
    } else {
      var s' := SelectFirst(c, s, m, Some(g), held);
      FinishIsReady(c, s', m);
      StaysUnheld(c, s, s', m, g, held);
      assert !Succeeds(c, s', Finish(m));
      assert Fails(c, s');
    }
  }

  lemma StaysUnheld(c: Config, s: State, s': State, m: nat, g: nat, held: Option<nat>)
    requires Configured(c) && s.slots == OnlyHeld(c, held) && held != Some(g) && g < m
    requires s'.slots == if c.executes(m) then s.slots[SlotOf(c, m) := Some(m)] else s.slots
    ensures WellSized(c, s') && !Validates(c, s', g)
  {
  }

  /** An iteration whose producer overtakes the phi: it releases its own generation and not the one before. */
  lemma OvertakingIteration(c: Config, s: State, m: nat) returns (s': State)
    requires Settled(c, s, m + 1, Some(m), Some(m)) && !c.ordered && c.executes(m + 1)
    ensures Settled(c, s', m + 2, Some(m + 1), Some(m))
  {
    NearbyResiduesDiffer(m, m + 1, c.slots);
    OnlyHeldChanges(c, m, m + 1);
    s' := SelectLast(c, s, m);
    s' := RunFinish(c, s', m + 1);
  }

  /** Up to the end of such an iteration, the phi last: what is released next is the generation of the iteration itself. */
  lemma SelectLast(c: Config, s: State, m: nat) returns (s': State)
    requires Settled(c, s, m + 1, Some(m), Some(m)) && !c.ordered && c.executes(m + 1) && SlotFree(c, s, m + 1)
    ensures Running(c, s', m + 1, true, true, true)
    ensures s'.previous == map[m + 1 := m + 1] && s'.active == Some(m + 1) && s'.feedback == Some(m + 1)
    ensures s'.slots == s.slots[SlotOf(c, m + 1) := Some(m + 1)]
  {
    s' := ProduceFirst(c, s, m);
    s' := RunSelect(c, s', m + 1, true, true);
  }

  lemma ProduceFirst(c: Config, s: State, m: nat) returns (s': State)
    requires Settled(c, s, m + 1, Some(m), Some(m)) && !c.ordered && c.executes(m + 1) && SlotFree(c, s, m + 1)
    ensures Running(c, s', m + 1, false, true, true)
    ensures s'.previous == map[m + 1 := m] && s'.active == Some(m + 1) && s'.feedback == Some(m + 1)
    ensures s'.slots == s.slots[SlotOf(c, m + 1) := Some(m + 1)]
  {
    s' := StartIteration(c, s, m + 1, Some(m), Some(m));
    s' := RunAcquire(c, s', m + 1, false);
    s' := RunProduce(c, s', m + 1, false);
  }

  /** A producer that runs before any construction has executed finds nothing to feed back. */
  lemma ProducerWithoutGeneration(c: Config, s: State, m: nat)
    requires Settled(c, s, m, None, None) && c.writes(m) && !c.executes(m)
    ensures !NeverFails(c)
  {
    var s' := StartIteration(c, s, m, None, None);
    s' := RunSelect(c, s', m, false, false);
    s' := RunAcquire(c, s', m, true);
    ProduceIsReady(c, s', m, true);
    assert !Succeeds(c, s', Produce(m));
    assert Fails(c, s');
  }

  /** The first iteration at which the condition does not hold. */
  lemma {:induction false} FirstUnsteady(c: Config, n: nat) returns (k: nat)
    requires !SteadyAt(c, n)
    ensures !SteadyAt(c, k)
    ensures forall i: nat | i < k :: SteadyAt(c, i)
  {
    k := n;
    if i: nat :| i < n && !SteadyAt(c, i) {
      k := FirstUnsteady(c, i);
    }
  }

  lemma UnsteadyFails(c: Config, n: nat)
    requires Configured(c) && !SteadyAt(c, n)
    ensures !NeverFails(c)
  {
    var k := FirstUnsteady(c, n);
    if c.executes(k) {
      UnsteadyReplacementFails(c, k);
    } else {
      assert k > 0 ==> SteadyAt(c, k - 1);
      var s := SequentialRun(c, k);
      ProducerWithoutGeneration(c, s, k);
    }
  }

  /** The iteration after one that executed is skipped, or its producer overtakes the phi. */
  lemma UnsteadyReplacementFails(c: Config, k: nat)
    requires Configured(c) && c.executes(k) && !SteadyAt(c, k) && forall i: nat | i < k :: SteadyAt(c, i)
    ensures !NeverFails(c)
  {
    var s := SequentialRun(c, k + 1);
    if c.executes(k + 1) {
      var s' := OvertakingIteration(c, s, k);
      LatestNotHeldFails(c, s', k + 2, k + 1, Some(k));
    } else {
      var s' := SequentialIteration(c, s, k + 1, Some(k));
      LatestNotHeldFails(c, s', k + 2, k, None);
    }
  }

  /**
   * No interleaving of any number of iterations fails exactly when the producer does
   * not run without a construction, and a construction that has executed is never
   * skipped and then has a producer that waits for the phi.
   */
  lemma NeverFailsExactly(c: Config)
    requires Configured(c)
    ensures NeverFails(c) <==> Steady(c)
  {
    if Steady(c) {
      SteadyNeverFails(c);
    } else {
      var n: nat :| !SteadyAt(c, n);
      UnsteadyFails(c, n);
    }
  }

  /** Execute, skip, execute: the third iteration releases a generation that the second has released. */
  lemma SkippedConstructionFails()
    ensures !NeverFails(Config(2, 2, true, n => n != 1, n => false))
  {
    UnsteadyFails(Config(2, 2, true, n => n != 1, n => false), 0);
  }

  /** Construction in every iteration, but a producer that does not wait for the phi. */
  lemma UnorderedProducerFails()
    ensures !NeverFails(Config(2, 2, false, n => true, n => true))
  {
    UnsteadyFails(Config(2, 2, false, n => true, n => true), 0);
  }

  /** The first construction is skipped and the producer runs all the same. */
  lemma SkippedFirstConstructionFails()
    ensures !NeverFails(Config(2, 2, true, n => n > 0, n => true))
  {
    UnsteadyFails(Config(2, 2, true, n => n > 0, n => true), 0);
  }
}
