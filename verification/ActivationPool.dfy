/**
 * The pool of activation blocks: blocks are allocated on demand up to a fixed
 * capacity, a stack holds the free ones, and an execution holds one from its begin
 * to its completion, across any number of suspensions.
 */
module ActivationPool {
  import opened Wrappers
  import opened Graphs

  /** What the pool knows; `occupied` and `running` are indexed by activation. */
  datatype Pool = Pool(blockCount: nat, free: seq<nat>, occupied: seq<bool>, running: seq<bool>)

  predicate IsInUse(p: Pool, a: nat) {
    a < |p.occupied| && p.occupied[a]
  }

  /** The free stack holds exactly the allocated activations that are not occupied, each once. */
  predicate PoolInvariant(p: Pool) {
    && p.blockCount <= |p.occupied| == |p.running|
    && NoDuplicates(p.free)
    && (forall i | 0 <= i < |p.free| :: p.free[i] < p.blockCount && !p.occupied[p.free[i]])
    && (forall a: nat | a < p.blockCount && !p.occupied[a] :: a in p.free)
    && (forall a: nat | p.blockCount <= a < |p.occupied| :: !p.occupied[a])
    && (forall a: nat | a < |p.running| && p.running[a] :: p.occupied[a])
  }

  /** All blocks are allocated and none is free: a new execution has to wait. */
  predicate Exhausted(p: Pool) {
    p.free == [] && p.blockCount >= |p.occupied|
  }

  function Grown(p: Pool): Pool
    requires p.blockCount < |p.occupied|
  {
    p.(blockCount := p.blockCount + 1, free := p.free + [p.blockCount])
  }

  function Ready(p: Pool): Pool
    requires !Exhausted(p)
  {
    if p.free == [] then Grown(p) else p
  }

  /** The activation that the next execution gets. */
  function Next(p: Pool): nat
    requires !Exhausted(p)
  {
    Ready(p).free[|Ready(p).free| - 1]
  }

  function Begun(p: Pool): Pool
    requires PoolInvariant(p) && !Exhausted(p)
  {
    NextIsFree(p);
    var q := Ready(p);
    var a := Next(p);
    q.(free := q.free[..|q.free| - 1], occupied := q.occupied[a := true], running := q.running[a := true])
  }

  lemma NextIsFree(p: Pool)
    requires PoolInvariant(p) && !Exhausted(p)
    ensures Next(p) < |p.occupied| && !p.occupied[Next(p)] && !IsInUse(p, Next(p))
  {
  }

  /** A suspended execution keeps its activation; a complete one gives it back. */
  function Finished(p: Pool, a: nat, complete: bool): Pool
    requires a < |p.occupied| == |p.running|
  {
    if complete then Pool(p.blockCount, p.free + [a], p.occupied[a := false], p.running[a := false])
    else p.(running := p.running[a := false])
  }

  predicate CanResume(p: Pool, a: nat) {
    a < |p.occupied| == |p.running| && p.occupied[a] && !p.running[a]
  }

  function Resumed(p: Pool, a: nat): Pool
    requires CanResume(p, a)
  {
    p.(running := p.running[a := true])
  }

  lemma GrowKeepsInvariant(p: Pool)
    requires PoolInvariant(p) && p.free == [] && p.blockCount < |p.occupied|
    ensures PoolInvariant(Grown(p))
  {
  }

  lemma TakeKeepsInvariant(q: Pool, taken: Pool, a: nat)
    requires PoolInvariant(q) && q.free != [] && a == q.free[|q.free| - 1]
    requires taken == q.(free := q.free[..|q.free| - 1], occupied := q.occupied[a := true], running := q.running[a := true])
    ensures PoolInvariant(taken)
  {
    assert q.free == q.free[..|q.free| - 1] + [a];
  }

  lemma BeginKeepsInvariant(p: Pool)
    requires PoolInvariant(p) && !Exhausted(p)
    ensures PoolInvariant(Begun(p))
  {
    if p.free == [] {
      GrowKeepsInvariant(p);
    }
    TakeKeepsInvariant(Ready(p), Begun(p), Next(p));
  }

  lemma FinishKeepsInvariant(p: Pool, a: nat, complete: bool)
    requires PoolInvariant(p) && IsInUse(p, a)
    ensures PoolInvariant(Finished(p, a, complete))
  {
    assert a !in p.free;
  }

  // ---------------------------------------------------------------------
  // Nothing is lost

  ghost function InUse(p: Pool): set<nat> {
    set a: nat | 0 <= a < |p.occupied| && p.occupied[a]
  }

  function Members(s: seq<nat>): set<nat> {
    set x | x in s
  }

  lemma {:induction false} DistinctSize(s: seq<nat>)
    requires NoDuplicates(s)
    ensures |Members(s)| == |s|
  {
    if s != [] {
      var n := |s| - 1;
      DistinctSize(s[..n]);
      assert s == s[..n] + [s[n]];
      assert Members(s) == Members(s[..n]) + {s[n]};
    }
  }

  function Below(n: nat): (r: set<nat>)
    ensures |r| == n && forall x: nat :: x in r <==> x < n
  {
    if n == 0 then {} else Below(n - 1) + {n - 1}
  }

  /** Every allocated activation is in use or free, so an execution waits only when `capacity` are in use. */
  lemma ActivationsArePartitioned(p: Pool)
    requires PoolInvariant(p)
    ensures |InUse(p)| + |p.free| == p.blockCount <= |p.occupied|
    ensures Exhausted(p) <==> |InUse(p)| == |p.occupied|
  {
    DistinctSize(p.free);
    assert InUse(p) !! Members(p.free);
    assert InUse(p) + Members(p.free) == Below(p.blockCount);
  }

  // ---------------------------------------------------------------------
  // Executions in progress

  /** Executions are numbered in the order they begin; `holds` maps those in progress to their activations. */
  datatype State = State(pool: Pool, begun: nat, holds: map<nat, nat>)

  datatype Step = Begin | Suspend(execution: nat) | Resume(execution: nat) | Complete(execution: nat)

  predicate Enabled(s: State, step: Step) {
    PoolInvariant(s.pool) &&
    match step
    case Begin => !Exhausted(s.pool)
    case Suspend(e) => e in s.holds && s.holds[e] < |s.pool.running| && s.pool.running[s.holds[e]]
    case Resume(e) => e in s.holds && CanResume(s.pool, s.holds[e])
    case Complete(e) => e in s.holds && s.holds[e] < |s.pool.running| && s.pool.running[s.holds[e]]
  }

  function Apply(s: State, step: Step): State
    requires Enabled(s, step)
  {
    match step
    case Begin => State(Begun(s.pool), s.begun + 1, s.holds[s.begun := Next(s.pool)])
    case Suspend(e) => s.(pool := Finished(s.pool, s.holds[e], false))
    case Resume(e) => s.(pool := Resumed(s.pool, s.holds[e]))
    case Complete(e) => s.(pool := Finished(s.pool, s.holds[e], true), holds := s.holds - {e})
  }

  /** Executions in progress hold different activations, and those are exactly the ones in use. */
  ghost predicate Invariant(s: State) {
    && PoolInvariant(s.pool)
    && (forall e | e in s.holds :: e < s.begun && IsInUse(s.pool, s.holds[e]))
    && (forall e, f | e in s.holds && f in s.holds && s.holds[e] == s.holds[f] :: e == f)
    && (forall a: nat | IsInUse(s.pool, a) :: exists e :: e in s.holds && s.holds[e] == a)
  }

  predicate Init(s: State) {
    && s.pool.blockCount == 0 && s.pool.free == [] && |s.pool.occupied| == |s.pool.running|
    && (forall a | 0 <= a < |s.pool.occupied| :: !s.pool.occupied[a] && !s.pool.running[a])
    && s.begun == 0 && s.holds == map[]
  }

  ghost predicate IsRun(states: seq<State>, steps: seq<Step>) {
    && |states| == |steps| + 1
    && Init(states[0])
    && forall i | 0 <= i < |steps| :: Enabled(states[i], steps[i]) && states[i + 1] == Apply(states[i], steps[i])
  }

  lemma BeginTakesNext(p: Pool, a: nat)
    requires PoolInvariant(p) && !Exhausted(p)
    ensures IsInUse(Begun(p), a) <==> IsInUse(p, a) || a == Next(p)
  {
    NextIsFree(p);
  }

  lemma BeginKeepsHolds(s: State)
    requires Invariant(s) && Enabled(s, Begin)
    ensures Invariant(Apply(s, Begin))
  {
    var s' := Apply(s, Begin);
    NextIsFree(s.pool);
    BeginKeepsInvariant(s.pool);
    BeginExtendsHolds(s, s', Next(s.pool));
  }

  lemma BeginExtendsHolds(s: State, s': State, next: nat)
    requires Invariant(s) && PoolInvariant(s'.pool) && !Exhausted(s.pool) && next == Next(s.pool)
    requires s'.pool == Begun(s.pool) && s'.begun == s.begun + 1 && s'.holds == s.holds[s.begun := next] && !IsInUse(s.pool, next)
    ensures Invariant(s')
  {
    forall a: nat
      ensures IsInUse(s'.pool, a) <==> IsInUse(s.pool, a) || a == next
    {
      BeginTakesNext(s.pool, a);
    }
    HoldsExtend(s, s', next);
  }

  lemma HoldsExtend(s: State, s': State, next: nat)
    requires Invariant(s) && PoolInvariant(s'.pool) && !IsInUse(s.pool, next)
    requires s'.begun == s.begun + 1 && s'.holds == s.holds[s.begun := next]
    requires forall a: nat :: IsInUse(s'.pool, a) <==> IsInUse(s.pool, a) || a == next
    ensures Invariant(s')
  {
    assert s.begun in s'.holds && s'.holds[s.begun] == next;
    forall a: nat | IsInUse(s'.pool, a)
      ensures exists e :: e in s'.holds && s'.holds[e] == a
    {
      if a != next {
        assert IsInUse(s.pool, a);
        var e :| e in s.holds && s.holds[e] == a;
        assert e in s'.holds && s'.holds[e] == a;
      }
    }
  }

  lemma CompleteKeepsHolds(s: State, e: nat)
    requires Invariant(s) && Enabled(s, Complete(e))
    ensures Invariant(Apply(s, Complete(e)))
  {
    var s' := Apply(s, Complete(e));
    FinishKeepsInvariant(s.pool, s.holds[e], true);
    forall a: nat | IsInUse(s'.pool, a)
      ensures exists f :: f in s'.holds && s'.holds[f] == a
    {
      assert IsInUse(s.pool, a);
      var f :| f in s.holds && s.holds[f] == a;
      assert f in s'.holds && s'.holds[f] == a;
    }
  }

  lemma PauseKeepsHolds(s: State, step: Step)
    requires Invariant(s) && Enabled(s, step) && (step.Suspend? || step.Resume?)
    ensures Invariant(Apply(s, step))
  {
    var s' := Apply(s, step);
    assert s'.pool.occupied == s.pool.occupied;
    forall a: nat
      ensures IsInUse(s'.pool, a) <==> IsInUse(s.pool, a)
    {
    }
  }

  lemma {:induction false} RunKeepsInvariant(states: seq<State>, steps: seq<Step>, i: nat)
    requires IsRun(states, steps) && i < |states|
    ensures Invariant(states[i])
  {
    if i > 0 {
      RunKeepsInvariant(states, steps, i - 1);
      assert states[i - 1 + 1] == Apply(states[i - 1], steps[i - 1]);
      match steps[i - 1]
      case Begin => BeginKeepsHolds(states[i - 1]);
      case Complete(e) => CompleteKeepsHolds(states[i - 1], e);
      case _ => PauseKeepsHolds(states[i - 1], steps[i - 1]);
    }
  }

  /**
   * In every run of begins, suspensions, resumptions and completions, a new
   * execution gets an activation that no execution in progress holds, and no more
   * than the capacity are ever in use.
   */
  lemma ActivationsAreNeverShared(states: seq<State>, steps: seq<Step>, i: nat)
    requires IsRun(states, steps) && i < |steps| && steps[i] == Begin
    ensures forall e | e in states[i].holds :: states[i].holds[e] != states[i + 1].holds[states[i].begun]
    ensures states[i].begun !in states[i].holds && states[i].begun in states[i + 1].holds
    ensures |InUse(states[i + 1].pool)| <= |states[i].pool.occupied|
  {
    RunKeepsInvariant(states, steps, i);
    RunKeepsInvariant(states, steps, i + 1);
    NextIsFree(states[i].pool);
    ActivationsArePartitioned(states[i + 1].pool);
  }

  // ---------------------------------------------------------------------
  // What each execution may do next

  /** How many executions these steps begin. */
  function Begins(steps: seq<Step>): nat {
    if steps == [] then 0 else Begins(steps[..|steps| - 1]) + (if steps[|steps| - 1].Begin? then 1 else 0)
  }

  /** The steps begin the execution and do not complete it. */
  predicate InProgress(steps: seq<Step>, e: nat) {
    e < Begins(steps) && Complete(e) !in steps
  }

  /** The last suspension or resumption of the execution in these steps is a suspension. */
  predicate IsSuspended(steps: seq<Step>, e: nat) {
    if steps == [] then false
    else
      match steps[|steps| - 1]
      case Suspend(f) => f == e || IsSuspended(steps[..|steps| - 1], e)
      case Resume(f) => f != e && IsSuspended(steps[..|steps| - 1], e)
      case _ => IsSuspended(steps[..|steps| - 1], e)
  }

  /** Those in progress hold an activation, which runs unless they are suspended; nothing has happened to later ones. */
  predicate Stands(s: State, steps: seq<Step>, e: nat) {
    && (e in s.holds <==> InProgress(steps, e))
    && (e in s.holds ==> s.holds[e] < |s.pool.running| && (s.pool.running[s.holds[e]] <==> !IsSuspended(steps, e)))
    && (e >= s.begun ==> Complete(e) !in steps && !IsSuspended(steps, e))
  }

  lemma StepStands(s: State, steps: seq<Step>, step: Step, s': State, steps': seq<Step>, e: nat)
    requires Invariant(s) && s.begun == Begins(steps) && Stands(s, steps, e)
    requires Enabled(s, step) && s' == Apply(s, step) && steps' == steps + [step]
    ensures Stands(s', steps', e)
  {
    assert steps'[..|steps|] == steps;
    if step.Begin? {
      NextIsFree(s.pool);
    }
  }

  lemma BeginCounts(s: State, steps: seq<Step>, step: Step, steps': seq<Step>)
    requires Enabled(s, step) && s.begun == Begins(steps) && steps' == steps + [step]
    ensures Apply(s, step).begun == Begins(steps')
  {
    assert steps'[..|steps|] == steps;
  }

  lemma RunStep(states: seq<State>, steps: seq<Step>, i: nat, next: nat)
    requires IsRun(states, steps) && i < |steps| && next == i + 1
    ensures Invariant(states[i]) && Enabled(states[i], steps[i]) && states[next] == Apply(states[i], steps[i])
    ensures steps[..next] == steps[..i] + [steps[i]]
  {
    RunKeepsInvariant(states, steps, i);
  }

  lemma NextStands(s: State, steps: seq<Step>, step: Step, s': State, steps': seq<Step>, e: nat)
    requires Invariant(s) && Enabled(s, step) && s' == Apply(s, step) && steps' == steps + [step]
    requires s.begun == Begins(steps) && Stands(s, steps, e)
    ensures s'.begun == Begins(steps') && Stands(s', steps', e)
  {
    BeginCounts(s, steps, step, steps');
    StepStands(s, steps, step, s', steps', e);
  }

  lemma {:induction false} RunStands(states: seq<State>, steps: seq<Step>, i: nat, e: nat)
    requires IsRun(states, steps) && i < |states|
    ensures states[i].begun == Begins(steps[..i]) && Stands(states[i], steps[..i], e)
  {
    if i > 0 {
      RunStands(states, steps, i - 1, e);
      RunStep(states, steps, i - 1, i);
      NextStands(states[i - 1], steps[..i - 1], steps[i - 1], states[i], steps[..i], e);
    }
  }

  /**
   * In every run, told from the steps alone: an execution can be resumed exactly while
   * it is in progress and suspended, suspended or completed exactly while it is in
   * progress and not suspended, and begun exactly while some activation is not in use.
   */
  lemma WhatMayHappen(states: seq<State>, steps: seq<Step>, i: nat, e: nat)
    requires IsRun(states, steps) && i < |states|
    ensures Enabled(states[i], Resume(e)) <==> InProgress(steps[..i], e) && IsSuspended(steps[..i], e)
    ensures Enabled(states[i], Suspend(e)) <==> InProgress(steps[..i], e) && !IsSuspended(steps[..i], e)
    ensures Enabled(states[i], Complete(e)) <==> InProgress(steps[..i], e) && !IsSuspended(steps[..i], e)
    ensures Enabled(states[i], Begin) <==> exists a: nat | a < |states[i].pool.occupied| :: !IsInUse(states[i].pool, a)
  {
    RunStands(states, steps, i, e);
    RunKeepsInvariant(states, steps, i);
    if !Exhausted(states[i].pool) {
      NextIsFree(states[i].pool);
    }
  }

  // ---------------------------------------------------------------------
  // The pool as the runtime keeps it

  class ActivationTables {
    var blockCount: nat
    const freeActivations: array<nat>
    var freeCount: nat
    const occupied: array<bool>
    const running: array<bool>
    const sequences: array<nat>
    var nextActivation: nat

    ghost function View(): Pool
      reads this, freeActivations, occupied, running
      requires freeCount <= freeActivations.Length
    {
      Pool(blockCount, freeActivations[..freeCount], occupied[..], running[..])
    }

    ghost predicate Valid()
      reads this, freeActivations, occupied, running
    {
      && freeCount <= freeActivations.Length
      && freeActivations.Length == occupied.Length == running.Length == sequences.Length
      && freeActivations != sequences && occupied != running
      && PoolInvariant(View())
    }

    constructor (capacity: nat)
      ensures Valid() && View().blockCount == 0 && occupied.Length == capacity && nextActivation == 0
      ensures fresh(freeActivations) && fresh(occupied) && fresh(running) && fresh(sequences)
    {
      blockCount, freeCount, nextActivation := 0, 0, 0;
      freeActivations := new nat[capacity](_ => 0);
      occupied := new bool[capacity](_ => false);
      running := new bool[capacity](_ => false);
      sequences := new nat[capacity](_ => 0);
    }

    /** Allocates the next block; an error once the capacity is reached. */
    method AllocateActivation() returns (r: Result<()>)
      requires Valid() && freeCount == 0
      modifies this, freeActivations
      ensures Valid() && nextActivation == old(nextActivation)
      ensures r.Success? <==> old(blockCount) < occupied.Length
      ensures View() == if r.Success? then Grown(old(View())) else old(View())
    {
      if blockCount >= occupied.Length {
        return Failure("activation pool capacity exhausted");
      }
      freeActivations[freeCount] := blockCount;
      blockCount := blockCount + 1;
      freeCount := freeCount + 1;
      assert freeActivations[..freeCount] == [blockCount - 1];
      return Success(());
    }

    /** Takes the activation on top of the free stack and gives it the next sequence number. */
    method Take() returns (activation: nat)
      requires Valid() && freeCount > 0
      modifies this, freeActivations, occupied, running, sequences
      ensures Valid() && activation == old(Next(View())) && View() == Begun(old(View()))
      ensures activation < sequences.Length && sequences[..] == old(sequences[..])[activation := old(nextActivation)]
      ensures nextActivation == old(nextActivation) + 1
    {
      BeginKeepsInvariant(View());
      freeCount := freeCount - 1;
      activation := freeActivations[freeCount];
      occupied[activation] := true;
      running[activation] := true;
      sequences[activation] := nextActivation;
      nextActivation := nextActivation + 1;
      assert View() == Begun(old(View()));
    }

    /** Hands out a free activation and the next sequence number; None means the caller waits. */
    method BeginExecution() returns (a: Option<nat>)
      requires Valid()
      modifies this, freeActivations, occupied, running, sequences
      ensures Valid()
      ensures a.None? <==> old(Exhausted(View()))
      ensures a.None? ==> View() == old(View()) && nextActivation == old(nextActivation)
      ensures a.Some? ==> a.value == old(Next(View())) && View() == Begun(old(View()))
      ensures a.None? ==> sequences[..] == old(sequences[..])
      ensures a.Some? ==> a.value < sequences.Length && sequences[..] == old(sequences[..])[a.value := old(nextActivation)]
      ensures a.Some? ==> nextActivation == old(nextActivation) + 1
    {
      if freeCount == 0 {
        if blockCount >= occupied.Length {
          return None;
        }
        var grown := AllocateActivation();
      }
      var activation := Take();
      return Some(activation);
    }

    method ResumeExecution(a: nat) returns (r: Result<()>)
      requires Valid()
      modifies running
      ensures Valid()
      ensures r.Success? <==> old(CanResume(View(), a))
      ensures View() == if r.Success? then Resumed(old(View()), a) else old(View())
    {
      if a >= occupied.Length || !occupied[a] || running[a] {
        return Failure("activation cannot be resumed");
      }
      running[a] := true;
      return Success(());
    }

    method FinishExecution(a: nat, complete: bool)
      requires Valid() && IsInUse(View(), a)
      modifies this, freeActivations, occupied, running
      ensures Valid() && View() == Finished(old(View()), a, complete) && nextActivation == old(nextActivation)
    {
      FinishKeepsInvariant(View(), a, complete);
      if complete {
        FreeFits(View());
        occupied[a] := false;
        freeActivations[freeCount] := a;
        freeCount := freeCount + 1;
      }
      running[a] := false;
      assert View() == Finished(old(View()), a, complete);
    }
  }

  /** While something is in use, the free stack has room. */
  lemma FreeFits(p: Pool)
    requires PoolInvariant(p)
    ensures (exists a: nat :: IsInUse(p, a)) ==> |p.free| < |p.occupied|
  {
    ActivationsArePartitioned(p);
    if a: nat :| IsInUse(p, a) {
      assert a in InUse(p);
    }
  }
}
