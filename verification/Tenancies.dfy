/**
 * The tenancies of physical slots: who takes a slot, which jobs use it last, and
 * the job that releases it. The submitting thread derives the dependencies of each
 * new tenant from the frontiers alone.
 */
module Tenancies {
  import opened Wrappers
  import opened Graphs
  import opened PhysicalStorage
  import PhysicalPlan

  type Dependencies = map<JobId, set<JobId>>

  /** `users` are the frontier jobs submitted so far, in order. */
  datatype Tenancy = Tenancy(slot: nat, acquire: JobId, users: seq<JobId>, release: Option<JobId>)

  /** `begun` lists the jobs, releases among them, in the order in which they were begun. */
  datatype State = State(frontiers: Frontiers, dependencies: Dependencies, tenancies: seq<Tenancy>, begun: seq<JobId>)

  function Members(jobs: seq<JobId>): set<JobId> {
    set job | job in jobs
  }

  // ---------------------------------------------------------------------
  // Transitive dependencies

  ghost predicate FollowsWithin(d: Dependencies, a: JobId, b: JobId, n: nat)
    decreases n
  {
    a in d && (b in d[a] || (n > 0 && exists c :: c in d[a] && FollowsWithin(d, c, b, n - 1)))
  }

  /** Job `a` depends on job `b`, directly or through other jobs. */
  ghost predicate Follows(d: Dependencies, a: JobId, b: JobId) {
    exists n: nat :: FollowsWithin(d, a, b, n)
  }

  lemma FollowsDirectly(d: Dependencies, a: JobId, b: JobId)
    requires a in d && b in d[a]
    ensures Follows(d, a, b)
  {
    assert FollowsWithin(d, a, b, 0);
  }

  lemma FollowsThrough(d: Dependencies, a: JobId, c: JobId, b: JobId)
    requires a in d && c in d[a] && Follows(d, c, b)
    ensures Follows(d, a, b)
  {
    var n: nat :| FollowsWithin(d, c, b, n);
    assert FollowsWithin(d, a, b, n + 1);
  }

  lemma {:induction false} FollowsTransitive(d: Dependencies, a: JobId, b: JobId, c: JobId, n: nat)
    requires FollowsWithin(d, a, b, n) && Follows(d, b, c)
    ensures Follows(d, a, c)
    decreases n
  {
    if b in d[a] {
      FollowsThrough(d, a, b, c);
    } else {
      var x :| x in d[a] && FollowsWithin(d, x, b, n - 1);
      FollowsTransitive(d, x, b, c, n - 1);
      FollowsThrough(d, a, x, c);
    }
  }

  /** Dependencies are only ever added. */
  ghost predicate Extends(d: Dependencies, e: Dependencies) {
    forall a | a in d :: a in e && d[a] <= e[a]
  }

  lemma {:induction false} FollowsWithinExtends(d: Dependencies, e: Dependencies, a: JobId, b: JobId, n: nat)
    requires Extends(d, e) && FollowsWithin(d, a, b, n)
    ensures FollowsWithin(e, a, b, n)
    decreases n
  {
    if b !in d[a] {
      var c :| c in d[a] && FollowsWithin(d, c, b, n - 1);
      FollowsWithinExtends(d, e, c, b, n - 1);
    }
  }

  lemma FollowsExtends(d: Dependencies, e: Dependencies, a: JobId, b: JobId)
    requires Extends(d, e) && Follows(d, a, b)
    ensures Follows(e, a, b)
  {
    var n: nat :| FollowsWithin(d, a, b, n);
    FollowsWithinExtends(d, e, a, b, n);
  }

  // ---------------------------------------------------------------------
  // Steps of the submitting thread

  datatype Step =
    | Begin(job: JobId, planned: set<JobId>)
    | Acquire(job: JobId, slot: nat)
    | Use(job: JobId, tenancy: nat)
    | Release(job: JobId, tenancy: nat)

  /** The tenancy is the latest of its slot. */
  predicate IsLatest(s: State, t: nat) {
    t < |s.tenancies| && forall u | t < u < |s.tenancies| :: s.tenancies[u].slot != s.tenancies[t].slot
  }

  /**
   * When the steps happen: a job takes slots after it was begun; a frontier job of
   * a tenancy is submitted before the slot has a new tenant, and runs after the
   * acquisition; the release waits for the frontier jobs, all submitted.
   */
  ghost predicate Enabled(s: State, step: Step) {
    match step
    case Begin(job, planned) => job !in s.dependencies
    case Acquire(job, p) => job in s.dependencies && p < |s.frontiers|
    case Use(job, t) =>
      && IsLatest(s, t) && s.tenancies[t].release.None? && s.tenancies[t].slot < |s.frontiers|
      && (job == s.tenancies[t].acquire || Follows(s.dependencies, job, s.tenancies[t].acquire))
    case Release(job, t) =>
      && IsLatest(s, t) && s.tenancies[t].release.None? && s.tenancies[t].slot < |s.frontiers|
      && s.tenancies[t].users != [] && job !in s.dependencies
  }

  /** The first frontier job of a tenancy finds the frontier emptied. */
  function Started(s: State, t: nat): Frontiers
    requires t < |s.tenancies| && s.tenancies[t].slot < |s.frontiers|
  {
    if s.tenancies[t].users == [] then Cleared(s.frontiers, s.tenancies[t].slot) else s.frontiers
  }

  function Apply(s: State, step: Step): State
    requires step.Acquire? ==> step.job in s.dependencies && step.slot < |s.frontiers|
    requires step.Use? || step.Release? ==> step.tenancy < |s.tenancies| && s.tenancies[step.tenancy].slot < |s.frontiers|
  {
    match step
    case Begin(job, planned) => s.(dependencies := s.dependencies[job := planned], begun := s.begun + [job])
    case Acquire(job, p) =>
      s.(dependencies := s.dependencies[job := s.dependencies[job] + Members(s.frontiers[p])],
         frontiers := Replaced(s.frontiers, p, job),
         tenancies := s.tenancies + [Tenancy(p, job, [], None)])
    case Use(job, t) =>
      var tenancy := s.tenancies[t];
      s.(frontiers := Appended(Started(s, t), tenancy.slot, job),
         tenancies := s.tenancies[t := tenancy.(users := tenancy.users + [job])])
    case Release(job, t) =>
      var tenancy := s.tenancies[t];
      s.(dependencies := s.dependencies[job := Members(tenancy.users)],
         begun := s.begun + [job],
         frontiers := Replaced(s.frontiers, tenancy.slot, job),
         tenancies := s.tenancies[t := tenancy.(release := Some(job))])
  }

  ghost predicate IsRun(states: seq<State>, steps: seq<Step>) {
    && |states| == |steps| + 1
    && states[0].dependencies == map[] && states[0].tenancies == [] && states[0].begun == []
    && (forall p | 0 <= p < |states[0].frontiers| :: states[0].frontiers[p] == [])
    && forall i | 0 <= i < |steps| :: Enabled(states[i], steps[i]) && states[i + 1] == Apply(states[i], steps[i])
  }

  // ---------------------------------------------------------------------
  // The invariant

  /** Whom the next tenant of the slot waits for. */
  function LastJobs(t: Tenancy): set<JobId> {
    match t.release
    case Some(job) => {job}
    case None => if t.users == [] then {t.acquire} else Members(t.users)
  }

  function JobsOf(t: Tenancy): set<JobId> {
    {t.acquire} + Members(t.users) + (if t.release.Some? then {t.release.value} else {})
  }

  /** A tenancy starts with its acquisition and ends with its release. */
  ghost predicate TenancyOrdered(d: Dependencies, t: Tenancy) {
    && t.acquire in d
    && (forall job | job in t.users :: job == t.acquire || Follows(d, job, t.acquire))
    && (t.release.Some? ==> t.users != [] && t.release.value in d && Members(t.users) <= d[t.release.value])
  }

  /** The frontier of a slot holds, as a set, the last jobs of its latest tenancy. */
  ghost predicate FrontierHolds(s: State, p: nat)
    requires p < |s.frontiers|
  {
    && NoDuplicates(s.frontiers[p])
    && (forall t: nat | IsLatest(s, t) && s.tenancies[t].slot == p :: Members(s.frontiers[p]) == LastJobs(s.tenancies[t]))
  }

  /** A tenancy and the next one of the same slot. */
  predicate Consecutive(s: State, t: nat, u: nat) {
    && t < u < |s.tenancies| && s.tenancies[t].slot == s.tenancies[u].slot
    && forall v | t < v < u :: s.tenancies[v].slot != s.tenancies[u].slot
  }

  ghost predicate Invariant(s: State) {
    && (forall p: nat | p < |s.frontiers| :: FrontierHolds(s, p))
    && (forall t: nat | t < |s.tenancies| :: s.tenancies[t].slot < |s.frontiers| && TenancyOrdered(s.dependencies, s.tenancies[t]))
    && (forall t: nat, u: nat | Consecutive(s, t, u) ::
          s.tenancies[u].acquire in s.dependencies && LastJobs(s.tenancies[t]) <= s.dependencies[s.tenancies[u].acquire])
  }

  lemma TenancyStaysOrdered(d: Dependencies, e: Dependencies, t: Tenancy)
    requires Extends(d, e) && TenancyOrdered(d, t)
    ensures TenancyOrdered(e, t)
  {
    forall job | job in t.users && job != t.acquire
      ensures Follows(e, job, t.acquire)
    {
      FollowsExtends(d, e, job, t.acquire);
    }
  }

  lemma BeginKeepsInvariant(s: State, job: JobId, planned: set<JobId>)
    requires Invariant(s) && job !in s.dependencies
    ensures Invariant(Apply(s, Begin(job, planned)))
  {
    var s' := Apply(s, Begin(job, planned));
    forall t: nat | t < |s'.tenancies|
      ensures TenancyOrdered(s'.dependencies, s'.tenancies[t])
    {
      TenancyStaysOrdered(s.dependencies, s'.dependencies, s.tenancies[t]);
    }
    forall p: nat | p < |s'.frontiers|
      ensures FrontierHolds(s', p)
    {
      assert FrontierHolds(s, p);
      assert forall t: nat :: IsLatest(s', t) <==> IsLatest(s, t);
    }
    forall t: nat, u: nat | Consecutive(s', t, u)
      ensures s'.tenancies[u].acquire in s'.dependencies && LastJobs(s'.tenancies[t]) <= s'.dependencies[s'.tenancies[u].acquire]
    {
      assert Consecutive(s, t, u);
    }
  }

  lemma AcquireKeepsTenancies(s: State, job: JobId, p: nat, t: nat)
    requires Invariant(s) && job in s.dependencies && p < |s.frontiers|
    requires t <= |s.tenancies|
    ensures var s' := Apply(s, Acquire(job, p));
      s'.tenancies[t].slot < |s'.frontiers| && TenancyOrdered(s'.dependencies, s'.tenancies[t])
  {
    var s' := Apply(s, Acquire(job, p));
    if t < |s.tenancies| {
      assert Extends(s.dependencies, s'.dependencies);
      TenancyStaysOrdered(s.dependencies, s'.dependencies, s.tenancies[t]);
    }
  }

  lemma AcquireKeepsFrontiers(s: State, job: JobId, p: nat, q: nat)
    requires job in s.dependencies && p < |s.frontiers| && q < |s.frontiers| && FrontierHolds(s, q)
    ensures FrontierHolds(Apply(s, Acquire(job, p)), q)
  {
    var s' := Apply(s, Acquire(job, p));
    forall t: nat | IsLatest(s', t) && s'.tenancies[t].slot == q
      ensures Members(s'.frontiers[q]) == LastJobs(s'.tenancies[t])
    {
      if t < |s.tenancies| {
        assert s'.tenancies[|s.tenancies|].slot != q;
        assert forall u | t < u < |s.tenancies| :: s'.tenancies[u] == s.tenancies[u];
        assert IsLatest(s, t);
      }
    }
  }

  lemma AcquireWaitsForFrontier(s: State, job: JobId, p: nat, t: nat, u: nat)
    requires Invariant(s) && job in s.dependencies && p < |s.frontiers|
    requires Consecutive(Apply(s, Acquire(job, p)), t, u)
    ensures var s' := Apply(s, Acquire(job, p));
      s'.tenancies[u].acquire in s'.dependencies && LastJobs(s'.tenancies[t]) <= s'.dependencies[s'.tenancies[u].acquire]
  {
    var s' := Apply(s, Acquire(job, p));
    assert forall v | 0 <= v < |s.tenancies| :: s'.tenancies[v] == s.tenancies[v];
    if u < |s.tenancies| {
      assert Consecutive(s, t, u);
    } else {
      assert FrontierHolds(s, p);
      assert IsLatest(s, t);
    }
  }

  lemma AcquireKeepsInvariant(s: State, job: JobId, p: nat)
    requires Invariant(s) && job in s.dependencies && p < |s.frontiers|
    ensures Invariant(Apply(s, Acquire(job, p)))
  {
    var s' := Apply(s, Acquire(job, p));
    forall t: nat | t < |s'.tenancies|
      ensures s'.tenancies[t].slot < |s'.frontiers| && TenancyOrdered(s'.dependencies, s'.tenancies[t])
    {
      AcquireKeepsTenancies(s, job, p, t);
    }
    forall q: nat | q < |s'.frontiers|
      ensures FrontierHolds(s', q)
    {
      AcquireKeepsFrontiers(s, job, p, q);
    }
    forall t: nat, u: nat | Consecutive(s', t, u)
      ensures s'.tenancies[u].acquire in s'.dependencies && LastJobs(s'.tenancies[t]) <= s'.dependencies[s'.tenancies[u].acquire]
    {
      AcquireWaitsForFrontier(s, job, p, t, u);
    }
  }

  /** What a step on the latest tenancy of a slot leaves as it was. */
  ghost predicate ChangesLatest(s: State, s': State, t: nat) {
    && IsLatest(s, t) && |s'.tenancies| == |s.tenancies| && |s'.frontiers| == |s.frontiers|
    && (forall u: nat | u < |s.tenancies| && u != t :: s'.tenancies[u] == s.tenancies[u])
    && s'.tenancies[t].slot == s.tenancies[t].slot && s'.tenancies[t].acquire == s.tenancies[t].acquire
    && Extends(s.dependencies, s'.dependencies)
    && (forall p: nat | p < |s.frontiers| && p != s.tenancies[t].slot :: s'.frontiers[p] == s.frontiers[p])
  }

  lemma ChangeKeepsLatest(s: State, s': State, t: nat, u: nat)
    requires ChangesLatest(s, s', t)
    ensures IsLatest(s', u) <==> IsLatest(s, u)
  {
    assert forall v: nat | v < |s.tenancies| :: s'.tenancies[v].slot == s.tenancies[v].slot;
  }

  lemma ChangeKeepsConsecutive(s: State, s': State, t: nat, u: nat, v: nat)
    requires Invariant(s) && ChangesLatest(s, s', t) && Consecutive(s', u, v)
    ensures s'.tenancies[v].acquire in s'.dependencies && LastJobs(s'.tenancies[u]) <= s'.dependencies[s'.tenancies[v].acquire]
  {
    assert forall x: nat | x < |s.tenancies| :: s'.tenancies[x].slot == s.tenancies[x].slot;
    assert Consecutive(s, u, v);
    assert u != t;
  }

  /** A step on the latest tenancy keeps the invariant if it keeps the tenancy and its frontier right. */
  lemma ChangeKeepsInvariant(s: State, s': State, t: nat)
    requires Invariant(s) && ChangesLatest(s, s', t) && s.tenancies[t].slot < |s.frontiers|
    requires TenancyOrdered(s'.dependencies, s'.tenancies[t])
    requires NoDuplicates(s'.frontiers[s.tenancies[t].slot])
    requires Members(s'.frontiers[s.tenancies[t].slot]) == LastJobs(s'.tenancies[t])
    ensures Invariant(s')
  {
    forall u: nat | u < |s'.tenancies|
      ensures s'.tenancies[u].slot < |s'.frontiers| && TenancyOrdered(s'.dependencies, s'.tenancies[u])
    {
      if u != t {
        TenancyStaysOrdered(s.dependencies, s'.dependencies, s.tenancies[u]);
      }
    }
    forall p: nat | p < |s'.frontiers|
      ensures FrontierHolds(s', p)
    {
      ChangeKeepsFrontier(s, s', t, p);
    }
    forall u: nat, v: nat | Consecutive(s', u, v)
      ensures s'.tenancies[v].acquire in s'.dependencies && LastJobs(s'.tenancies[u]) <= s'.dependencies[s'.tenancies[v].acquire]
    {
      ChangeKeepsConsecutive(s, s', t, u, v);
    }
  }

  lemma ChangeKeepsFrontier(s: State, s': State, t: nat, p: nat)
    requires ChangesLatest(s, s', t) && s.tenancies[t].slot < |s.frontiers|
    requires p < |s.frontiers| && FrontierHolds(s, p)
    requires NoDuplicates(s'.frontiers[s.tenancies[t].slot])
    requires Members(s'.frontiers[s.tenancies[t].slot]) == LastJobs(s'.tenancies[t])
    ensures FrontierHolds(s', p)
  {
    forall u: nat | IsLatest(s', u) && s'.tenancies[u].slot == p
      ensures Members(s'.frontiers[p]) == LastJobs(s'.tenancies[u])
    {
      ChangeKeepsLatest(s, s', t, u);
      if u < t {
        assert s.tenancies[t].slot != p;
      } else if u > t {
        assert s.tenancies[u].slot != s.tenancies[t].slot;
      }
    }
  }

  lemma UseKeepsFrontier(s: State, job: JobId, t: nat)
    requires Enabled(s, Use(job, t)) && FrontierHolds(s, s.tenancies[t].slot)
    ensures var s' := Apply(s, Use(job, t));
      && NoDuplicates(s'.frontiers[s.tenancies[t].slot])
      && Members(s'.frontiers[s.tenancies[t].slot]) == LastJobs(s'.tenancies[t])
  {
    var s' := Apply(s, Use(job, t));
    var p := s.tenancies[t].slot;
    assert Members(s.frontiers[p]) == LastJobs(s.tenancies[t]);
    assert Members(s.tenancies[t].users + [job]) == Members(s.tenancies[t].users) + {job};
    assert Members(s.frontiers[p] + [job]) == Members(s.frontiers[p]) + {job};
    assert job in s.frontiers[p] <==> job in Members(s.frontiers[p]);
    assert Members([] + [job]) == {job};
  }

  lemma UseKeepsInvariant(s: State, job: JobId, t: nat)
    requires Invariant(s) && Enabled(s, Use(job, t))
    ensures Invariant(Apply(s, Use(job, t)))
  {
    assert FrontierHolds(s, s.tenancies[t].slot);
    UseKeepsFrontier(s, job, t);
    assert TenancyOrdered(s.dependencies, s.tenancies[t]);
    ChangeKeepsInvariant(s, Apply(s, Use(job, t)), t);
  }

  lemma ReleaseKeepsInvariant(s: State, job: JobId, t: nat)
    requires Invariant(s) && Enabled(s, Release(job, t))
    ensures Invariant(Apply(s, Release(job, t)))
  {
    var s' := Apply(s, Release(job, t));
    assert Extends(s.dependencies, s'.dependencies);
    assert TenancyOrdered(s.dependencies, s.tenancies[t]);
    TenancyStaysOrdered(s.dependencies, s'.dependencies, s.tenancies[t]);
    assert Members([job]) == {job};
    ChangeKeepsInvariant(s, s', t);
  }

  lemma {:induction false} RunKeepsInvariant(states: seq<State>, steps: seq<Step>, i: nat)
    requires IsRun(states, steps) && i < |states|
    ensures Invariant(states[i])
  {
    if i > 0 {
      RunKeepsInvariant(states, steps, i - 1);
      assert Enabled(states[i - 1], steps[i - 1]) && states[i - 1 + 1] == Apply(states[i - 1], steps[i - 1]);
      match steps[i - 1]
      case Begin(job, planned) => BeginKeepsInvariant(states[i - 1], job, planned);
      case Acquire(job, p) => AcquireKeepsInvariant(states[i - 1], job, p);
      case Use(job, t) => UseKeepsInvariant(states[i - 1], job, t);
      case Release(job, t) => ReleaseKeepsInvariant(states[i - 1], job, t);
    }
  }

  // ---------------------------------------------------------------------
  // Tenancies are totally ordered

  /** The next tenant of a slot waits for every job of the tenancy before it. */
  lemma NextTenantWaits(s: State, t: nat, u: nat, job: JobId)
    requires Invariant(s) && Consecutive(s, t, u) && job in JobsOf(s.tenancies[t])
    ensures Follows(s.dependencies, s.tenancies[u].acquire, job)
  {
    var d := s.dependencies;
    var tenancy := s.tenancies[t];
    var next := s.tenancies[u].acquire;
    assert TenancyOrdered(d, tenancy);
    assert LastJobs(tenancy) <= d[next];
    if job in LastJobs(tenancy) {
      FollowsDirectly(d, next, job);
    } else {
      var user := if job in tenancy.users then job else tenancy.users[0];
      LastUserPrecedes(d, tenancy, next, user);
      if user != job {
        var n: nat :| FollowsWithin(d, next, user, n);
        if user != tenancy.acquire {
          FollowsTransitive(d, next, user, job, n);
        }
      }
    }
  }

  lemma LastUserPrecedes(d: Dependencies, t: Tenancy, next: JobId, user: JobId)
    requires TenancyOrdered(d, t) && next in d && LastJobs(t) <= d[next] && user in t.users
    ensures Follows(d, next, user)
  {
    if t.release.Some? {
      FollowsDirectly(d, t.release.value, user);
      FollowsThrough(d, next, t.release.value, user);
    } else {
      FollowsDirectly(d, next, user);
    }
  }

  /**
   * A new tenant of a physical slot depends, directly or through other jobs, on
   * the acquisition, every last user and the release of every earlier tenant.
   */
  lemma {:induction false} TenanciesAreOrdered(states: seq<State>, steps: seq<Step>, i: nat, t: nat, u: nat, job: JobId)
    requires IsRun(states, steps) && i < |states|
    requires t < u < |states[i].tenancies| && states[i].tenancies[t].slot == states[i].tenancies[u].slot
    requires var tenancy := states[i].tenancies[t]; job == tenancy.acquire || job in tenancy.users || tenancy.release == Some(job)
    ensures Follows(states[i].dependencies, states[i].tenancies[u].acquire, job)
    decreases u - t
  {
    var s := states[i];
    RunKeepsInvariant(states, steps, i);
    if v: nat :| t < v < u && s.tenancies[v].slot == s.tenancies[u].slot {
      TenanciesAreOrdered(states, steps, i, t, v, job);
      TenanciesAreOrdered(states, steps, i, v, u, s.tenancies[v].acquire);
      var n: nat :| FollowsWithin(s.dependencies, s.tenancies[u].acquire, s.tenancies[v].acquire, n);
      FollowsTransitive(s.dependencies, s.tenancies[u].acquire, s.tenancies[v].acquire, job, n);
    } else {
      NextTenantWaits(s, t, u, job);
    }
  }

  /** An order in which every job that runs waits for the jobs it depends on. */
  ghost predicate RespectsDependencies(d: Dependencies, order: seq<JobId>) {
    && NoDuplicates(order)
    && forall a, b | a in order && a in d && b in d[a] :: Before(order, b, a)
  }

  lemma {:induction false} FollowersRunLater(d: Dependencies, order: seq<JobId>, a: JobId, b: JobId, n: nat)
    requires RespectsDependencies(d, order) && a in order && FollowsWithin(d, a, b, n)
    ensures Before(order, b, a)
    decreases n
  {
    if b !in d[a] {
      var c :| c in d[a] && FollowsWithin(d, c, b, n - 1);
      assert Before(order, c, a);
      FollowersRunLater(d, order, c, b, n - 1);
      BeforeTransitive(order, b, c, a);
    }
  }

  /** However the workers schedule the jobs, a slot is taken only after its earlier tenants are gone. */
  lemma TenanciesNeverOverlap(states: seq<State>, steps: seq<Step>, i: nat, t: nat, u: nat, job: JobId, order: seq<JobId>)
    requires IsRun(states, steps) && i < |states| && RespectsDependencies(states[i].dependencies, order)
    requires t < u < |states[i].tenancies| && states[i].tenancies[t].slot == states[i].tenancies[u].slot
    requires var tenancy := states[i].tenancies[t]; job == tenancy.acquire || job in tenancy.users || tenancy.release == Some(job)
    requires states[i].tenancies[u].acquire in order
    ensures Before(order, job, states[i].tenancies[u].acquire)
  {
    var d := states[i].dependencies;
    TenanciesAreOrdered(states, steps, i, t, u, job);
    var n: nat :| FollowsWithin(d, states[i].tenancies[u].acquire, job, n);
    FollowersRunLater(d, order, states[i].tenancies[u].acquire, job, n);
  }

  /** And a tenancy begins with its acquisition and ends with its release, if it is released. */
  lemma TenancyRunsInOrder(states: seq<State>, steps: seq<Step>, i: nat, t: nat, user: JobId, order: seq<JobId>)
    requires IsRun(states, steps) && i < |states| && RespectsDependencies(states[i].dependencies, order)
    requires t < |states[i].tenancies| && user in states[i].tenancies[t].users && user in order
    ensures user == states[i].tenancies[t].acquire || Before(order, states[i].tenancies[t].acquire, user)
    ensures states[i].tenancies[t].release.Some? && states[i].tenancies[t].release.value in order ==>
      Before(order, user, states[i].tenancies[t].release.value)
  {
    var d := states[i].dependencies;
    var tenancy := states[i].tenancies[t];
    RunKeepsInvariant(states, steps, i);
    assert TenancyOrdered(d, tenancy);
    if user != tenancy.acquire {
      var n: nat :| FollowsWithin(d, user, tenancy.acquire, n);
      FollowersRunLater(d, order, user, tenancy.acquire, n);
    }
    if tenancy.release.Some? {
      assert user in Members(tenancy.users);
    }
  }

  /** The latest tenancy of a slot can be released once it has a frontier job, and not twice; the release is then the whole frontier. */
  lemma ReleasedExactlyOnce(states: seq<State>, steps: seq<Step>, i: nat, t: nat, job: JobId)
    requires IsRun(states, steps) && i < |states| && t < |states[i].tenancies| && job !in states[i].dependencies
    requires forall u | t < u < |states[i].tenancies| :: states[i].tenancies[u].slot != states[i].tenancies[t].slot
    ensures var tenancy := states[i].tenancies[t];
      && tenancy.slot < |states[i].frontiers|
      && (Enabled(states[i], Release(job, t)) <==> tenancy.users != [] && tenancy.release == None)
      && (Enabled(states[i], Release(job, t)) ==>
            var after := Apply(states[i], Release(job, t));
            && after.tenancies[t] == tenancy.(release := Some(job)) && after.frontiers[tenancy.slot] == [job]
            && !Enabled(after, Release(job + 1, t)))
  {
    RunKeepsInvariant(states, steps, i);
  }

  // ---------------------------------------------------------------------
  // Whether all submitted jobs can run

  /** How the submitting thread proceeds: a job is planned after the jobs it waits for, and takes slots before the next one begins. */
  predicate InOrder(s: State, step: Step) {
    match step
    case Begin(job, planned) => planned <= Members(s.begun)
    case Acquire(job, p) => s.begun != [] && job == s.begun[|s.begun| - 1]
    case _ => true
  }

  /** The job is in the frontier that it is about to wait for. */
  predicate TakesAgain(s: State, step: Step) {
    step.Acquire? && step.slot < |s.frontiers| && step.job in s.frontiers[step.slot]
  }

  /** Some order of all jobs begun waits for every dependency. */
  ghost predicate AllCanRun(s: State) {
    exists order: seq<JobId> :: RespectsDependencies(s.dependencies, order) && forall job | job in s.begun :: job in order
  }

  /** Dependencies, frontiers and tenancies mention jobs that were begun. */
  ghost predicate Registered(s: State) {
    && NoDuplicates(s.begun)
    && (forall job :: job in s.dependencies <==> job in s.begun)
    && (forall p: nat, job | p < |s.frontiers| && job in s.frontiers[p] :: job in s.begun)
    && (forall t: nat | t < |s.tenancies| :: s.tenancies[t].acquire in s.begun)
    && (forall t: nat, job | t < |s.tenancies| && job in s.tenancies[t].users :: job in s.begun)
  }

  predicate WaitsForEarlier(s: State, i: nat)
    requires i < |s.begun|
  {
    s.begun[i] in s.dependencies && s.dependencies[s.begun[i]] <= Members(s.begun[..i])
  }

  /** Every job waits only for jobs begun before it. */
  ghost predicate DependsOnEarlier(s: State) {
    forall i: nat | i < |s.begun| :: WaitsForEarlier(s, i)
  }

  lemma UserIsBegun(s: State, job: JobId, t: nat)
    requires Registered(s) && Enabled(s, Use(job, t))
    ensures job in s.begun
  {
    if job != s.tenancies[t].acquire {
      var n: nat :| FollowsWithin(s.dependencies, job, s.tenancies[t].acquire, n);
    }
  }

  lemma StepKeepsRegistered(s: State, step: Step)
    requires Registered(s) && Enabled(s, step)
    ensures Registered(Apply(s, step))
  {
    match step
    case Use(job, t) => UserIsBegun(s, job, t);
    case _ =>
  }

  /** A job begun last may wait for all others. */
  lemma BeginKeepsEarlier(s: State, s': State, job: JobId)
    requires Registered(s) && DependsOnEarlier(s) && job !in s.begun
    requires s'.begun == s.begun + [job] && job in s'.dependencies && s'.dependencies[job] <= Members(s.begun)
    requires forall other | other in s.dependencies :: other in s'.dependencies && s'.dependencies[other] == s.dependencies[other]
    ensures DependsOnEarlier(s')
  {
    forall i: nat | i < |s'.begun|
      ensures WaitsForEarlier(s', i)
    {
      if i < |s.begun| {
        assert s'.begun[i] == s.begun[i] && s'.begun[..i] == s.begun[..i];
        assert WaitsForEarlier(s, i);
      } else {
        assert s'.begun[..i] == s.begun;
      }
    }
  }

  lemma OthersAreEarlier(begun: seq<JobId>, last: nat, jobs: seq<JobId>)
    requires last + 1 == |begun| && begun[last] !in jobs && forall job | job in jobs :: job in begun
    ensures Members(jobs) <= Members(begun[..last])
  {
    forall job | job in jobs
      ensures job in begun[..last]
    {
      assert begun == begun[..last] + [begun[last]];
    }
  }

  lemma AcquireKeepsEarlier(s: State, job: JobId, p: nat)
    requires Registered(s) && DependsOnEarlier(s) && Enabled(s, Acquire(job, p)) && InOrder(s, Acquire(job, p))
    requires job !in s.frontiers[p]
    ensures DependsOnEarlier(Apply(s, Acquire(job, p)))
  {
    var s' := Apply(s, Acquire(job, p));
    OthersAreEarlier(s.begun, |s.begun| - 1, s.frontiers[p]);
    forall i: nat | i < |s'.begun|
      ensures WaitsForEarlier(s', i)
    {
      assert WaitsForEarlier(s, i);
    }
  }

  lemma StepKeepsEarlier(s: State, step: Step)
    requires Registered(s) && DependsOnEarlier(s) && Enabled(s, step) && InOrder(s, step) && !TakesAgain(s, step)
    ensures DependsOnEarlier(Apply(s, step))
  {
    var s' := Apply(s, step);
    match step
    case Begin(job, planned) => BeginKeepsEarlier(s, s', job);
    case Acquire(job, p) => AcquireKeepsEarlier(s, job, p);
    case Use(job, t) => assert forall i: nat | i < |s.begun| :: WaitsForEarlier(s', i) == WaitsForEarlier(s, i);
    case Release(job, t) => BeginKeepsEarlier(s, s', job);
  }

  lemma {:induction false} RunIsRegistered(states: seq<State>, steps: seq<Step>, i: nat)
    requires IsRun(states, steps) && i < |states|
    ensures Registered(states[i])
  {
    if i > 0 {
      RunIsRegistered(states, steps, i - 1);
      StepKeepsRegistered(states[i - 1], steps[i - 1]);
      assert states[i - 1 + 1] == Apply(states[i - 1], steps[i - 1]);
    }
  }

  lemma {:induction false} RunDependsOnEarlier(states: seq<State>, steps: seq<Step>, i: nat)
    requires IsRun(states, steps) && i < |states|
    requires forall j | 0 <= j < i :: InOrder(states[j], steps[j]) && !TakesAgain(states[j], steps[j])
    ensures DependsOnEarlier(states[i])
  {
    if i > 0 {
      RunDependsOnEarlier(states, steps, i - 1);
      RunIsRegistered(states, steps, i - 1);
      StepKeepsEarlier(states[i - 1], steps[i - 1]);
      assert states[i - 1 + 1] == Apply(states[i - 1], steps[i - 1]);
    }
  }

  /** The order of beginning is an order that works. */
  lemma EarlierMeansAllCanRun(s: State)
    requires Registered(s) && DependsOnEarlier(s)
    ensures AllCanRun(s)
  {
    forall a, b | a in s.begun && a in s.dependencies && b in s.dependencies[a]
      ensures Before(s.begun, b, a)
    {
      var i: nat :| i < |s.begun| && s.begun[i] == a;
      assert WaitsForEarlier(s, i) && b in s.begun[..i];
      var j: nat :| j < i && s.begun[..i][j] == b;
      assert s.begun[j] == b;
    }
    assert RespectsDependencies(s.dependencies, s.begun);
  }

  lemma {:induction false} RunExtends(states: seq<State>, steps: seq<Step>, i: nat, k: nat)
    requires IsRun(states, steps) && i <= k < |states|
    ensures Extends(states[i].dependencies, states[k].dependencies)
    ensures forall job | job in states[i].begun :: job in states[k].begun
    decreases k
  {
    if i < k {
      RunExtends(states, steps, i, k - 1);
      assert Enabled(states[k - 1], steps[k - 1]) && states[k - 1 + 1] == Apply(states[k - 1], steps[k - 1]);
    }
  }

  lemma BeforeIsIrreflexive(order: seq<JobId>, a: JobId)
    requires NoDuplicates(order)
    ensures !Before(order, a, a)
  {
  }

  /** A job that takes a slot again waits for itself, for good. */
  lemma TakingAgainNeverRuns(states: seq<State>, steps: seq<Step>, i: nat, order: seq<JobId>)
    requires IsRun(states, steps) && i < |steps| && TakesAgain(states[i], steps[i])
    requires RespectsDependencies(states[|steps|].dependencies, order)
    ensures steps[i].job in states[|steps|].begun && steps[i].job !in order
  {
    var job := steps[i].job;
    assert Enabled(states[i], steps[i]) && states[i + 1] == Apply(states[i], steps[i]);
    assert job in Members(states[i].frontiers[steps[i].slot]) && job in states[i + 1].dependencies[job];
    RunIsRegistered(states, steps, i + 1);
    RunExtends(states, steps, i + 1, |steps|);
    if job in order {
      BeforeIsIrreflexive(order, job);
    }
  }

  /**
   * Some order of all submitted jobs respects their dependencies exactly when no
   * job takes a physical slot whose frontier it is in already.
   */
  lemma AllCanRunExactly(states: seq<State>, steps: seq<Step>)
    requires IsRun(states, steps) && forall i | 0 <= i < |steps| :: InOrder(states[i], steps[i])
    ensures AllCanRun(states[|steps|]) <==> forall i | 0 <= i < |steps| :: !TakesAgain(states[i], steps[i])
  {
    if forall i | 0 <= i < |steps| :: !TakesAgain(states[i], steps[i]) {
      RunIsRegistered(states, steps, |steps|);
      RunDependsOnEarlier(states, steps, |steps|);
      EarlierMeansAllCanRun(states[|steps|]);
    } else {
      var i: nat :| i < |steps| && TakesAgain(states[i], steps[i]);
      if order: seq<JobId> :| RespectsDependencies(states[|steps|].dependencies, order) && forall job | job in states[|steps|].begun :: job in order {
        TakingAgainNeverRuns(states, steps, i, order);
      }
    }
  }

  /** One job that takes the only physical slot for two resources. */
  lemma FusedAcquisitionsNeverRun() returns (states: seq<State>, steps: seq<Step>)
    ensures IsRun(states, steps) && forall i | 0 <= i < |steps| :: InOrder(states[i], steps[i])
    ensures steps == [Begin(0, {}), Acquire(0, 0), Acquire(0, 0)] && states[0].frontiers == [[]]
    ensures !AllCanRun(states[|steps|])
  {
    steps := [Begin(0, {}), Acquire(0, 0), Acquire(0, 0)];
    var s0 := State([[]], map[], [], []);
    var s1 := Apply(s0, steps[0]);
    var s2 := Apply(s1, steps[1]);
    states := [s0, s1, s2, Apply(s2, steps[2])];
    assert TakesAgain(states[2], steps[2]);
    AllCanRunExactly(states, steps);
  }

  // ---------------------------------------------------------------------
  // Frontiers have room

  /** A frontier with room for the frontier jobs of its tenant has room for the next of them. */
  lemma FrontierHasRoom(s: State, job: JobId, t: nat, frontierJobs: seq<JobId>, capacity: nat)
    requires Invariant(s) && Enabled(s, Use(job, t))
    requires job in frontierJobs && (forall user | user in s.tenancies[t].users :: user in frontierJobs)
    requires |frontierJobs| <= capacity
    ensures var frontier := Started(s, t)[s.tenancies[t].slot]; job in frontier || |frontier| < capacity
  {
    var p := s.tenancies[t].slot;
    assert FrontierHolds(s, p);
    var frontier := s.frontiers[p];
    if s.tenancies[t].users == [] {
      assert frontierJobs != [];
    } else if job !in frontier {
      forall user | user in frontier
        ensures user in frontierJobs
      {
        assert user in Members(frontier) && user in LastJobs(s.tenancies[t]);
      }
      DistinctFit(frontier + [job], frontierJobs);
    }
  }

  /**
   * What the physical plan promises (PlanPhysicalStorage), for slot `k` of resource
   * `r` in physical slot `p`; `frontierJobs` are the jobs of the resource's frontier
   * nodes, no more than there are nodes.
   */
  predicate PlannedTenant(resources: seq<PhysicalPlan.Slots>, plan: PhysicalPlan.Plan, r: nat, k: nat, p: nat, frontierJobs: seq<JobId>) {
    && PhysicalPlan.RoomBelow(resources, plan.physicalIds, PhysicalPlan.Gaps(plan.frontierOffsets), |resources|)
    && r < |resources| && k < resources[r].count && |frontierJobs| <= resources[r].frontiers
    && PhysicalPlan.SlotId(resources, r, k) < |plan.physicalIds| && plan.physicalIds[PhysicalPlan.SlotId(resources, r, k)] == p
  }

  lemma PlannedFrontierHasRoom(
      resources: seq<PhysicalPlan.Slots>, plan: PhysicalPlan.Plan, r: nat, k: nat, s: State, job: JobId, t: nat, frontierJobs: seq<JobId>)
    requires Invariant(s) && Enabled(s, Use(job, t)) && PlannedTenant(resources, plan, r, k, s.tenancies[t].slot, frontierJobs)
    requires job in frontierJobs && (forall user | user in s.tenancies[t].users :: user in frontierJobs)
    ensures var p := s.tenancies[t].slot;
      && p < |PhysicalPlan.Gaps(plan.frontierOffsets)|
      && (job in Started(s, t)[p] || |Started(s, t)[p]| < PhysicalPlan.Gaps(plan.frontierOffsets)[p])
  {
    assert PhysicalPlan.HasRoom(resources, plan.physicalIds, PhysicalPlan.Gaps(plan.frontierOffsets), r, k);
    FrontierHasRoom(s, job, t, frontierJobs, PhysicalPlan.Gaps(plan.frontierOffsets)[s.tenancies[t].slot]);
  }

  /** A frontier job on the planned tables: the first one of a tenancy empties the frontier, and no append ever fails. */
  method UseFrontier(
      storage: PhysicalStorageState, p: nat, started: bool, job: JobId, ghost s: State, ghost t: nat,
      ghost resources: seq<PhysicalPlan.Slots>, ghost plan: PhysicalPlan.Plan, ghost r: nat, ghost k: nat, ghost frontierJobs: seq<JobId>)
    returns (result: Result<()>)
    requires storage.Valid() && p < storage.frontierCounts.Length && storage.View() == s.frontiers
    requires Invariant(s) && Enabled(s, Use(job, t)) && p == s.tenancies[t].slot && started == (s.tenancies[t].users != [])
    requires storage.frontierOffsets == plan.frontierOffsets && PlannedTenant(resources, plan, r, k, p, frontierJobs)
    requires job in frontierJobs && (forall user | user in s.tenancies[t].users :: user in frontierJobs)
    modifies storage.frontierCounts, storage.frontierJobs
    ensures result.Success? && storage.Valid()
    ensures storage.View() == Apply(s, Use(job, t)).frontiers
  {
    PlannedFrontierHasRoom(resources, plan, r, k, s, job, t, frontierJobs);
    if !started {
      storage.ClearFrontier(p);
    }
    storage.OffsetsInRange(p);
    result := storage.AppendFrontier(p, job);
  }
}
