/**
 * The record of a submitted iteration in terms of the compiled tables: what each job,
 * release and finish waits for, and when a release is refused.
 */
module SubmissionRecord {
  import opened Wrappers
  import opened Graphs
  import opened ProgramData
  import opened JobPlan
  import opened Schedules
  import opened FeedbackPlan
  import opened FeedbackSubmission

  /** The node lists an access of the resource whose purpose is serialization. */
  predicate ListsSerially(data: Program, v: nat, q: nat) {
    v < |data.nodes| && exists access | access in data.nodes[v].accesses ::
      access.resource == q && access.purpose == AccessPurpose.Serialization
  }

  /** Some node of the job does. */
  predicate JobListsSerially(data: Program, plan: Plan, j: nat, q: nat) {
    j < |plan.jobs| && exists v | v in plan.jobs[j].nodes :: ListsSerially(data, v, q)
  }

  lemma NodeSerializesMeans(data: Program, v: nat, q: nat)
    ensures NodeSerializes(data, v, q) <==> ListsSerially(data, v, q)
  {
    if NodeSerializes(data, v, q) {
      var accesses := data.nodes[v].accesses;
      var i :| 0 <= i < |accesses| && accesses[i].purpose.Serialization? && accesses[i].resource == q;
      assert accesses[i] in accesses;
    }
    if ListsSerially(data, v, q) {
      var accesses := data.nodes[v].accesses;
      var access :| access in accesses && access.resource == q && access.purpose == AccessPurpose.Serialization;
      var i :| 0 <= i < |accesses| && accesses[i] == access;
      assert accesses[i].purpose.Serialization?;
    }
  }

  lemma SerializesMeans(data: Program, plan: Plan, j: nat, q: nat)
    ensures Serializes(data, plan, j, q) <==> JobListsSerially(data, plan, j, q)
  {
    if Serializes(data, plan, j, q) {
      var nodes := plan.jobs[j].nodes;
      var i :| 0 <= i < |nodes| && NodeSerializes(data, nodes[i], q);
      NodeSerializesMeans(data, nodes[i], q);
      assert nodes[i] in nodes;
    }
    if JobListsSerially(data, plan, j, q) {
      var nodes := plan.jobs[j].nodes;
      var v :| v in nodes && ListsSerially(data, v, q);
      NodeSerializesMeans(data, v, q);
      var i :| 0 <= i < |nodes| && nodes[i] == v;
      assert NodeSerializes(data, nodes[i], q);
    }
  }

  /**
   * Jobs with nodes that list serialization accesses of one resource run in the order
   * of submission, and after whoever accessed the resource before.
   */
  lemma SerializationAccessesAreOrdered(
      data: Program, plan: Plan, region: seq<nat>, c: Context, regionPlan: RegionPlan, record: Record, order: seq<Event>, i: nat, k: nat, q: nat)
    requires IsWholeRecord(data, plan, region, c, regionPlan, record) && RespectsRecord(record, order) && q < |data.resources|
    requires k < |regionPlan.jobs| && JobListsSerially(data, plan, regionPlan.jobs[k], q)
    ensures q in c.serialized ==> Before(order, Serialized(q), Job(regionPlan.jobs[k]))
    ensures i < k && JobListsSerially(data, plan, regionPlan.jobs[i], q) ==> Before(order, Job(regionPlan.jobs[i]), Job(regionPlan.jobs[k]))
  {
    SerializesMeans(data, plan, regionPlan.jobs[k], q);
    if q in c.serialized {
      SerializedFollowsEarlier(data, plan, region, c, regionPlan, record, order, k, q);
    }
    if i < k && JobListsSerially(data, plan, regionPlan.jobs[i], q) {
      SerializesMeans(data, plan, regionPlan.jobs[i], q);
      SerializedJobsAreOrdered(data, plan, region, c, regionPlan, record, order, i, k, q);
    }
  }

  /** Job number m is the last before number n that lists serialization accesses of the resource. */
  ghost predicate IsLastAccessor(data: Program, plan: Plan, jobs: seq<nat>, n: nat, m: nat, q: nat) {
    && m < n <= |jobs| && JobListsSerially(data, plan, jobs[m], q)
    && forall k: nat | m < k < n :: !JobListsSerially(data, plan, jobs[k], q)
  }

  ghost predicate NoAccessor(data: Program, plan: Plan, jobs: seq<nat>, n: nat, q: nat)
    requires n <= |jobs|
  {
    forall k: nat | k < n :: !JobListsSerially(data, plan, jobs[k], q)
  }

  lemma {:induction false} LastAccessMeans(data: Program, plan: Plan, c: Context, jobs: seq<nat>, n: nat, q: nat)
    requires n <= |jobs|
    ensures match LastAccess(data, plan, c, jobs[..n], q)
      case None => NoAccessor(data, plan, jobs, n, q) && q !in c.serialized
      case Some(Serialized(r)) => r == q && NoAccessor(data, plan, jobs, n, q) && q in c.serialized
      case Some(Job(j)) => exists m: nat :: IsLastAccessor(data, plan, jobs, n, m, q) && jobs[m] == j
      case _ => false
  {
    if n > 0 {
      SerializesMeans(data, plan, jobs[n - 1], q);
      assert jobs[..n][..n - 1] == jobs[..n - 1];
      if JobListsSerially(data, plan, jobs[n - 1], q) {
        assert IsLastAccessor(data, plan, jobs, n, n - 1, q);
      } else {
        LastAccessMeans(data, plan, c, jobs, n - 1, q);
        LastAccessorStays(data, plan, jobs, n - 1, q);
      }
    }
  }

  lemma LastAccessorStays(data: Program, plan: Plan, jobs: seq<nat>, n: nat, q: nat)
    requires n < |jobs| && !JobListsSerially(data, plan, jobs[n], q)
    ensures forall m: nat :: IsLastAccessor(data, plan, jobs, n, m, q) ==> IsLastAccessor(data, plan, jobs, n + 1, m, q)
  {
  }

  /** Jobs number m and i list serialization accesses of the resource, and no job between them does. */
  ghost predicate SerializedAfter(data: Program, plan: Plan, jobs: seq<nat>, i: nat, m: nat, q: nat) {
    && i < |jobs| && q < |data.resources|
    && JobListsSerially(data, plan, jobs[i], q) && IsLastAccessor(data, plan, jobs, i, m, q)
  }

  /** The job waits for whoever accessed a resource before the iteration exactly when it is the first to list serialization accesses of it. */
  lemma SerializedAwaitedExactly(
      data: Program, plan: Plan, region: seq<nat>, c: Context, regionPlan: RegionPlan, record: Record, i: nat, q: nat)
    requires IsWholeRecord(data, plan, region, c, regionPlan, record) && i < |regionPlan.jobs|
    ensures Job(regionPlan.jobs[i]) in record
    ensures Serialized(q) in record[Job(regionPlan.jobs[i])] <==>
      && q < |data.resources| && q in c.serialized
      && JobListsSerially(data, plan, regionPlan.jobs[i], q) && NoAccessor(data, plan, regionPlan.jobs, i, q)
  {
    var jobs := regionPlan.jobs;
    assert jobs[i] in jobs && JobRecorded(data, plan, region, c, jobs, record, i);
    SerializesMeans(data, plan, jobs[i], q);
    LastAccessMeans(data, plan, c, jobs, i, q);
    forall r: nat | LastAccess(data, plan, c, jobs[..i], r) == Some(Serialized(q))
      ensures r == q
    {
      LastAccessMeans(data, plan, c, jobs, i, r);
    }
    if Serialized(q) in SerialDependencies(data, plan, c, jobs[..i], jobs[i]) {
      var r :| 0 <= r < |data.resources| && Serializes(data, plan, jobs[i], r) && LastAccess(data, plan, c, jobs[..i], r) == Some(Serialized(q));
    }
  }

  /** The job waits for another one of its iteration exactly when that is a planned predecessor, or the last to access a resource they both serialize. */
  lemma JobsAwaitedExactly(
      data: Program, plan: Plan, region: seq<nat>, c: Context, regionPlan: RegionPlan, record: Record, i: nat, j: nat)
    requires IsWholeRecord(data, plan, region, c, regionPlan, record) && i < |regionPlan.jobs|
    ensures regionPlan.jobs[i] < |plan.jobs| && Job(regionPlan.jobs[i]) in record
    ensures Job(j) in record[Job(regionPlan.jobs[i])] <==>
      || (j in plan.jobs[regionPlan.jobs[i]].predecessors && FirstInRegion(plan, region, j))
      || (exists q: nat, m: nat :: SerializedAfter(data, plan, regionPlan.jobs, i, m, q) && regionPlan.jobs[m] == j)
  {
    var jobs := regionPlan.jobs;
    assert jobs[i] in jobs && JobRecorded(data, plan, region, c, jobs, record, i);
    assert Job(j) in PlannedDependencies(plan, region, jobs[i]) <==>
      j in plan.jobs[jobs[i]].predecessors && FirstInRegion(plan, region, j) by {
      assert PlannedDependency(plan, region, j) == (if FirstInRegion(plan, region, j) then Job(j) else Initialization);
    }
    SerialJobsMean(data, plan, c, jobs, i, j);
  }

  lemma SerialJobsMean(data: Program, plan: Plan, c: Context, jobs: seq<nat>, i: nat, j: nat)
    requires i < |jobs|
    ensures Job(j) in SerialDependencies(data, plan, c, jobs[..i], jobs[i]) <==>
      exists q: nat, m: nat :: SerializedAfter(data, plan, jobs, i, m, q) && jobs[m] == j
  {
    if Job(j) in SerialDependencies(data, plan, c, jobs[..i], jobs[i]) {
      var q :| 0 <= q < |data.resources| && Serializes(data, plan, jobs[i], q) && LastAccess(data, plan, c, jobs[..i], q) == Some(Job(j));
      SerializesMeans(data, plan, jobs[i], q);
      LastAccessMeans(data, plan, c, jobs, i, q);
      var m: nat :| IsLastAccessor(data, plan, jobs, i, m, q) && jobs[m] == j;
      assert SerializedAfter(data, plan, jobs, i, m, q);
    }
    if q: nat, m: nat :| SerializedAfter(data, plan, jobs, i, m, q) && jobs[m] == j {
      SerializesMeans(data, plan, jobs[i], q);
      LastAccessMeans(data, plan, c, jobs, i, q);
      LastAccessorIsUnique(data, plan, jobs, i, q);
    }
  }

  lemma LastAccessorIsUnique(data: Program, plan: Plan, jobs: seq<nat>, n: nat, q: nat)
    requires n <= |jobs|
    ensures forall m: nat, k: nat :: IsLastAccessor(data, plan, jobs, n, m, q) && IsLastAccessor(data, plan, jobs, n, k, q) ==> m == k
    ensures forall m: nat :: IsLastAccessor(data, plan, jobs, n, m, q) ==> !NoAccessor(data, plan, jobs, n, q)
  {
  }

  /** The job waits for the initialization exactly in the first iteration, or if a planned predecessor lies outside the region. */
  lemma InitializationAwaitedExactly(
      data: Program, plan: Plan, region: seq<nat>, c: Context, regionPlan: RegionPlan, record: Record, i: nat)
    requires IsWholeRecord(data, plan, region, c, regionPlan, record) && i < |regionPlan.jobs|
    ensures regionPlan.jobs[i] < |plan.jobs| && Job(regionPlan.jobs[i]) in record
    ensures Initialization in record[Job(regionPlan.jobs[i])] <==>
      c.first || exists p | p in plan.jobs[regionPlan.jobs[i]].predecessors :: !FirstInRegion(plan, region, p)
  {
    var jobs := regionPlan.jobs;
    assert jobs[i] in jobs && JobRecorded(data, plan, region, c, jobs, record, i);
    if p :| p in plan.jobs[jobs[i]].predecessors && !FirstInRegion(plan, region, p) {
      assert PlannedDependency(plan, region, p) == Initialization;
    }
    if Initialization in SerialDependencies(data, plan, c, jobs[..i], jobs[i]) {
      SerialIsOwnAccess(data, plan, c, jobs, i, Initialization);
    }
  }

  lemma SerialIsOwnAccess(data: Program, plan: Plan, c: Context, jobs: seq<nat>, i: nat, d: Event)
    requires i < |jobs| && d in SerialDependencies(data, plan, c, jobs[..i], jobs[i])
    ensures d.Serialized? || d.Job?
  {
    var q :| 0 <= q < |data.resources| && LastAccess(data, plan, c, jobs[..i], q) == Some(d);
    LastAccessMeans(data, plan, c, jobs, i, q);
  }

  /** The job waits for one of the iteration before exactly for a temporal predecessor in the region, or for itself if it has a memoized node. */
  lemma PreviousAwaitedExactly(
      data: Program, plan: Plan, region: seq<nat>, c: Context, regionPlan: RegionPlan, record: Record, i: nat, j: nat)
    requires IsWholeRecord(data, plan, region, c, regionPlan, record) && i < |regionPlan.jobs|
    ensures regionPlan.jobs[i] < |plan.jobs| && Job(regionPlan.jobs[i]) in record
    ensures Previous(j) in record[Job(regionPlan.jobs[i])] <==>
      && !c.first
      && ((j == regionPlan.jobs[i] && exists v | v in plan.jobs[j].nodes :: v < |data.nodes| && data.nodes[v].memoized)
          || exists v, p | v in plan.jobs[regionPlan.jobs[i]].nodes && v < |data.nodes| && p in data.nodes[v].temporalPredecessors ::
            p in region && p < |plan.jobOfNode| && plan.jobOfNode[p] == j)
  {
    var jobs := regionPlan.jobs;
    assert jobs[i] in jobs && JobRecorded(data, plan, region, c, jobs, record, i);
    var nodes := plan.jobs[jobs[i]].nodes;
    MemoizedMeans(data, nodes);
    assert Previous(j) in TemporalDependencies(data, plan, region, nodes) <==>
      exists v, p | v in nodes && v < |data.nodes| && p in data.nodes[v].temporalPredecessors ::
        p in region && p < |plan.jobOfNode| && plan.jobOfNode[p] == j;
    if Previous(j) in SerialDependencies(data, plan, c, jobs[..i], jobs[i]) {
      SerialIsOwnAccess(data, plan, c, jobs, i, Previous(j));
    }
  }

  lemma MemoizedMeans(data: Program, nodes: seq<nat>)
    ensures HasMemoized(data, nodes) <==> exists v | v in nodes :: v < |data.nodes| && data.nodes[v].memoized
  {
    if v :| v in nodes && v < |data.nodes| && data.nodes[v].memoized {
      var i :| 0 <= i < |nodes| && nodes[i] == v;
      assert nodes[i] < |data.nodes| && data.nodes[nodes[i]].memoized;
    }
  }

  /** A resource is released in the iteration exactly when its lifetime ends in the run with a node of the region, and its release waits for the jobs of all frontier nodes. */
  lemma ReleasesRecordedExactly(
      data: Program, plan: Plan, submission: SubmissionPlan, r: nat, c: Context, record: Record, q: nat, d: Event)
    requires Plannable(data) && IsPlan(data, plan) && IsSubmissionPlan(data, plan, submission) && r < |data.regions|
    requires IsWholeRecord(data, plan, data.regions[r], c, submission.regions[r], record) && q < |data.resources|
    ensures Release(q) in record <==> EndsInRun(data.resources[q]) && exists v | v in data.regions[r] :: EndsLifetime(data.resources[q], v)
    ensures Release(q) in record ==>
      (d in record[Release(q)] <==> exists f | f in data.resources[q].releaseAfter :: f < |plan.jobOfNode| && d == Job(plan.jobOfNode[f]))
  {
    ReleasedInRegion(data, plan, submission, r, q);
  }

  lemma ReleasedInRegion(data: Program, plan: Plan, submission: SubmissionPlan, r: nat, q: nat)
    requires Plannable(data) && IsPlan(data, plan) && IsSubmissionPlan(data, plan, submission) && r < |data.regions| && q < |data.resources|
    ensures ReleasedBy(plan, submission.regions[r].jobs, q) <==>
      EndsInRun(data.resources[q]) && exists v | v in data.regions[r] :: EndsLifetime(data.resources[q], v)
  {
    var jobs := submission.regions[r].jobs;
    if ReleasedBy(plan, jobs, q) {
      var i :| 0 <= i < |jobs| && jobs[i] < |plan.jobs| && q in plan.jobs[jobs[i]].releasedResources;
      assert jobs[i] in jobs;
      ReleasedExactly(data, plan, q, jobs[i]);
      LastIsInRegion(data, plan, r, jobs[i]);
    }
    if EndsInRun(data.resources[q]) {
      if v :| v in data.regions[r] && EndsLifetime(data.resources[q], v) {
        RegionJobOf(data, plan, submission, r, v);
        var i: nat :| i < |jobs| && jobs[i] == plan.jobOfNode[v];
        EndsLifetimeIsMax(data.resources[q], v);
        assert IsReleaseList(data, plan.jobOfNode, jobs[i], plan.jobs[jobs[i]].releasedResources);
        assert data.resources[q].ReleasedByPlan();
      }
    }
  }

  /** The finish waits for every release, and for the jobs of the nodes that nothing in the region depends on. */
  lemma FinishAwaitsExactly(data: Program, plan: Plan, submission: SubmissionPlan, r: nat, c: Context, record: Record, d: Event)
    requires IsSubmissionPlan(data, plan, submission) && r < |data.regions|
    requires IsWholeRecord(data, plan, data.regions[r], c, submission.regions[r], record)
    ensures d in record[Finish] <==>
      || (d.Release? && d in record)
      || (exists v | v in data.regions[r] :: v < |plan.jobOfNode| && d == Job(plan.jobOfNode[v]) && forall w: nat | Depends(data, v, w) :: w !in data.regions[r])
  {
    var region, terminalJobs := data.regions[r], submission.regions[r].terminalJobs;
    assert d in record[Finish] <==> (d.Release? && d in record) || (d.Job? && d.job in terminalJobs);
    assert forall v: nat :: IsTerminal(data, region, v) <==> v in region && forall w: nat | Depends(data, v, w) :: w !in region;
  }

  /** All frontier nodes of the resource lie in the region, in jobs no later than that of the node that ends its lifetime. */
  predicate FrontiersInOrder(data: Program, plan: Plan, region: seq<nat>, q: nat, v: nat)
    requires q < |data.resources| && v < |plan.jobOfNode|
  {
    forall f | f in data.resources[q].releaseAfter :: f in region && f < |plan.jobOfNode| && plan.jobOfNode[f] <= plan.jobOfNode[v]
  }

  /** The releases of a region, read off the lifetimes. */
  predicate LifetimesInOrder(data: Program, plan: Plan, region: seq<nat>) {
    forall q: nat, v | q < |data.resources| && v in region && v < |plan.jobOfNode| && EndsInRun(data.resources[q]) && EndsLifetime(data.resources[q], v) ::
      FrontiersInOrder(data, plan, region, q, v)
  }

  lemma AscendingPrefix(jobs: seq<nat>, i: nat, j: nat)
    requires Ascending(jobs) && i < |jobs| && j in jobs
    ensures j in jobs[..i + 1] <==> j <= jobs[i]
  {
    var k: nat :| k < |jobs| && jobs[k] == j;
    assert k <= i ==> jobs[..i + 1][k] == j;
  }

  lemma ReadyMeansInOrder(data: Program, plan: Plan, submission: SubmissionPlan, r: nat, i: nat, q: nat, v: nat)
    requires Plannable(data) && IsPlan(data, plan) && IsSubmissionPlan(data, plan, submission)
    requires r < |data.regions| && Ascending(data.regions[r]) && i < |submission.regions[r].jobs| && q < |data.resources|
    requires v < |plan.jobOfNode| && plan.jobOfNode[v] == submission.regions[r].jobs[i]
    ensures ReleaseReady(data, plan, data.regions[r], submission.regions[r].jobs[..i + 1], q)
      <==> FrontiersInOrder(data, plan, data.regions[r], q, v)
  {
    var jobs := submission.regions[r].jobs;
    forall f | f in data.resources[q].releaseAfter && f in data.regions[r]
      ensures f < |plan.jobOfNode| && (plan.jobOfNode[f] in jobs[..i + 1] <==> plan.jobOfNode[f] <= plan.jobOfNode[v])
    {
      RegionJobOf(data, plan, submission, r, f);
      AscendingPrefix(jobs, i, plan.jobOfNode[f]);
    }
  }

  /** The releases after a job are accepted exactly when the lifetimes that end with its last node are in order. */
  lemma ReleasesReadyMeans(data: Program, plan: Plan, submission: SubmissionPlan, r: nat, i: nat)
    requires Plannable(data) && IsPlan(data, plan) && IsSubmissionPlan(data, plan, submission)
    requires r < |data.regions| && Ascending(data.regions[r]) && i < |submission.regions[r].jobs|
    ensures submission.regions[r].jobs[i] < |plan.jobs| && |plan.jobs[submission.regions[r].jobs[i]].nodes| > 0
    ensures var v := Last(plan.jobs[submission.regions[r].jobs[i]].nodes);
      && v in data.regions[r] && v < |plan.jobOfNode|
      && (ReleasesReady(data, plan, data.regions[r], submission.regions[r].jobs[..i + 1], submission.regions[r].jobs[i]) <==>
          forall q: nat | q < |data.resources| && EndsInRun(data.resources[q]) && EndsLifetime(data.resources[q], v) ::
            FrontiersInOrder(data, plan, data.regions[r], q, v))
  {
    var jobs := submission.regions[r].jobs;
    assert jobs[i] in jobs;
    JobFacts(data, NodesOf(plan), plan.jobOfNode);
    LastIsInRegion(data, plan, r, jobs[i]);
    var v := Last(plan.jobs[jobs[i]].nodes);
    assert v in NodesOf(plan)[jobs[i]];
    forall q: nat | q < |data.resources|
      ensures q in plan.jobs[jobs[i]].releasedResources <==> EndsInRun(data.resources[q]) && EndsLifetime(data.resources[q], v)
      ensures ReleaseReady(data, plan, data.regions[r], jobs[..i + 1], q) <==> FrontiersInOrder(data, plan, data.regions[r], q, v)
    {
      ReleasedExactly(data, plan, q, jobs[i]);
      ReadyMeansInOrder(data, plan, submission, r, i, q, v);
    }
  }

  /**
   * No release is refused exactly when, for every resource whose lifetime ends in the
   * run with a node of the region, all frontier nodes are in the region and in jobs
   * that are submitted no later than the job of that node.
   */
  lemma ReleasesAcceptedExactly(data: Program, plan: Plan, submission: SubmissionPlan, r: nat)
    requires Plannable(data) && IsPlan(data, plan) && IsSubmissionPlan(data, plan, submission)
    requires r < |data.regions| && Ascending(data.regions[r])
    ensures AllReleasesReady(data, plan, data.regions[r], submission.regions[r].jobs) <==> LifetimesInOrder(data, plan, data.regions[r])
  {
    var region, jobs := data.regions[r], submission.regions[r].jobs;
    if AllReleasesReady(data, plan, region, jobs) {
      forall q: nat, v | q < |data.resources| && v in region && v < |plan.jobOfNode| && EndsInRun(data.resources[q]) && EndsLifetime(data.resources[q], v)
        ensures FrontiersInOrder(data, plan, region, q, v)
      {
        EndingNodeIsLast(data, plan, q, v);
        RegionJobOf(data, plan, submission, r, v);
        var i: nat :| i < |jobs| && jobs[i] == plan.jobOfNode[v];
        ReleasesReadyMeans(data, plan, submission, r, i);
      }
    }
    if LifetimesInOrder(data, plan, region) {
      forall i: nat | i < |jobs|
        ensures jobs[i] < |plan.jobs| && ReleasesReady(data, plan, region, jobs[..i + 1], jobs[i])
      {
        ReleasesReadyMeans(data, plan, submission, r, i);
      }
    }
  }

  lemma EndingNodeIsLast(data: Program, plan: Plan, q: nat, v: nat)
    requires Plannable(data) && IsPlan(data, plan) && q < |data.resources|
    requires EndsInRun(data.resources[q]) && EndsLifetime(data.resources[q], v)
    ensures v < |plan.jobOfNode| && plan.jobOfNode[v] < |plan.jobs| && |plan.jobs[plan.jobOfNode[v]].nodes| > 0
    ensures Last(plan.jobs[plan.jobOfNode[v]].nodes) == v
  {
    JobFacts(data, NodesOf(plan), plan.jobOfNode);
    var j := plan.jobOfNode[v];
    assert v in NodesOf(plan)[j];
    EndsLifetimeIsMax(data.resources[q], v);
    assert data.resources[q].ReleasedByPlan();
    assert IsReleaseList(data, plan.jobOfNode, j, plan.jobs[j].releasedResources);
    ReleasePlacement(data, plan, q);
  }
}
