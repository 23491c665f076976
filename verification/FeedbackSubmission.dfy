/**
 * The submission of one iteration of a feedback region: the dependencies that the
 * submitting thread records for the region's jobs, the releases and the finish.
 */
module FeedbackSubmission {
  import opened Wrappers
  import opened Graphs
  import opened ProgramData
  import opened TransitiveReduction
  import opened JobPlan
  import opened Schedules
  import opened FeedbackPlan

  /** What the scheduler is told: each job with the jobs it waits for. */
  type Record = map<Event, set<Event>>

  predicate FirstInRegion(plan: Plan, region: seq<nat>, j: nat) {
    j < |plan.jobs| && |plan.jobs[j].nodes| > 0 && First(plan.jobs[j].nodes) in region
  }

  /** What earlier submissions left: whether there was an iteration, and which resources some job has accessed serially. */
  datatype Context = Context(first: bool, serialized: set<nat>)

  /** A predecessor in the region itself; those outside run with the initialization. */
  function PlannedDependency(plan: Plan, region: seq<nat>, p: nat): Event {
    if FirstInRegion(plan, region, p) then Job(p) else Initialization
  }

  function PlannedDependencies(plan: Plan, region: seq<nat>, j: nat): set<Event>
    requires j < |plan.jobs|
  {
    set p | p in plan.jobs[j].predecessors :: PlannedDependency(plan, region, p)
  }

  /** The jobs of the temporal predecessors, in the iteration before. */
  function TemporalDependencies(data: Program, plan: Plan, region: seq<nat>, nodes: seq<nat>): set<Event> {
    set v, p | v in nodes && p in TemporalPredecessors(data, v) && p in region && p < |plan.jobOfNode| :: Previous(plan.jobOfNode[p])
  }

  predicate HasMemoized(data: Program, nodes: seq<nat>) {
    exists i | 0 <= i < |nodes| :: nodes[i] < |data.nodes| && data.nodes[nodes[i]].memoized
  }

  /** A job with a memoized node also waits for itself in the iteration before. */
  function PreviousDependencies(data: Program, plan: Plan, region: seq<nat>, nodes: seq<nat>, j: nat): set<Event> {
    TemporalDependencies(data, plan, region, nodes) + (if HasMemoized(data, nodes) then {Previous(j)} else {})
  }

  /** The first iteration waits for the initialization, the others for the iteration before. */
  function EarlierDependencies(data: Program, plan: Plan, region: seq<nat>, c: Context, j: nat): set<Event>
    requires j < |plan.jobs|
  {
    if c.first then {Initialization} else PreviousDependencies(data, plan, region, plan.jobs[j].nodes, j)
  }

  predicate NodeSerializes(data: Program, v: nat, q: nat) {
    v < |data.nodes| && exists i | 0 <= i < |data.nodes[v].accesses| ::
      data.nodes[v].accesses[i].purpose.Serialization? && data.nodes[v].accesses[i].resource == q
  }

  predicate NodesSerialize(data: Program, nodes: seq<nat>, q: nat) {
    exists i | 0 <= i < |nodes| :: NodeSerializes(data, nodes[i], q)
  }

  /** The job accesses the resource only to be serialized with others. */
  predicate Serializes(data: Program, plan: Plan, j: nat, q: nat) {
    j < |plan.jobs| && NodesSerialize(data, plan.jobs[j].nodes, q)
  }

  ghost predicate SerializedInRange(data: Program, plan: Plan, j: nat) {
    forall q: nat | Serializes(data, plan, j, q) :: q < |data.resources|
  }

  /** Who accessed the serialized resource last, before the next job after the given ones. */
  function LastAccess(data: Program, plan: Plan, c: Context, earlier: seq<nat>, q: nat): Option<Event> {
    if earlier == [] then (if q in c.serialized then Some(Serialized(q)) else None)
    else
      var last := earlier[|earlier| - 1];
      if Serializes(data, plan, last, q) then Some(Job(last)) else LastAccess(data, plan, c, earlier[..|earlier| - 1], q)
  }

  function SerialDependencies(data: Program, plan: Plan, c: Context, earlier: seq<nat>, j: nat): set<Event> {
    set q | 0 <= q < |data.resources| && Serializes(data, plan, j, q) && LastAccess(data, plan, c, earlier, q).Some?
      :: LastAccess(data, plan, c, earlier, q).value
  }

  /** What a job waits for that is submitted after the given jobs of its iteration. */
  function JobDependencies(data: Program, plan: Plan, region: seq<nat>, c: Context, earlier: seq<nat>, j: nat): set<Event>
    requires j < |plan.jobs|
  {
    PlannedDependencies(plan, region, j) + EarlierDependencies(data, plan, region, c, j) + SerialDependencies(data, plan, c, earlier, j)
  }

  function ReleaseDependencies(data: Program, plan: Plan, resource: nat): set<Event>
    requires resource < |data.resources|
  {
    set f | f in data.resources[resource].releaseAfter && f < |plan.jobOfNode| :: Job(plan.jobOfNode[f])
  }

  /** The resource is released after one of the listed jobs. */
  predicate ReleasedBy(plan: Plan, jobs: seq<nat>, resource: nat) {
    exists i | 0 <= i < |jobs| :: jobs[i] < |plan.jobs| && resource in plan.jobs[jobs[i]].releasedResources
  }

  /** The record of the jobs submitted so far and of their releases, but for the finish. */
  ghost predicate IsRecordOf(data: Program, plan: Plan, region: seq<nat>, c: Context, jobs: seq<nat>, record: Record) {
    && (forall e | e in record :: e.Job? || e.Release? || e.Finish?)
    && (forall j: nat :: Job(j) in record <==> j in jobs)
    && (forall i: nat | i < |jobs| :: JobRecorded(data, plan, region, c, jobs, record, i))
    && (forall r: nat :: Release(r) in record <==> ReleasedBy(plan, jobs, r))
    && (forall r: nat | Release(r) in record :: r < |data.resources| && record[Release(r)] == ReleaseDependencies(data, plan, r))
  }

  ghost predicate JobRecorded(data: Program, plan: Plan, region: seq<nat>, c: Context, jobs: seq<nat>, record: Record, i: nat)
    requires i < |jobs| && Job(jobs[i]) in record
  {
    jobs[i] < |plan.jobs| && record[Job(jobs[i])] == JobDependencies(data, plan, region, c, jobs[..i], jobs[i])
  }

  ghost predicate IsWholeRecord(data: Program, plan: Plan, region: seq<nat>, c: Context, regionPlan: RegionPlan, record: Record) {
    && Finish in record
    && IsRecordOf(data, plan, region, c, regionPlan.jobs, record)
    && record[Finish] == FinishDependencies(regionPlan.terminalJobs, record - {Finish})
  }

  /** The finish waits for the terminal jobs and for every release, and for nothing else. */
  function FinishDependencies(terminalJobs: seq<nat>, record: Record): set<Event> {
    (set e | e in record && e.Release?) + (set t | t in terminalJobs :: Job(t))
  }

  /** A frontier node that the release may wait for: in the region, and its job submitted. */
  predicate FrontierSubmitted(plan: Plan, region: seq<nat>, submitted: seq<nat>, f: nat) {
    f in region && f < |plan.jobOfNode| && plan.jobOfNode[f] in submitted
  }

  /** The guard of the releases that follow the last of the submitted jobs. */
  predicate ReleasesReady(data: Program, plan: Plan, region: seq<nat>, submitted: seq<nat>, j: nat)
    requires j < |plan.jobs|
  {
    forall r | r in plan.jobs[j].releasedResources && r < |data.resources| :: ReleaseReady(data, plan, region, submitted, r)
  }

  predicate ReleaseReady(data: Program, plan: Plan, region: seq<nat>, submitted: seq<nat>, resource: nat)
    requires resource < |data.resources|
  {
    forall f | f in data.resources[resource].releaseAfter :: FrontierSubmitted(plan, region, submitted, f)
  }

  /** No release of the region crosses its frontier or comes before one of its frontier jobs. */
  predicate AllReleasesReady(data: Program, plan: Plan, region: seq<nat>, jobs: seq<nat>) {
    forall i | 0 <= i < |jobs| :: jobs[i] < |plan.jobs| && ReleasesReady(data, plan, region, jobs[..i + 1], jobs[i])
  }

  /** `valid` marks the nodes of the submitted jobs. */
  ghost predicate MarksSubmitted(plan: Plan, submitted: seq<nat>, valid: seq<bool>) {
    |valid| == |plan.jobOfNode| && forall v | 0 <= v < |valid| :: valid[v] <==> plan.jobOfNode[v] in submitted
  }

  // ---------------------------------------------------------------------
  // Submitting

  /** The first node of a predecessor tells whether it is in the region; if so it has been submitted. */
  predicate PredecessorMarked(plan: Plan, regionOf: seq<Option<nat>>, region: seq<nat>, r: nat, valid: seq<bool>, p: nat) {
    && p < |plan.jobs| && |plan.jobs[p].nodes| > 0
    && plan.jobs[p].nodes[0] < |regionOf| && plan.jobs[p].nodes[0] < |valid|
    && (regionOf[plan.jobs[p].nodes[0]] == Some(r) <==> FirstInRegion(plan, region, p))
    && (regionOf[plan.jobs[p].nodes[0]] == Some(r) ==> valid[plan.jobs[p].nodes[0]])
  }

  lemma PredecessorIsMarked(data: Program, plan: Plan, submission: SubmissionPlan, r: nat, i: nat, valid: seq<bool>, p: nat)
    requires Plannable(data) && IsPlan(data, plan) && IsSubmissionPlan(data, plan, submission)
    requires r < |data.regions| && Ascending(data.regions[r]) && i < |submission.regions[r].jobs|
    requires submission.regions[r].jobs[i] < |plan.jobs| && p in plan.jobs[submission.regions[r].jobs[i]].predecessors
    requires MarksSubmitted(plan, submission.regions[r].jobs[..i], valid)
    ensures PredecessorMarked(plan, submission.regionOfNode, data.regions[r], r, valid, p)
  {
    PlannedEdgesAscend(data, plan, p, submission.regions[r].jobs[i]);
    FirstsIdentifyJobs(data, plan, p);
    if FirstInRegion(plan, data.regions[r], p) {
      PredecessorsAreSubmittedFirst(data, plan, submission, r, i, p);
    }
  }

  /** The planned predecessors; the marks of those in the region are checked and always set. */
  method CollectPlanned(plan: Plan, regionOf: seq<Option<nat>>, region: seq<nat>, r: nat, job: nat, valid: seq<bool>) returns (dependencies: set<Event>)
    requires job < |plan.jobs| && forall p | p in plan.jobs[job].predecessors :: PredecessorMarked(plan, regionOf, region, r, valid, p)
    ensures dependencies == PlannedDependencies(plan, region, job)
  {
    var predecessors := plan.jobs[job].predecessors;
    dependencies := {};
    for index := 0 to |predecessors|
      invariant dependencies == set p | p in predecessors[..index] :: PlannedDependency(plan, region, p)
    {
      var p := predecessors[index];
      assert predecessors[..index + 1] == predecessors[..index] + [p];
      assert PredecessorMarked(plan, regionOf, region, r, valid, p);
      var first := plan.jobs[p].nodes[0];
      assert regionOf[first] == Some(r) ==> valid[first];
      var dependency := if regionOf[first] == Some(r) then Job(p) else Initialization;
      assert dependency == PlannedDependency(plan, region, p);
      dependencies := dependencies + {dependency};
    }
    assert predecessors[..|predecessors|] == predecessors;
  }

  predicate MarksRegion(region: seq<nat>, valid: seq<bool>) {
    forall p {:trigger valid[p]} | 0 <= p < |valid| :: valid[p] <==> p in region
  }

  /** The nodes of the region are those of its jobs. */
  lemma RegionNodesAreMarked(data: Program, plan: Plan, submission: SubmissionPlan, r: nat, valid: seq<bool>)
    requires Plannable(data) && IsPlan(data, plan) && IsSubmissionPlan(data, plan, submission) && r < |data.regions|
    requires MarksSubmitted(plan, submission.regions[r].jobs, valid)
    ensures MarksRegion(data.regions[r], valid)
  {
    JobFacts(data, NodesOf(plan), plan.jobOfNode);
    forall p: nat | p < |valid|
      ensures valid[p] <==> p in data.regions[r]
    {
      if p in data.regions[r] {
        RegionJobOf(data, plan, submission, r, p);
      }
      if valid[p] {
        var j := plan.jobOfNode[p];
        assert p in NodesOf(plan)[j];
        JobsStayInRegions(data, plan, r, j, p);
      }
    }
  }

  /** The temporal predecessors of one node that ran in the iteration before. */
  method CollectTemporal(data: Program, plan: Plan, region: seq<nat>, v: nat, previousValid: seq<bool>) returns (dependencies: set<Event>)
    requires v < |data.nodes| && |previousValid| == |plan.jobOfNode| && MarksRegion(region, previousValid)
    ensures dependencies == TemporalDependencies(data, plan, region, [v])
  {
    var predecessors := data.nodes[v].temporalPredecessors;
    dependencies := {};
    for index := 0 to |predecessors|
      invariant dependencies ==
        set p | p in predecessors[..index] && p in region && p < |plan.jobOfNode| :: Previous(plan.jobOfNode[p])
    {
      var p := predecessors[index];
      assert predecessors[..index + 1] == predecessors[..index] + [p];
      if p < |previousValid| && previousValid[p] {
        dependencies := dependencies + {Previous(plan.jobOfNode[p])};
      }
    }
    assert predecessors[..|predecessors|] == predecessors;
    TemporalOfNode(data, plan, region, v);
  }

  lemma TemporalOfNode(data: Program, plan: Plan, region: seq<nat>, v: nat)
    ensures TemporalDependencies(data, plan, region, [v])
      == set p | p in TemporalPredecessors(data, v) && p in region && p < |plan.jobOfNode| :: Previous(plan.jobOfNode[p])
  {
    assert v in [v] && forall w | w in [v] :: w == v;
  }

  method CollectNode(data: Program, plan: Plan, region: seq<nat>, v: nat, job: nat, previousValid: seq<bool>) returns (dependencies: set<Event>)
    requires v < |data.nodes| == |previousValid| == |plan.jobOfNode| && MarksRegion(region, previousValid) && v in region
    ensures dependencies == PreviousDependencies(data, plan, region, [v], job)
  {
    dependencies := CollectTemporal(data, plan, region, v, previousValid);
    if data.nodes[v].memoized && previousValid[v] {
      dependencies := dependencies + {Previous(job)};
    }
    assert HasMemoized(data, [v]) <==> data.nodes[[v][0]].memoized;
  }

  lemma JobNodesAreInRegion(data: Program, plan: Plan, submission: SubmissionPlan, r: nat, job: nat)
    requires Plannable(data) && IsPlan(data, plan) && IsSubmissionPlan(data, plan, submission) && r < |data.regions|
    requires job in submission.regions[r].jobs
    ensures job < |plan.jobs| && forall i | 0 <= i < |plan.jobs[job].nodes| ::
      plan.jobs[job].nodes[i] in data.regions[r] && plan.jobs[job].nodes[i] < |data.nodes|
  {
    JobFacts(data, NodesOf(plan), plan.jobOfNode);
    forall i | 0 <= i < |plan.jobs[job].nodes|
      ensures plan.jobs[job].nodes[i] in data.regions[r] && plan.jobs[job].nodes[i] < |data.nodes|
    {
      assert plan.jobs[job].nodes[i] in NodesOf(plan)[job];
      JobsStayInRegions(data, plan, r, job, plan.jobs[job].nodes[i]);
    }
  }

  /** What the nodes of a job wait for in the iteration before. */
  method CollectPrevious(data: Program, plan: Plan, region: seq<nat>, nodes: seq<nat>, job: nat, previousValid: seq<bool>)
    returns (dependencies: set<Event>)
    requires |data.nodes| == |previousValid| == |plan.jobOfNode| && MarksRegion(region, previousValid)
    requires forall i | 0 <= i < |nodes| :: nodes[i] in region && nodes[i] < |data.nodes|
    ensures dependencies == PreviousDependencies(data, plan, region, nodes, job)
  {
    dependencies := {};
    for index := 0 to |nodes|
      invariant dependencies == PreviousDependencies(data, plan, region, nodes[..index], job)
    {
      var ofNode := CollectNode(data, plan, region, nodes[index], job, previousValid);
      NextNodeDependencies(data, plan, region, nodes, index, job);
      dependencies := dependencies + ofNode;
    }
    assert nodes[..|nodes|] == nodes;
  }

  lemma NextNodeDependencies(data: Program, plan: Plan, region: seq<nat>, nodes: seq<nat>, index: nat, j: nat)
    requires index < |nodes|
    ensures PreviousDependencies(data, plan, region, nodes[..index + 1], j)
      == PreviousDependencies(data, plan, region, nodes[..index], j) + PreviousDependencies(data, plan, region, [nodes[index]], j)
  {
    var before, one, after := nodes[..index], [nodes[index]], nodes[..index + 1];
    assert after == before + one;
    assert forall v :: v in after <==> v in before || v in one;
    assert TemporalDependencies(data, plan, region, after) == TemporalDependencies(data, plan, region, before) + TemporalDependencies(data, plan, region, one);
    MemoizedInParts(data, before, one);
  }

  lemma MemoizedInParts(data: Program, a: seq<nat>, b: seq<nat>)
    ensures HasMemoized(data, a + b) <==> HasMemoized(data, a) || HasMemoized(data, b)
  {
    if HasMemoized(data, a) {
      var i :| 0 <= i < |a| && a[i] < |data.nodes| && data.nodes[a[i]].memoized;
      assert (a + b)[i] == a[i];
    }
    if HasMemoized(data, b) {
      var i :| 0 <= i < |b| && b[i] < |data.nodes| && data.nodes[b[i]].memoized;
      assert (a + b)[|a| + i] == b[i];
    }
  }

  /** `serialization` holds who accessed each serialized resource last. */
  ghost predicate IsSerialization(data: Program, plan: Plan, c: Context, earlier: seq<nat>, serialization: map<nat, Event>) {
    forall q: nat | q < |data.resources| ::
      && (q in serialization <==> LastAccess(data, plan, c, earlier, q).Some?)
      && (q in serialization ==> Some(serialization[q]) == LastAccess(data, plan, c, earlier, q))
  }

  lemma NodeSerializesInParts(data: Program, nodes: seq<nat>, index: nat, q: nat)
    requires index < |nodes|
    ensures NodesSerialize(data, nodes[..index + 1], q) <==> NodesSerialize(data, nodes[..index], q) || NodeSerializes(data, nodes[index], q)
  {
    var before, after := nodes[..index], nodes[..index + 1];
    if NodesSerialize(data, before, q) {
      var i :| 0 <= i < |before| && NodeSerializes(data, before[i], q);
      assert after[i] == before[i];
    }
    assert after[index] == nodes[index];
  }

  /** The resources that one node accesses serially, unless one is out of range. */
  method SerializedResources(data: Program, v: nat) returns (result: Result<set<nat>>)
    requires v < |data.nodes|
    ensures result.Success? <==> forall q: nat | NodeSerializes(data, v, q) :: q < |data.resources|
    ensures result.Success? ==> forall q: nat :: q in result.value <==> NodeSerializes(data, v, q)
  {
    var accesses := data.nodes[v].accesses;
    var resources: set<nat> := {};
    for index := 0 to |accesses|
      invariant forall q :: q in resources <==>
        exists i | 0 <= i < index :: accesses[i].purpose.Serialization? && accesses[i].resource == q
      invariant forall q | q in resources :: q < |data.resources|
    {
      if accesses[index].purpose.Serialization? {
        var q := accesses[index].resource;
        if q >= |data.resources| {
          assert NodeSerializes(data, v, q);
          return Failure("feedback serialization resource is out of range");
        }
        resources := resources + {q};
      }
    }
    assert forall q: nat :: q in resources <==> NodeSerializes(data, v, q);
    return Success(resources);
  }

  method JobSerializes(data: Program, plan: Plan, job: nat) returns (result: Result<set<nat>>)
    requires job < |plan.jobs| && forall i | 0 <= i < |plan.jobs[job].nodes| :: plan.jobs[job].nodes[i] < |data.nodes|
    ensures result.Success? <==> SerializedInRange(data, plan, job)
    ensures result.Success? ==> forall q: nat :: q in result.value <==> Serializes(data, plan, job, q)
  {
    var nodes := plan.jobs[job].nodes;
    var resources: set<nat> := {};
    for index := 0 to |nodes|
      invariant forall q :: q in resources <==> NodesSerialize(data, nodes[..index], q)
      invariant forall q | q in resources :: q < |data.resources|
    {
      var ofNode := SerializedResources(data, nodes[index]);
      if ofNode.Failure? {
        var q: nat :| NodeSerializes(data, nodes[index], q) && q >= |data.resources|;
        assert Serializes(data, plan, job, q);
        return Failure(ofNode.error);
      }
      forall q: nat
        ensures q in resources + ofNode.value <==> NodesSerialize(data, nodes[..index + 1], q)
      {
        NodeSerializesInParts(data, nodes, index, q);
      }
      resources := resources + ofNode.value;
    }
    assert nodes[..|nodes|] == nodes;
    return Success(resources);
  }

  /** Everything a job waits for, but for storage slots; it fails exactly when a serialized resource is out of range. */
  method CollectDependencies(data: Program, plan: Plan, submission: SubmissionPlan, r: nat, c: Context, i: nat,
                             valid: seq<bool>, previousValid: seq<bool>, serialization: map<nat, Event>)
    returns (result: Result<set<Event>>, serialized: set<nat>)
    requires Plannable(data) && IsPlan(data, plan) && IsSubmissionPlan(data, plan, submission)
    requires r < |data.regions| && Ascending(data.regions[r]) && i < |submission.regions[r].jobs|
    requires MarksSubmitted(plan, submission.regions[r].jobs[..i], valid)
    requires !c.first ==> MarksSubmitted(plan, submission.regions[r].jobs, previousValid)
    requires IsSerialization(data, plan, c, submission.regions[r].jobs[..i], serialization)
    ensures submission.regions[r].jobs[i] < |plan.jobs|
    ensures result.Success? <==> SerializedInRange(data, plan, submission.regions[r].jobs[i])
    ensures result.Success? ==>
      result.value == JobDependencies(data, plan, data.regions[r], c, submission.regions[r].jobs[..i], submission.regions[r].jobs[i])
    ensures result.Success? ==> forall q: nat :: q in serialized <==> Serializes(data, plan, submission.regions[r].jobs[i], q)
  {
    var job := submission.regions[r].jobs[i];
    assert job in submission.regions[r].jobs;
    JobNodesAreInRegion(data, plan, submission, r, job);
    forall p | p in plan.jobs[job].predecessors
      ensures PredecessorMarked(plan, submission.regionOfNode, data.regions[r], r, valid, p)
    {
      PredecessorIsMarked(data, plan, submission, r, i, valid, p);
    }
    var planned := CollectPlanned(plan, submission.regionOfNode, data.regions[r], r, job, valid);
    var earlier := {Initialization};
    if !c.first {
      RegionNodesAreMarked(data, plan, submission, r, previousValid);
      earlier := CollectPrevious(data, plan, data.regions[r], plan.jobs[job].nodes, job, previousValid);
    }
    var resources := JobSerializes(data, plan, job);
    if resources.Failure? {
      return Failure(resources.error), {};
    }
    serialized := resources.value;
    var serial := set q | q in serialized && q in serialization :: serialization[q];
    SerialIsCollected(data, plan, c, submission.regions[r].jobs[..i], job, serialization, serialized);
    return Success(planned + earlier + serial), serialized;
  }

  lemma SerialIsCollected(data: Program, plan: Plan, c: Context, earlier: seq<nat>, job: nat, serialization: map<nat, Event>, serialized: set<nat>)
    requires IsSerialization(data, plan, c, earlier, serialization) && SerializedInRange(data, plan, job)
    requires forall q: nat :: q in serialized <==> Serializes(data, plan, job, q)
    ensures (set q | q in serialized && q in serialization :: serialization[q]) == SerialDependencies(data, plan, c, earlier, job)
  {
    forall q: nat | q in serialized && q in serialization
      ensures serialization[q] in SerialDependencies(data, plan, c, earlier, job)
    {
      assert Some(serialization[q]) == LastAccess(data, plan, c, earlier, q);
    }
  }

  /** A submitted job becomes the last to access what it serializes. */
  lemma SerializationGrows(data: Program, plan: Plan, c: Context, earlier: seq<nat>, job: nat,
                           before: map<nat, Event>, serialized: set<nat>, after: map<nat, Event>)
    requires IsSerialization(data, plan, c, earlier, before)
    requires forall q: nat :: q in serialized <==> Serializes(data, plan, job, q)
    requires after == before + map q | q in serialized :: Job(job)
    ensures IsSerialization(data, plan, c, earlier + [job], after)
  {
    assert (earlier + [job])[..|earlier|] == earlier;
  }

  /** The jobs of all frontier nodes of a resource, unless one lies outside the region or was not submitted. */
  method CollectFrontiers(data: Program, plan: Plan, regionOf: seq<Option<nat>>, r: nat, resource: nat, ghost submitted: seq<nat>, valid: seq<bool>)
    returns (d: Result<set<Event>>)
    requires IsRegionTable(data, regionOf) && r < |data.regions| && resource < |data.resources|
    requires |plan.jobOfNode| == |data.nodes| && MarksSubmitted(plan, submitted, valid)
    ensures d.Success? <==> ReleaseReady(data, plan, data.regions[r], submitted, resource)
    ensures d.Success? ==> d.value == ReleaseDependencies(data, plan, resource)
  {
    var frontiers := data.resources[resource].releaseAfter;
    var dependencies: set<Event> := {};
    for index := 0 to |frontiers|
      invariant forall k | 0 <= k < index :: FrontierSubmitted(plan, data.regions[r], submitted, frontiers[k])
      invariant dependencies == set f | f in frontiers[..index] && f < |plan.jobOfNode| :: Job(plan.jobOfNode[f])
    {
      var f := frontiers[index];
      assert frontiers[..index + 1] == frontiers[..index] + [f];
      assert f in frontiers;
      if f >= |regionOf| || regionOf[f] != Some(r) || !valid[f] {
        return Failure("resource release crosses a feedback region frontier");
      }
      dependencies := dependencies + {Job(plan.jobOfNode[f])};
    }
    assert frontiers[..|frontiers|] == frontiers;
    return Success(dependencies);
  }

  method MarkNodes(data: Program, plan: Plan, ghost submitted: seq<nat>, job: nat, before: seq<bool>) returns (valid: seq<bool>)
    requires IsPlan(data, plan) && job < |plan.jobs| && MarksSubmitted(plan, submitted, before)
    ensures MarksSubmitted(plan, submitted + [job], valid)
  {
    JobFacts(data, NodesOf(plan), plan.jobOfNode);
    var nodes := plan.jobs[job].nodes;
    assert nodes == NodesOf(plan)[job];
    valid := before;
    for index := 0 to |nodes|
      invariant |valid| == |before| && forall v | 0 <= v < |valid| :: valid[v] <==> before[v] || v in nodes[..index]
    {
      assert nodes[..index + 1] == nodes[..index] + [nodes[index]];
      assert nodes[index] in nodes;
      valid := valid[nodes[index] := true];
    }
    assert nodes[..|nodes|] == nodes;
    forall v: nat | v < |valid|
      ensures valid[v] <==> plan.jobOfNode[v] in submitted + [job]
    {
      assert v in nodes <==> plan.jobOfNode[v] == job;
    }
  }

  /** The releases among the first n of a job's list have been recorded. */
  ghost predicate ReleasesRecorded(data: Program, plan: Plan, before: Record, job: nat, n: nat, record: Record)
    requires job < |plan.jobs| && n <= |plan.jobs[job].releasedResources|
  {
    && (forall e: Event | !e.Release? :: (e in record <==> e in before) && (e in before ==> record[e] == before[e]))
    && (forall r: nat :: Release(r) in record <==> Release(r) in before || r in plan.jobs[job].releasedResources[..n])
    && (forall r: nat | Release(r) in record :: r < |data.resources| && record[Release(r)] == ReleaseDependencies(data, plan, r))
  }

  /** Submits the releases that follow a job; the guard refuses one whose frontier jobs are not all submitted. */
  method SubmitReleases(data: Program, plan: Plan, regionOf: seq<Option<nat>>, r: nat, job: nat, ghost submitted: seq<nat>, valid: seq<bool>, before: Record)
    returns (result: Result<Record>)
    requires IsPlan(data, plan) && IsRegionTable(data, regionOf) && r < |data.regions| && job < |plan.jobs|
    requires MarksSubmitted(plan, submitted, valid)
    requires forall q: nat | Release(q) in before :: q < |data.resources| && before[Release(q)] == ReleaseDependencies(data, plan, q)
    ensures result.Success? <==> ReleasesReady(data, plan, data.regions[r], submitted, job)
    ensures result.Success? ==> ReleasesRecorded(data, plan, before, job, |plan.jobs[job].releasedResources|, result.value)
  {
    var released := plan.jobs[job].releasedResources;
    assert IsReleaseList(data, plan.jobOfNode, job, released);
    var record := before;
    for index := 0 to |released|
      invariant ReleasesRecorded(data, plan, before, job, index, record)
      invariant forall k | 0 <= k < index ::
        released[k] < |data.resources| && ReleaseReady(data, plan, data.regions[r], submitted, released[k])
    {
      var resource := released[index];
      assert resource in released;
      assert released[..index + 1] == released[..index] + [resource];
      var dependencies := CollectFrontiers(data, plan, regionOf, r, resource, submitted, valid);
      if dependencies.Failure? {
        return Failure(dependencies.error);
      }
      record := record[Release(resource) := dependencies.value];
    }
    assert released[..|released|] == released;
    return Success(record);
  }

  /** One more job: the record grows by the job and its releases. */
  lemma JobExtendsRecord(data: Program, plan: Plan, region: seq<nat>, c: Context, jobs: seq<nat>, job: nat, before: Record, after: Record)
    requires IsRecordOf(data, plan, region, c, jobs, before) && job < |plan.jobs| && job !in jobs
    requires ReleasesRecorded(data, plan, before[Job(job) := JobDependencies(data, plan, region, c, jobs, job)], job, |plan.jobs[job].releasedResources|, after)
    ensures IsRecordOf(data, plan, region, c, jobs + [job], after)
  {
    var longer := jobs + [job];
    forall i: nat | i < |longer|
      ensures Job(longer[i]) in after && JobRecorded(data, plan, region, c, longer, after, i)
    {
      if i < |jobs| {
        assert longer[..i] == jobs[..i] && JobRecorded(data, plan, region, c, jobs, before, i);
        assert longer[i] == jobs[i] && jobs[i] in jobs;
      } else {
        assert longer[..i] == jobs;
      }
    }
    JobExtendsReleases(data, plan, region, c, jobs, job, before, after);
  }

  lemma JobExtendsReleases(data: Program, plan: Plan, region: seq<nat>, c: Context, jobs: seq<nat>, job: nat, before: Record, after: Record)
    requires IsRecordOf(data, plan, region, c, jobs, before) && job < |plan.jobs|
    requires ReleasesRecorded(data, plan, before[Job(job) := JobDependencies(data, plan, region, c, jobs, job)], job, |plan.jobs[job].releasedResources|, after)
    ensures forall r: nat :: Release(r) in after <==> ReleasedBy(plan, jobs + [job], r)
  {
    var released := plan.jobs[job].releasedResources;
    assert released[..|released|] == released;
    forall r: nat
      ensures ReleasedBy(plan, jobs + [job], r) <==> ReleasedBy(plan, jobs, r) || r in released
    {
      if ReleasedBy(plan, jobs, r) {
        var i :| 0 <= i < |jobs| && jobs[i] < |plan.jobs| && r in plan.jobs[jobs[i]].releasedResources;
        assert (jobs + [job])[i] == jobs[i];
      }
      if r in released {
        assert (jobs + [job])[|jobs|] == job;
      }
    }
  }

  /** What holds once the first i jobs of the region have been submitted. */
  ghost predicate SubmittedUpTo(data: Program, plan: Plan, region: seq<nat>, c: Context, jobs: seq<nat>,
                                record: Record, valid: seq<bool>, serialization: map<nat, Event>)
  {
    && IsRecordOf(data, plan, region, c, jobs, record) && Finish !in record
    && MarksSubmitted(plan, jobs, valid)
    && IsSerialization(data, plan, c, jobs, serialization)
  }

  /** A submitted job marks its nodes, and its releases are submitted after it. */
  method RecordJob(data: Program, plan: Plan, regionOf: seq<Option<nat>>, r: nat, ghost c: Context, ghost earlier: seq<nat>, job: nat,
                   record: Record, dependencies: set<Event>, valid: seq<bool>)
    returns (result: Result<Record>, valid': seq<bool>)
    requires IsPlan(data, plan) && IsRegionTable(data, regionOf) && r < |data.regions| && job < |plan.jobs| && job !in earlier
    requires IsRecordOf(data, plan, data.regions[r], c, earlier, record) && Finish !in record && MarksSubmitted(plan, earlier, valid)
    requires dependencies == JobDependencies(data, plan, data.regions[r], c, earlier, job)
    ensures MarksSubmitted(plan, earlier + [job], valid')
    ensures result.Success? <==> ReleasesReady(data, plan, data.regions[r], earlier + [job], job)
    ensures result.Success? ==> IsRecordOf(data, plan, data.regions[r], c, earlier + [job], result.value) && Finish !in result.value
  {
    valid' := MarkNodes(data, plan, earlier, job, valid);
    result := SubmitReleases(data, plan, regionOf, r, job, earlier + [job], valid', record[Job(job) := dependencies]);
    if result.Success? {
      JobExtendsRecord(data, plan, data.regions[r], c, earlier, job, record, result.value);
    }
  }

  method SubmitJob(data: Program, plan: Plan, submission: SubmissionPlan, r: nat, c: Context, i: nat, previousValid: seq<bool>,
                   record: Record, valid: seq<bool>, serialization: map<nat, Event>)
    returns (result: Result<Record>, valid': seq<bool>, serialization': map<nat, Event>)
    requires Plannable(data) && IsPlan(data, plan) && IsSubmissionPlan(data, plan, submission)
    requires r < |data.regions| && Ascending(data.regions[r]) && i < |submission.regions[r].jobs|
    requires !c.first ==> MarksSubmitted(plan, submission.regions[r].jobs, previousValid)
    requires SubmittedUpTo(data, plan, data.regions[r], c, submission.regions[r].jobs[..i], record, valid, serialization)
    ensures submission.regions[r].jobs[i] < |plan.jobs|
    ensures result.Success? <==>
      && SerializedInRange(data, plan, submission.regions[r].jobs[i])
      && ReleasesReady(data, plan, data.regions[r], submission.regions[r].jobs[..i + 1], submission.regions[r].jobs[i])
    ensures result.Success? ==>
      SubmittedUpTo(data, plan, data.regions[r], c, submission.regions[r].jobs[..i + 1], result.value, valid', serialization')
  {
    var jobs := submission.regions[r].jobs;
    var job := jobs[i];
    valid', serialization' := valid, serialization;
    var dependencies, serialized := CollectDependencies(data, plan, submission, r, c, i, valid, previousValid, serialization);
    if dependencies.Failure? {
      return Failure(dependencies.error), valid', serialization';
    }
    assert jobs[..i + 1] == jobs[..i] + [job] && job !in jobs[..i];
    serialization' := serialization + map q | q in serialized :: Job(job);
    SerializationGrows(data, plan, c, jobs[..i], job, serialization, serialized, serialization');
    result, valid' := RecordJob(data, plan, submission.regionOfNode, r, c, jobs[..i], job, record, dependencies.value, valid);
  }

  /**
   * Submits one iteration of a region. It succeeds exactly when no release comes
   * before one of its frontier jobs or crosses the region, and serialized resources
   * are in range; the planned predecessors in the region always have been submitted.
   * The marks of the submitted nodes are what the next iteration starts from.
   */
  method SubmitIteration(data: Program, plan: Plan, submission: SubmissionPlan, r: nat, c: Context, previousValid: seq<bool>)
    returns (result: Result<Record>, valid: seq<bool>)
    requires Plannable(data) && IsPlan(data, plan) && IsSubmissionPlan(data, plan, submission)
    requires r < |data.regions| && Ascending(data.regions[r])
    requires !c.first ==> MarksSubmitted(plan, submission.regions[r].jobs, previousValid)
    ensures result.Success? <==>
      && AllReleasesReady(data, plan, data.regions[r], submission.regions[r].jobs)
      && forall i | 0 <= i < |submission.regions[r].jobs| :: SerializedInRange(data, plan, submission.regions[r].jobs[i])
    ensures result.Success? ==> IsWholeRecord(data, plan, data.regions[r], c, submission.regions[r], result.value)
    ensures result.Success? ==> MarksSubmitted(plan, submission.regions[r].jobs, valid)
  {
    var jobs := submission.regions[r].jobs;
    var record: Record := map[];
    var serialization := map q | q in c.serialized :: Serialized(q);
    valid := seq(|plan.jobOfNode|, _ => false);
    for i := 0 to |jobs|
      invariant SubmittedUpTo(data, plan, data.regions[r], c, jobs[..i], record, valid, serialization)
      invariant forall k | 0 <= k < i :: jobs[k] < |plan.jobs| && ReleasesReady(data, plan, data.regions[r], jobs[..k + 1], jobs[k])
      invariant forall k | 0 <= k < i :: SerializedInRange(data, plan, jobs[k])
    {
      var next;
      next, valid, serialization := SubmitJob(data, plan, submission, r, c, i, previousValid, record, valid, serialization);
      if next.Failure? {
        return Failure(next.error), valid;
      }
      record := next.value;
    }
    assert jobs[..|jobs|] == jobs;
    var finish := CollectFinish(submission.regions[r].terminalJobs, record);
    assert record[Finish := finish] - {Finish} == record;
    FinishCompletesRecord(data, plan, data.regions[r], c, jobs, record, finish);
    return Success(record[Finish := finish]), valid;
  }

  lemma FinishCompletesRecord(data: Program, plan: Plan, region: seq<nat>, c: Context, jobs: seq<nat>, record: Record, finish: set<Event>)
    requires IsRecordOf(data, plan, region, c, jobs, record)
    ensures IsRecordOf(data, plan, region, c, jobs, record[Finish := finish])
  {
    var whole := record[Finish := finish];
    forall i: nat | i < |jobs|
      ensures Job(jobs[i]) in whole && JobRecorded(data, plan, region, c, jobs, whole, i)
    {
      assert jobs[i] in jobs && JobRecorded(data, plan, region, c, jobs, record, i);
    }
  }

  method CollectFinish(terminalJobs: seq<nat>, record: Record) returns (dependencies: set<Event>)
    ensures dependencies == FinishDependencies(terminalJobs, record)
  {
    var releases := set e | e in record && e.Release?;
    dependencies := releases;
    for index := 0 to |terminalJobs|
      invariant dependencies == releases + set t | t in terminalJobs[..index] :: Job(t)
    {
      assert terminalJobs[..index + 1] == terminalJobs[..index] + [terminalJobs[index]];
      dependencies := dependencies + {Job(terminalJobs[index])};
    }
    assert terminalJobs[..|terminalJobs|] == terminalJobs;
  }

  // ---------------------------------------------------------------------
  // What the scheduler makes of the record

  /** An order of all recorded jobs in which each waits for what it depends on. */
  ghost predicate RespectsRecord(record: Record, order: seq<Event>) {
    && NoDuplicates(order)
    && (forall e | e in record :: e in order)
    && forall e, d | e in record && d in record[e] :: Before(order, d, e)
  }

  lemma WaitsForDependency(data: Program, plan: Plan, region: seq<nat>, c: Context, regionPlan: RegionPlan, record: Record, order: seq<Event>, i: nat, d: Event)
    requires IsWholeRecord(data, plan, region, c, regionPlan, record) && RespectsRecord(record, order)
    requires i < |regionPlan.jobs| && regionPlan.jobs[i] < |plan.jobs|
    requires d in JobDependencies(data, plan, region, c, regionPlan.jobs[..i], regionPlan.jobs[i])
    ensures Before(order, d, Job(regionPlan.jobs[i]))
  {
    assert regionPlan.jobs[i] in regionPlan.jobs;
    assert JobRecorded(data, plan, region, c, regionPlan.jobs, record, i);
  }

  /** Every order in which the scheduler may run a submitted iteration is an iteration of the region. */
  lemma RecordGivesIteration(data: Program, plan: Plan, submission: SubmissionPlan, r: nat, c: Context, record: Record, order: seq<Event>)
    requires Plannable(data) && IsPlan(data, plan) && IsSubmissionPlan(data, plan, submission) && r < |data.regions|
    requires IsWholeRecord(data, plan, data.regions[r], c, submission.regions[r], record) && RespectsRecord(record, order)
    ensures IsIteration(data, plan, submission.regions[r], order)
  {
    var regionPlan := submission.regions[r];
    forall j: nat, k: nat | j in regionPlan.jobs && k in regionPlan.jobs && k < |plan.jobs| && j in plan.jobs[k].predecessors
      ensures Before(order, Job(j), Job(k))
    {
      var i: nat :| i < |regionPlan.jobs| && regionPlan.jobs[i] == k;
      assert PlannedDependency(plan, data.regions[r], j) == Job(j);
      WaitsForDependency(data, plan, data.regions[r], c, regionPlan, record, order, i, Job(j));
    }
    forall j: nat, q: nat | j < |plan.jobs| && j in regionPlan.jobs && q in plan.jobs[j].releasedResources
      ensures q < |data.resources| && Before(order, Release(q), Finish)
      ensures forall f | f in data.resources[q].releaseAfter && f < |plan.jobOfNode| :: Before(order, Job(plan.jobOfNode[f]), Release(q))
    {
      ReleaseWaits(data, plan, data.regions[r], c, regionPlan, record, order, j, q);
    }
  }

  lemma ReleaseWaits(data: Program, plan: Plan, region: seq<nat>, c: Context, regionPlan: RegionPlan, record: Record, order: seq<Event>, j: nat, q: nat)
    requires IsWholeRecord(data, plan, region, c, regionPlan, record) && RespectsRecord(record, order)
    requires j < |plan.jobs| && j in regionPlan.jobs && q in plan.jobs[j].releasedResources
    ensures q < |data.resources| && Before(order, Release(q), Finish)
    ensures forall f | f in data.resources[q].releaseAfter && f < |plan.jobOfNode| :: Before(order, Job(plan.jobOfNode[f]), Release(q))
  {
    var i :| 0 <= i < |regionPlan.jobs| && regionPlan.jobs[i] == j;
    assert ReleasedBy(plan, regionPlan.jobs, q);
    forall f | f in data.resources[q].releaseAfter && f < |plan.jobOfNode|
      ensures Before(order, Job(plan.jobOfNode[f]), Release(q))
    {
      assert Job(plan.jobOfNode[f]) in ReleaseDependencies(data, plan, q);
    }
  }

  /**
   * However the scheduler orders a submitted iteration of a convex region, the
   * activation is finished only after the job of every node of the region, and
   * jobs run after the jobs their nodes depend on.
   */
  lemma SubmittedIterationIsOrdered(
      data: Program, plan: Plan, submission: SubmissionPlan, r: nat, c: Context, record: Record, order: seq<Event>, u: nat, v: nat)
    requires Plannable(data) && IsPlan(data, plan) && IsSubmissionPlan(data, plan, submission) && r < |data.regions|
    requires Convex(data, data.regions[r])
    requires IsWholeRecord(data, plan, data.regions[r], c, submission.regions[r], record) && RespectsRecord(record, order)
    requires v in data.regions[r]
    ensures v < |plan.jobOfNode| && Before(order, Job(plan.jobOfNode[v]), Finish)
    ensures u in data.regions[r] && Depends(data, u, v) ==>
      plan.jobOfNode[u] == plan.jobOfNode[v] || Before(order, Job(plan.jobOfNode[u]), Job(plan.jobOfNode[v]))
  {
    RecordGivesIteration(data, plan, submission, r, c, record, order);
    FinishFollowsRegion(data, plan, submission, r, order, v);
    if u in data.regions[r] && Depends(data, u, v) {
      IterationRespectsDependencies(data, plan, submission, r, order, u, v);
    }
  }

  /**
   * What links iterations: the first waits for the initialization; in a later one a
   * job runs after the temporal predecessors of its nodes and, if it has a memoized
   * node, after itself in the iteration before.
   */
  lemma IterationFollowsEarlier(
      data: Program, plan: Plan, submission: SubmissionPlan, r: nat, c: Context, record: Record, order: seq<Event>, v: nat)
    requires Plannable(data) && IsPlan(data, plan) && IsSubmissionPlan(data, plan, submission) && r < |data.regions|
    requires IsWholeRecord(data, plan, data.regions[r], c, submission.regions[r], record) && RespectsRecord(record, order)
    requires v in data.regions[r]
    ensures v < |plan.jobOfNode| && v < |data.nodes|
    ensures c.first ==> Before(order, Initialization, Job(plan.jobOfNode[v]))
    ensures !c.first && data.nodes[v].memoized ==> Before(order, Previous(plan.jobOfNode[v]), Job(plan.jobOfNode[v]))
    ensures !c.first ==> forall p | p in data.nodes[v].temporalPredecessors && p in data.regions[r] && p < |plan.jobOfNode| ::
      Before(order, Previous(plan.jobOfNode[p]), Job(plan.jobOfNode[v]))
  {
    RegionJobOf(data, plan, submission, r, v);
    var regionPlan, j := submission.regions[r], plan.jobOfNode[v];
    var i: nat :| i < |regionPlan.jobs| && regionPlan.jobs[i] == j;
    var nodes := plan.jobs[j].nodes;
    if c.first {
      WaitsForDependency(data, plan, data.regions[r], c, regionPlan, record, order, i, Initialization);
    } else {
      if data.nodes[v].memoized {
        assert HasMemoized(data, nodes);
        WaitsForDependency(data, plan, data.regions[r], c, regionPlan, record, order, i, Previous(j));
      }
      forall p | p in data.nodes[v].temporalPredecessors && p in data.regions[r] && p < |plan.jobOfNode|
        ensures Before(order, Previous(plan.jobOfNode[p]), Job(j))
      {
        assert p in TemporalPredecessors(data, v);
        assert Previous(plan.jobOfNode[p]) in TemporalDependencies(data, plan, data.regions[r], nodes);
        WaitsForDependency(data, plan, data.regions[r], c, regionPlan, record, order, i, Previous(plan.jobOfNode[p]));
      }
    }
  }

  /** Every planned edge to a job of the region orders it, edges from outside after the initialization. */
  ghost predicate EdgesAreOrdered(g: Adjacency, jobs: seq<nat>, order: seq<Event>) {
    forall j: nat, k: nat {:trigger Edge(g, j, k)} | Edge(g, j, k) && k in jobs ::
      Before(order, if j in jobs then Job(j) else Initialization, Job(k))
  }

  lemma PlannedEdgeIsOrdered(
      data: Program, plan: Plan, submission: SubmissionPlan, r: nat, c: Context, record: Record, order: seq<Event>, j: nat, k: nat)
    requires Plannable(data) && IsPlan(data, plan) && IsSubmissionPlan(data, plan, submission) && r < |data.regions|
    requires IsWholeRecord(data, plan, data.regions[r], c, submission.regions[r], record) && RespectsRecord(record, order)
    requires Edge(SuccessorsOf(plan), j, k) && k in submission.regions[r].jobs
    ensures Before(order, if j in submission.regions[r].jobs then Job(j) else Initialization, Job(k))
  {
    var regionPlan, d := submission.regions[r], PlannedDependency(plan, data.regions[r], j);
    var i: nat :| i < |regionPlan.jobs| && regionPlan.jobs[i] == k;
    assert j in PredecessorsOf(plan)[k];
    FirstsIdentifyJobs(data, plan, j);
    assert d in PlannedDependencies(plan, data.regions[r], k);
    WaitsForDependency(data, plan, data.regions[r], c, regionPlan, record, order, i, d);
  }

  /** A path that enters the region orders its end after the initialization. */
  lemma {:induction false} PathFromOutside(g: Adjacency, jobs: seq<nat>, order: seq<Event>, p: seq<nat>, j: nat, k: nat)
    requires EdgesAreOrdered(g, jobs, order) && NoDuplicates(order)
    requires IsPath(g, p, j, k) && j !in jobs && k in jobs
    ensures Before(order, Initialization, Job(k))
    decreases |p|
  {
    var last := p[|p| - 2];
    assert Edge(g, last, p[|p| - 1]);
    if last in jobs {
      assert IsPath(g, p[..|p| - 1], j, last);
      PathFromOutside(g, jobs, order, p[..|p| - 1], j, last);
      BeforeTransitive(order, Initialization, Job(last), Job(k));
    }
  }

  /** What a node depends on, directly or not, its job depends on. */
  lemma AncestorsJoinJobs(data: Program, plan: Plan, u: nat, v: nat)
    requires Plannable(data) && IsPlan(data, plan) && Ancestor(data, u, v)
    ensures u < |plan.jobOfNode| && v < |plan.jobOfNode| && Reaches(SuccessorsOf(plan), plan.jobOfNode[u], plan.jobOfNode[v])
  {
    var quotient := QuotientFacts(data, plan);
    var p :| IsPath(NodeGraph(data), p, u, v);
    NodePathJoinsJobs(data, NodesOf(plan), plan.jobOfNode, quotient, p, u, v);
    ReducedReaches(quotient, plan.jobOfNode[u], plan.jobOfNode[v]);
  }

  /**
   * In every iteration, a node that depends, directly or not, on a node outside the
   * region runs after the initialization.
   */
  lemma OutsideFollowsInitialization(
      data: Program, plan: Plan, submission: SubmissionPlan, r: nat, c: Context, record: Record, order: seq<Event>, u: nat, v: nat)
    requires Plannable(data) && IsPlan(data, plan) && IsSubmissionPlan(data, plan, submission) && r < |data.regions|
    requires IsWholeRecord(data, plan, data.regions[r], c, submission.regions[r], record) && RespectsRecord(record, order)
    requires u !in data.regions[r] && v in data.regions[r] && Ancestor(data, u, v)
    ensures v < |plan.jobOfNode| && Before(order, Initialization, Job(plan.jobOfNode[v]))
  {
    AncestorsJoinJobs(data, plan, u, v);
    RegionJobOf(data, plan, submission, r, v);
    JobFacts(data, NodesOf(plan), plan.jobOfNode);
    var j, k := plan.jobOfNode[u], plan.jobOfNode[v];
    assert u in NodesOf(plan)[j];
    JobsStayInRegions(data, plan, r, j, u);
    forall x: nat, y: nat | Edge(SuccessorsOf(plan), x, y) && y in submission.regions[r].jobs
      ensures Before(order, if x in submission.regions[r].jobs then Job(x) else Initialization, Job(y))
    {
      PlannedEdgeIsOrdered(data, plan, submission, r, c, record, order, x, y);
    }
    var p :| IsPath(SuccessorsOf(plan), p, j, k);
    PathFromOutside(SuccessorsOf(plan), submission.regions[r].jobs, order, p, j, k);
  }

  /** What a recorded job may wait for. */
  predicate IsOwnEvent(jobs: seq<nat>, d: Event) {
    match d
    case Job(j) => j in jobs
    case Previous(j) => j in jobs
    case Initialization => true
    case Serialized(_) => true
    case _ => false
  }

  /**
   * Nothing else orders a job after another region: it waits for jobs of its own
   * region in this iteration or the one before, for the initialization, and for
   * whoever accessed a serialized resource last. A dependency on a node of another
   * region counts as one on the initialization.
   */
  lemma JobsWaitForOwnRegion(
      data: Program, plan: Plan, submission: SubmissionPlan, r: nat, c: Context, record: Record, i: nat, d: Event)
    requires Plannable(data) && IsPlan(data, plan) && IsSubmissionPlan(data, plan, submission) && r < |data.regions|
    requires IsWholeRecord(data, plan, data.regions[r], c, submission.regions[r], record) && i < |submission.regions[r].jobs|
    requires Job(submission.regions[r].jobs[i]) in record && d in record[Job(submission.regions[r].jobs[i])]
    ensures IsOwnEvent(submission.regions[r].jobs, d)
  {
    var region, jobs := data.regions[r], submission.regions[r].jobs;
    assert jobs[i] in jobs && JobRecorded(data, plan, region, c, jobs, record, i);
    if d in PlannedDependencies(plan, region, jobs[i]) {
      PlannedAreCovered(plan, region, jobs, jobs[i], d);
    } else if d in SerialDependencies(data, plan, c, jobs[..i], jobs[i]) {
      SerialIsOwn(data, plan, c, jobs, i, d);
    } else {
      EarlierIsOwn(data, plan, submission, r, c, jobs[i], d);
    }
  }

  lemma SerialIsOwn(data: Program, plan: Plan, c: Context, jobs: seq<nat>, i: nat, d: Event)
    requires i < |jobs| && d in SerialDependencies(data, plan, c, jobs[..i], jobs[i])
    ensures IsOwnEvent(jobs, d)
  {
    var q :| 0 <= q < |data.resources| && LastAccess(data, plan, c, jobs[..i], q) == Some(d);
    LastAccessIsOwn(data, plan, c, jobs[..i], q);
  }

  lemma EarlierIsOwn(data: Program, plan: Plan, submission: SubmissionPlan, r: nat, c: Context, j: nat, d: Event)
    requires Plannable(data) && IsPlan(data, plan) && IsSubmissionPlan(data, plan, submission) && r < |data.regions|
    requires j in submission.regions[r].jobs && j < |plan.jobs| && d in EarlierDependencies(data, plan, data.regions[r], c, j)
    ensures IsOwnEvent(submission.regions[r].jobs, d)
  {
    if !c.first && d != Previous(j) {
      var v, p :| v in plan.jobs[j].nodes && p in TemporalPredecessors(data, v) && p in data.regions[r]
        && p < |plan.jobOfNode| && d == Previous(plan.jobOfNode[p]);
      RegionJobOf(data, plan, submission, r, p);
    }
  }

  lemma {:induction false} LastAccessIsOwn(data: Program, plan: Plan, c: Context, jobs: seq<nat>, q: nat)
    requires LastAccess(data, plan, c, jobs, q).Some?
    ensures var e := LastAccess(data, plan, c, jobs, q).value; e.Serialized? || (e.Job? && e.job in jobs)
  {
    if jobs != [] {
      var last := |jobs| - 1;
      assert jobs == jobs[..last] + [jobs[last]];
      if !Serializes(data, plan, jobs[last], q) {
        LastAccessIsOwn(data, plan, c, jobs[..last], q);
      }
    }
  }

  /** The job that accessed the resource last comes no earlier than any given one that accesses it. */
  lemma {:induction false} LastAccessFollows(data: Program, plan: Plan, c: Context, jobs: seq<nat>, i: nat, q: nat) returns (m: nat)
    requires i < |jobs| && Serializes(data, plan, jobs[i], q)
    ensures i <= m < |jobs| && Serializes(data, plan, jobs[m], q) && LastAccess(data, plan, c, jobs, q) == Some(Job(jobs[m]))
  {
    var last := |jobs| - 1;
    if Serializes(data, plan, jobs[last], q) {
      m := last;
    } else {
      m := LastAccessFollows(data, plan, c, jobs[..last], i, q);
    }
  }

  /** Two jobs of an iteration that access the same serialized resource run in the order of submission. */
  lemma {:induction false} SerializedJobsAreOrdered(
      data: Program, plan: Plan, region: seq<nat>, c: Context, regionPlan: RegionPlan, record: Record, order: seq<Event>, i: nat, k: nat, q: nat)
    requires IsWholeRecord(data, plan, region, c, regionPlan, record) && RespectsRecord(record, order)
    requires i < k < |regionPlan.jobs| && q < |data.resources|
    requires Serializes(data, plan, regionPlan.jobs[i], q) && Serializes(data, plan, regionPlan.jobs[k], q)
    ensures Before(order, Job(regionPlan.jobs[i]), Job(regionPlan.jobs[k]))
    decreases k
  {
    var jobs := regionPlan.jobs;
    var m := LastAccessFollows(data, plan, c, jobs[..k], i, q);
    assert Job(jobs[m]) in SerialDependencies(data, plan, c, jobs[..k], jobs[k]);
    WaitsForDependency(data, plan, region, c, regionPlan, record, order, k, Job(jobs[m]));
    if i < m {
      SerializedJobsAreOrdered(data, plan, region, c, regionPlan, record, order, i, m, q);
      BeforeTransitive(order, Job(jobs[i]), Job(jobs[m]), Job(jobs[k]));
    }
  }

  /** And after whoever accessed it before the iteration was submitted. */
  lemma {:induction false} SerializedFollowsEarlier(
      data: Program, plan: Plan, region: seq<nat>, c: Context, regionPlan: RegionPlan, record: Record, order: seq<Event>, k: nat, q: nat)
    requires IsWholeRecord(data, plan, region, c, regionPlan, record) && RespectsRecord(record, order)
    requires k < |regionPlan.jobs| && q < |data.resources| && q in c.serialized && Serializes(data, plan, regionPlan.jobs[k], q)
    ensures Before(order, Serialized(q), Job(regionPlan.jobs[k]))
    decreases k
  {
    var jobs := regionPlan.jobs;
    if i: nat :| i < k && Serializes(data, plan, jobs[i], q) {
      SerializedFollowsEarlier(data, plan, region, c, regionPlan, record, order, i, q);
      SerializedJobsAreOrdered(data, plan, region, c, regionPlan, record, order, i, k, q);
      BeforeTransitive(order, Serialized(q), Job(jobs[i]), Job(jobs[k]));
    } else {
      FirstAccess(data, plan, c, jobs[..k], q);
      assert Serialized(q) in SerialDependencies(data, plan, c, jobs[..k], jobs[k]);
      WaitsForDependency(data, plan, region, c, regionPlan, record, order, k, Serialized(q));
    }
  }

  lemma {:induction false} FirstAccess(data: Program, plan: Plan, c: Context, jobs: seq<nat>, q: nat)
    requires q in c.serialized && forall i: nat | i < |jobs| :: !Serializes(data, plan, jobs[i], q)
    ensures LastAccess(data, plan, c, jobs, q) == Some(Serialized(q))
  {
    if jobs != [] {
      FirstAccess(data, plan, c, jobs[..|jobs| - 1], q);
    }
  }

  // ---------------------------------------------------------------------
  // The dependencies fit the planned capacity

  /** A region has no more jobs than nodes. */
  lemma RegionJobCount(data: Program, plan: Plan, submission: SubmissionPlan, r: nat)
    requires Plannable(data) && IsPlan(data, plan) && IsSubmissionPlan(data, plan, submission) && r < |data.regions|
    ensures |submission.regions[r].jobs| <= |data.regions[r]|
  {
    var jobs := submission.regions[r].jobs;
    assert forall i | 0 <= i < |jobs| :: jobs[i] in jobs;
    var firsts := seq(|jobs|, i requires 0 <= i < |jobs| => First(plan.jobs[jobs[i]].nodes));
    forall i, k | 0 <= i < k < |firsts|
      ensures firsts[i] != firsts[k]
    {
      FirstsIdentifyJobs(data, plan, jobs[i]);
      FirstsIdentifyJobs(data, plan, jobs[k]);
    }
    DistinctFit(firsts, data.regions[r]);
  }

  function JobEvents(jobs: seq<nat>): (events: seq<Event>)
    ensures |events| == |jobs| && (forall j | j in jobs :: Job(j) in events)
    ensures forall e | e in events :: e.Job? && e.job in jobs
  {
    var events := seq(|jobs|, i requires 0 <= i < |jobs| => Job(jobs[i]));
    assert forall i | 0 <= i < |jobs| :: events[i] == Job(jobs[i]);
    events
  }

  function AllReleases(resources: nat): (events: seq<Event>)
    ensures |events| == resources && forall q: nat | q < resources :: Release(q) in events
  {
    if resources == 0 then [] else AllReleases(resources - 1) + [Release(resources - 1)]
  }

  lemma TerminalJobCount(data: Program, plan: Plan, submission: SubmissionPlan, r: nat)
    requires Plannable(data) && IsPlan(data, plan) && IsSubmissionPlan(data, plan, submission) && r < |data.regions|
    ensures |submission.regions[r].terminalJobs| <= |data.regions[r]|
  {
    var regionPlan := submission.regions[r];
    forall t | t in regionPlan.terminalJobs
      ensures t in regionPlan.jobs
    {
      var v: nat :| IsTerminal(data, data.regions[r], v) && v < |plan.jobOfNode| && plan.jobOfNode[v] == t;
      RegionJobOf(data, plan, submission, r, v);
    }
    DistinctFit(regionPlan.terminalJobs, regionPlan.jobs);
    RegionJobCount(data, plan, submission, r);
  }

  lemma FinishCount(data: Program, plan: Plan, region: seq<nat>, c: Context, regionPlan: RegionPlan, record: Record)
    requires IsWholeRecord(data, plan, region, c, regionPlan, record)
    ensures |record[Finish]| <= |regionPlan.terminalJobs| + |data.resources|
  {
    CoveredCount(record[Finish], JobEvents(regionPlan.terminalJobs) + AllReleases(|data.resources|));
  }

  /** The finish waits for no more than one job for each node of the region and one release for each resource. */
  lemma FinishFits(data: Program, plan: Plan, submission: SubmissionPlan, r: nat, c: Context, record: Record)
    requires Plannable(data) && IsPlan(data, plan) && IsSubmissionPlan(data, plan, submission) && r < |data.regions|
    requires IsWholeRecord(data, plan, data.regions[r], c, submission.regions[r], record)
    ensures |record[Finish]| <= submission.regions[r].dependencyCapacity
  {
    TerminalJobCount(data, plan, submission, r);
    FinishCount(data, plan, data.regions[r], c, submission.regions[r], record);
  }

  lemma ReleaseFits(data: Program, plan: Plan, submission: SubmissionPlan, r: nat, submitted: seq<nat>, q: nat)
    requires Plannable(data) && IsPlan(data, plan) && IsSubmissionPlan(data, plan, submission) && r < |data.regions|
    requires q < |data.resources| && ReleaseReady(data, plan, data.regions[r], submitted, q)
    ensures |ReleaseDependencies(data, plan, q)| <= submission.regions[r].dependencyCapacity
  {
    var jobs := submission.regions[r].jobs;
    forall f | f in data.resources[q].releaseAfter && f < |plan.jobOfNode|
      ensures Job(plan.jobOfNode[f]) in JobEvents(jobs)
    {
      assert FrontierSubmitted(plan, data.regions[r], submitted, f);
      RegionJobOf(data, plan, submission, r, f);
    }
    RegionJobCount(data, plan, submission, r);
    CoveredCount(ReleaseDependencies(data, plan, q), JobEvents(jobs));
  }

  function PreviousEvents(plan: Plan, predecessors: seq<nat>): (events: seq<Event>)
    ensures |events| == |predecessors|
    ensures forall p | p in predecessors && p < |plan.jobOfNode| :: Previous(plan.jobOfNode[p]) in events
  {
    var events := seq(|predecessors|, i requires 0 <= i < |predecessors| =>
      if predecessors[i] < |plan.jobOfNode| then Previous(plan.jobOfNode[predecessors[i]]) else Finish);
    assert forall i | 0 <= i < |predecessors| && predecessors[i] < |plan.jobOfNode| :: events[i] == Previous(plan.jobOfNode[predecessors[i]]);
    events
  }

  /** Everything the nodes may wait for in the iteration before. */
  function NodeEvents(data: Program, plan: Plan, nodes: seq<nat>, j: nat): (events: seq<Event>)
    ensures |events| == TemporalRoom(data, nodes)
  {
    if nodes == [] then []
    else
      NodeEvents(data, plan, nodes[..|nodes| - 1], j)
      + PreviousEvents(plan, TemporalPredecessors(data, nodes[|nodes| - 1])) + [Previous(j)]
  }

  lemma {:induction false} NodeEventsCover(data: Program, plan: Plan, region: seq<nat>, nodes: seq<nat>, j: nat, e: Event)
    requires nodes != [] && e in PreviousDependencies(data, plan, region, nodes, j)
    ensures e in NodeEvents(data, plan, nodes, j)
  {
    var last := |nodes| - 1;
    if e != Previous(j) {
      var v, p :| v in nodes && p in TemporalPredecessors(data, v) && p in region && p < |plan.jobOfNode| && e == Previous(plan.jobOfNode[p]);
      if v != nodes[last] {
        assert nodes == nodes[..last] + [nodes[last]];
        assert v in nodes[..last];
        assert e in TemporalDependencies(data, plan, region, nodes[..last]);
        NodeEventsCover(data, plan, region, nodes[..last], j, e);
      }
    }
  }

  predicate HasTemporal(data: Program, nodes: seq<nat>) {
    exists i | 0 <= i < |nodes| :: TemporalPredecessors(data, nodes[i]) != []
  }

  function PlannedEvents(plan: Plan, region: seq<nat>, predecessors: seq<nat>): (events: seq<Event>)
    ensures |events| == |predecessors| && forall p | p in predecessors :: PlannedDependency(plan, region, p) in events
  {
    var events := seq(|predecessors|, i requires 0 <= i < |predecessors| => PlannedDependency(plan, region, predecessors[i]));
    assert forall i | 0 <= i < |predecessors| :: events[i] == PlannedDependency(plan, region, predecessors[i]);
    events
  }

  /** A job that serializes nothing fits the room counted for it. */
  lemma UnserializedJobFits(data: Program, plan: Plan, submission: SubmissionPlan, r: nat, c: Context, i: nat)
    requires Plannable(data) && IsPlan(data, plan) && IsSubmissionPlan(data, plan, submission) && r < |data.regions|
    requires i < |submission.regions[r].jobs| && submission.regions[r].jobs[i] < |plan.jobs|
    requires forall q: nat :: !Serializes(data, plan, submission.regions[r].jobs[i], q)
    ensures |JobDependencies(data, plan, data.regions[r], c, submission.regions[r].jobs[..i], submission.regions[r].jobs[i])|
      <= submission.regions[r].dependencyCapacity
  {
    var region, j := data.regions[r], submission.regions[r].jobs[i];
    assert j in submission.regions[r].jobs;
    var nodes := plan.jobs[j].nodes;
    var events := PlannedEvents(plan, region, plan.jobs[j].predecessors) + NodeEvents(data, plan, nodes, j) + [Initialization];
    var dependencies := JobDependencies(data, plan, region, c, submission.regions[r].jobs[..i], j);
    forall e | e in dependencies
      ensures e in events
    {
      if e in PreviousDependencies(data, plan, region, nodes, j) {
        NodeEventsCover(data, plan, region, nodes, j, e);
      }
    }
    CoveredCount(dependencies, events);
  }

  function AccessEvents(data: Program, plan: Plan, c: Context, earlier: seq<nat>, n: nat): (events: seq<Event>)
    ensures |events| == n
    ensures forall q: nat | q < n && LastAccess(data, plan, c, earlier, q).Some? :: LastAccess(data, plan, c, earlier, q).value in events
  {
    if n == 0 then []
    else
      var access := LastAccess(data, plan, c, earlier, n - 1);
      AccessEvents(data, plan, c, earlier, n - 1) + [if access.Some? then access.value else Finish]
  }

  lemma PlannedAreCovered(plan: Plan, region: seq<nat>, jobs: seq<nat>, j: nat, e: Event)
    requires j < |plan.jobs| && IsRegionJobList(plan, region, jobs) && e in PlannedDependencies(plan, region, j)
    ensures e == Initialization || e in JobEvents(jobs)
  {
    var p :| p in plan.jobs[j].predecessors && e == PlannedDependency(plan, region, p);
    if FirstInRegion(plan, region, p) {
      assert p in jobs;
    }
  }

  lemma UntemporalAreCovered(data: Program, plan: Plan, region: seq<nat>, c: Context, jobs: seq<nat>, earlier: seq<nat>, j: nat, e: Event)
    requires j < |plan.jobs| && IsRegionJobList(plan, region, jobs) && !HasTemporal(data, plan.jobs[j].nodes)
    requires e in JobDependencies(data, plan, region, c, earlier, j)
    ensures e in JobEvents(jobs) + [Initialization, Previous(j)] + AccessEvents(data, plan, c, earlier, |data.resources|)
  {
    if e in PlannedDependencies(plan, region, j) {
      PlannedAreCovered(plan, region, jobs, j, e);
    } else if e in EarlierDependencies(data, plan, region, c, j) {
      UntemporalWaitsForItself(data, plan, region, c, j, e);
    } else {
      var q :| 0 <= q < |data.resources| && Serializes(data, plan, j, q) && LastAccess(data, plan, c, earlier, q) == Some(e);
    }
  }

  lemma UntemporalWaitsForItself(data: Program, plan: Plan, region: seq<nat>, c: Context, j: nat, e: Event)
    requires j < |plan.jobs| && !HasTemporal(data, plan.jobs[j].nodes) && e in EarlierDependencies(data, plan, region, c, j)
    ensures e == Initialization || e == Previous(j)
  {
    var nodes := plan.jobs[j].nodes;
    forall v | v in nodes
      ensures TemporalPredecessors(data, v) == []
    {
      var i :| 0 <= i < |nodes| && nodes[i] == v;
    }
    assert TemporalDependencies(data, plan, region, nodes) == {};
  }

  /** A job without temporal predecessors fits the room counted for the region. */
  lemma UntemporalJobFits(data: Program, plan: Plan, submission: SubmissionPlan, r: nat, c: Context, i: nat)
    requires Plannable(data) && IsPlan(data, plan) && IsSubmissionPlan(data, plan, submission) && r < |data.regions|
    requires i < |submission.regions[r].jobs| && submission.regions[r].jobs[i] < |plan.jobs|
    requires !HasTemporal(data, plan.jobs[submission.regions[r].jobs[i]].nodes)
    ensures |JobDependencies(data, plan, data.regions[r], c, submission.regions[r].jobs[..i], submission.regions[r].jobs[i])|
      <= submission.regions[r].dependencyCapacity
  {
    var region, jobs := data.regions[r], submission.regions[r].jobs;
    RegionJobCount(data, plan, submission, r);
    UntemporalCount(data, plan, region, c, jobs, jobs[..i], jobs[i]);
  }

  lemma UntemporalCount(data: Program, plan: Plan, region: seq<nat>, c: Context, jobs: seq<nat>, earlier: seq<nat>, j: nat)
    requires j < |plan.jobs| && IsRegionJobList(plan, region, jobs) && !HasTemporal(data, plan.jobs[j].nodes)
    ensures |JobDependencies(data, plan, region, c, earlier, j)| <= |jobs| + |data.resources| + 2
  {
    var events := JobEvents(jobs) + [Initialization, Previous(j)] + AccessEvents(data, plan, c, earlier, |data.resources|);
    forall e | e in JobDependencies(data, plan, region, c, earlier, j)
      ensures e in events
    {
      UntemporalAreCovered(data, plan, region, c, jobs, earlier, j, e);
    }
    CoveredCount(JobDependencies(data, plan, region, c, earlier, j), events);
  }

  /**
   * The scratch never runs out for what this submission records of a job, unless the
   * job has both temporal predecessors, which belong to phis, and serialized resources,
   * which phis do not have.
   */
  lemma DependenciesFit(data: Program, plan: Plan, submission: SubmissionPlan, r: nat, c: Context, record: Record, i: nat)
    requires Plannable(data) && IsPlan(data, plan) && IsSubmissionPlan(data, plan, submission) && r < |data.regions|
    requires IsWholeRecord(data, plan, data.regions[r], c, submission.regions[r], record) && i < |submission.regions[r].jobs|
    requires submission.regions[r].jobs[i] < |plan.jobs|
    requires HasTemporal(data, plan.jobs[submission.regions[r].jobs[i]].nodes) ==>
      forall q: nat :: !Serializes(data, plan, submission.regions[r].jobs[i], q)
    ensures Job(submission.regions[r].jobs[i]) in record
    ensures |record[Job(submission.regions[r].jobs[i])]| <= submission.regions[r].dependencyCapacity
  {
    assert submission.regions[r].jobs[i] in submission.regions[r].jobs;
    assert JobRecorded(data, plan, data.regions[r], c, submission.regions[r].jobs, record, i);
    if HasTemporal(data, plan.jobs[submission.regions[r].jobs[i]].nodes) {
      UnserializedJobFits(data, plan, submission, r, c, i);
    } else {
      UntemporalJobFits(data, plan, submission, r, c, i);
    }
  }
}
