/**
 * Which jobs one iteration of a feedback region submits, which of them its finish
 * waits for, and why that finish comes after everything in the iteration.
 */
module FeedbackPlan {
  import opened Wrappers
  import opened Graphs
  import opened ProgramData
  import opened TransitiveReduction
  import opened JobPlan
  import opened Schedules

  /** `dependencyCapacity` is the room for the dependencies of one job while an iteration is submitted. */
  datatype RegionPlan = RegionPlan(jobs: seq<nat>, terminalJobs: seq<nat>, dependencyCapacity: nat)

  datatype SubmissionPlan = SubmissionPlan(regionOfNode: seq<Option<nat>>, regions: seq<RegionPlan>)

  /** The table maps every node to the region that lists it. */
  ghost predicate IsRegionTable(data: Program, regionOf: seq<Option<nat>>) {
    && |regionOf| == |data.nodes|
    && (forall r: nat, v: nat {:trigger v in data.regions[r]} | r < |data.regions| && v in data.regions[r] :: v < |regionOf| && regionOf[v] == Some(r))
    && (forall v: nat | v < |regionOf| && regionOf[v].Some? :: regionOf[v].value < |data.regions| && v in data.regions[regionOf[v].value])
  }

  /** The region's jobs: those whose first node it lists. */
  ghost predicate IsRegionJobList(plan: Plan, region: seq<nat>, jobs: seq<nat>) {
    && NoDuplicates(jobs)
    && forall j: nat :: j in jobs <==> j < |plan.jobs| && |plan.jobs[j].nodes| > 0 && First(plan.jobs[j].nodes) in region
  }

  /** Nothing in the region depends on the node. */
  ghost predicate IsTerminal(data: Program, region: seq<nat>, v: nat) {
    v in region && forall w: nat | Depends(data, v, w) :: w !in region
  }

  /** The finish of an iteration waits for the jobs of terminal nodes. */
  ghost predicate IsTerminalList(data: Program, plan: Plan, region: seq<nat>, jobs: seq<nat>) {
    && NoDuplicates(jobs)
    && (forall v: nat | IsTerminal(data, region, v) :: v < |plan.jobOfNode| && plan.jobOfNode[v] in jobs)
    && (forall j | j in jobs :: exists v: nat :: IsTerminal(data, region, v) && v < |plan.jobOfNode| && plan.jobOfNode[v] == j)
  }

  function TemporalPredecessors(data: Program, v: nat): seq<nat> {
    if v < |data.nodes| then data.nodes[v].temporalPredecessors else []
  }

  /** Room for the temporal predecessors of the nodes, and for one more dependency of each. */
  function TemporalRoom(data: Program, nodes: seq<nat>): nat {
    if nodes == [] then 0
    else TemporalRoom(data, nodes[..|nodes| - 1]) + |TemporalPredecessors(data, nodes[|nodes| - 1])| + 1
  }

  function JobRoom(data: Program, plan: Plan, j: nat): nat
    requires j < |plan.jobs|
  {
    |plan.jobs[j].predecessors| + 2 + TemporalRoom(data, plan.jobs[j].nodes)
  }

  function RegionRoom(data: Program, region: seq<nat>): nat {
    |region| + |data.resources| + 2
  }

  /** The least capacity that covers the region and each of its jobs. */
  predicate IsDependencyCapacity(data: Program, plan: Plan, region: seq<nat>, jobs: seq<nat>, capacity: nat) {
    && capacity >= RegionRoom(data, region)
    && (forall j | j in jobs :: j < |plan.jobs| && capacity >= JobRoom(data, plan, j))
    && (capacity == RegionRoom(data, region) || exists j | j in jobs :: j < |plan.jobs| && capacity == JobRoom(data, plan, j))
  }

  ghost predicate IsSubmissionPlan(data: Program, plan: Plan, submission: SubmissionPlan) {
    && IsRegionTable(data, submission.regionOfNode)
    && |submission.regions| == |data.regions|
    && forall r | 0 <= r < |data.regions| ::
      && IsRegionJobList(plan, data.regions[r], submission.regions[r].jobs)
      && IsTerminalList(data, plan, data.regions[r], submission.regions[r].terminalJobs)
      && IsDependencyCapacity(data, plan, data.regions[r], submission.regions[r].jobs, submission.regions[r].dependencyCapacity)
      && (Ascending(data.regions[r]) ==> Ascending(submission.regions[r].jobs))
  }

  /** The compiled successor table lists who depends on each node. */
  ghost predicate IsSuccessorTable(data: Program, successors: Adjacency) {
    |successors| == |data.nodes| && forall p: nat, v: nat :: Edge(successors, p, v) <==> Depends(data, p, v)
  }

  // ---------------------------------------------------------------------
  // Building the plan

  ghost predicate TaggedBelow(data: Program, regionOf: seq<Option<nat>>, n: nat, m: nat) {
    && |regionOf| == |data.nodes| && n <= |data.regions|
    && (n < |data.regions| ==> m <= |data.regions[n]|)
    && (forall r: nat, v: nat {:trigger v in data.regions[r]} | r < n && v in data.regions[r] :: v < |regionOf| && regionOf[v] == Some(r))
    && (n < |data.regions| ==> forall i: nat | i < m :: data.regions[n][i] < |regionOf| && regionOf[data.regions[n][i]] == Some(n))
    && (forall v: nat | v < |regionOf| && regionOf[v].Some? ::
          regionOf[v].value <= n && regionOf[v].value < |data.regions| && v in data.regions[regionOf[v].value])
  }

  lemma TagNext(data: Program, regionOf: seq<Option<nat>>, n: nat, m: nat)
    requires RegionsValid(data) && TaggedBelow(data, regionOf, n, m) && n < |data.regions| && m < |data.regions[n]|
    ensures data.regions[n][m] < |regionOf|
    ensures TaggedBelow(data, regionOf[data.regions[n][m] := Some(n)], n, m + 1)
  {
    var node := data.regions[n][m];
    assert node in data.regions[n];
    var tagged := regionOf[node := Some(n)];
    forall r: nat, v: nat | r < n && v in data.regions[r]
      ensures v < |tagged| && tagged[v] == Some(r)
    {
      assert regionOf[v] == Some(r);
    }
  }

  method RegionOfNodes(data: Program) returns (regionOf: seq<Option<nat>>)
    requires RegionsValid(data)
    ensures IsRegionTable(data, regionOf)
  {
    regionOf := seq(|data.nodes|, _ => None);
    for region := 0 to |data.regions|
      invariant TaggedBelow(data, regionOf, region, 0)
    {
      for index := 0 to |data.regions[region]|
        invariant TaggedBelow(data, regionOf, region, index)
      {
        TagNext(data, regionOf, region, index);
        regionOf := regionOf[data.regions[region][index] := Some(region)];
      }
    }
  }

  /** The jobs whose first nodes are among the first n nodes of the region. */
  ghost predicate ListsFirsts(plan: Plan, region: seq<nat>, n: nat, jobs: seq<nat>)
    requires n <= |region|
  {
    && NoDuplicates(jobs)
    && (forall j: nat | j in jobs :: j < |plan.jobs| && |plan.jobs[j].nodes| > 0 && First(plan.jobs[j].nodes) in region[..n])
    && (forall j: nat | j < |plan.jobs| && |plan.jobs[j].nodes| > 0 && First(plan.jobs[j].nodes) in region[..n] :: j in jobs)
  }

  lemma FirstsIdentifyJobs(data: Program, plan: Plan, j: nat)
    requires IsPlan(data, plan) && j < |plan.jobs|
    ensures |plan.jobs[j].nodes| > 0 && First(plan.jobs[j].nodes) < |plan.jobOfNode| && plan.jobOfNode[First(plan.jobs[j].nodes)] == j
  {
    JobFacts(data, NodesOf(plan), plan.jobOfNode);
    assert IsChain(data, NodesOf(plan)[j]);
    assert First(plan.jobs[j].nodes) in NodesOf(plan)[j];
  }

  lemma FirstsOrderJobs(data: Program, plan: Plan, j: nat, k: nat)
    requires IsPlan(data, plan) && j < |plan.jobs| && k < |plan.jobs|
    ensures |plan.jobs[j].nodes| > 0 && |plan.jobs[k].nodes| > 0
    ensures First(plan.jobs[j].nodes) < First(plan.jobs[k].nodes) ==> j < k
  {
    var jobs := NodesOf(plan);
    assert FirstsAscend(jobs);
    assert |jobs[j]| > 0 && |jobs[k]| > 0;
    if k < j {
      assert jobs[k][0] < jobs[j][0];
    }
  }

  lemma AddFirst(data: Program, plan: Plan, region: seq<nat>, index: nat, jobs: seq<nat>)
    requires IsPlan(data, plan) && NoDuplicates(region) && index < |region| && ListsFirsts(plan, region, index, jobs)
    requires region[index] < |plan.jobOfNode| && plan.jobOfNode[region[index]] < |plan.jobs|
    requires var nodes := plan.jobs[plan.jobOfNode[region[index]]].nodes; |nodes| > 0 && nodes[0] == region[index]
    requires Ascending(region) ==> Ascending(jobs)
    ensures ListsFirsts(plan, region, index + 1, jobs + [plan.jobOfNode[region[index]]])
    ensures Ascending(region) ==> Ascending(jobs + [plan.jobOfNode[region[index]]])
  {
    var job := plan.jobOfNode[region[index]];
    assert region[..index + 1] == region[..index] + [region[index]];
    forall j: nat | j < |plan.jobs| && |plan.jobs[j].nodes| > 0 && First(plan.jobs[j].nodes) in region[..index + 1]
      ensures j in jobs + [job]
    {
      FirstsIdentifyJobs(data, plan, j);
    }
    if Ascending(region) {
      forall i: nat | i < |jobs|
        ensures jobs[i] < job
      {
        assert jobs[i] in jobs;
        FirstsOrderJobs(data, plan, jobs[i], job);
      }
    }
  }

  lemma SkipNode(data: Program, plan: Plan, region: seq<nat>, index: nat, jobs: seq<nat>)
    requires IsPlan(data, plan) && index < |region| && ListsFirsts(plan, region, index, jobs)
    requires region[index] < |plan.jobOfNode| && plan.jobOfNode[region[index]] < |plan.jobs|
    requires var nodes := plan.jobs[plan.jobOfNode[region[index]]].nodes; |nodes| > 0 && nodes[0] != region[index]
    ensures ListsFirsts(plan, region, index + 1, jobs)
  {
    assert region[..index + 1] == region[..index] + [region[index]];
    forall j: nat | j < |plan.jobs| && |plan.jobs[j].nodes| > 0 && First(plan.jobs[j].nodes) in region[..index + 1]
      ensures j in jobs
    {
      FirstsIdentifyJobs(data, plan, j);
    }
  }

  method CountRoom(data: Program, plan: Plan, job: nat) returns (room: nat)
    requires IsPlan(data, plan) && job < |plan.jobs|
    ensures room == JobRoom(data, plan, job)
  {
    JobFacts(data, NodesOf(plan), plan.jobOfNode);
    var nodes := plan.jobs[job].nodes;
    room := |plan.jobs[job].predecessors| + 2;
    for index := 0 to |nodes|
      invariant room == |plan.jobs[job].predecessors| + 2 + TemporalRoom(data, nodes[..index])
    {
      assert nodes[..index + 1][..index] == nodes[..index];
      assert nodes[index] in NodesOf(plan)[job];
      room := room + |data.nodes[nodes[index]].temporalPredecessors| + 1;
    }
    assert nodes[..|nodes|] == nodes;
  }

  lemma JobRaisesCapacity(data: Program, plan: Plan, region: seq<nat>, jobs: seq<nat>, job: nat, capacity: nat, room: nat)
    requires IsDependencyCapacity(data, plan, region, jobs, capacity) && job < |plan.jobs| && room == JobRoom(data, plan, job)
    ensures IsDependencyCapacity(data, plan, region, jobs + [job], if room > capacity then room else capacity)
  {
    assert job in jobs + [job];
    forall j | j in jobs && capacity == JobRoom(data, plan, j)
      ensures j in jobs + [job]
    {
    }
  }

  /**
   * The jobs of a region in the order of their first nodes, and the room that their
   * dependencies get. The range and boundary checks made along the way cannot fail:
   * see JobsStayInRegions.
   */
  method RegionJobs(data: Program, plan: Plan, region: seq<nat>) returns (jobs: seq<nat>, capacity: nat)
    requires Plannable(data) && IsPlan(data, plan)
    requires NoDuplicates(region) && forall v | v in region :: v < |data.nodes|
    ensures IsRegionJobList(plan, region, jobs)
    ensures IsDependencyCapacity(data, plan, region, jobs, capacity)
    ensures Ascending(region) ==> Ascending(jobs)
  {
    JobFacts(data, NodesOf(plan), plan.jobOfNode);
    jobs, capacity := [], |region| + |data.resources| + 2;
    for index := 0 to |region|
      invariant ListsFirsts(plan, region, index, jobs)
      invariant IsDependencyCapacity(data, plan, region, jobs, capacity)
      invariant Ascending(region) ==> Ascending(jobs)
    {
      var node := region[index];
      assert node in region;
      var job := plan.jobOfNode[node];
      assert node in NodesOf(plan)[job];
      if plan.jobs[job].nodes[0] == node {
        AddFirst(data, plan, region, index, jobs);
        var room := CountRoom(data, plan, job);
        JobRaisesCapacity(data, plan, region, jobs, job, capacity, room);
        jobs := jobs + [job];
        capacity := if room > capacity then room else capacity;
      } else {
        SkipNode(data, plan, region, index, jobs);
      }
    }
    assert region[..|region|] == region;
  }

  /** The jobs of the terminal nodes among the first n nodes of the region. */
  ghost predicate ListsTerminals(data: Program, plan: Plan, region: seq<nat>, n: nat, jobs: seq<nat>)
    requires n <= |region|
  {
    && NoDuplicates(jobs)
    && (forall i: nat | i < n && IsTerminal(data, region, region[i]) :: region[i] < |plan.jobOfNode| && plan.jobOfNode[region[i]] in jobs)
    && (forall j | j in jobs :: exists v: nat :: IsTerminal(data, region, v) && v < |plan.jobOfNode| && plan.jobOfNode[v] == j)
  }

  method HasSuccessorIn(data: Program, successors: Adjacency, regionOf: seq<Option<nat>>, region: nat, node: nat) returns (b: bool)
    requires IsSuccessorTable(data, successors) && IsRegionTable(data, regionOf)
    requires region < |data.regions| && node in data.regions[region]
    ensures b <==> !IsTerminal(data, data.regions[region], node)
  {
    var row := successors[node];
    b := false;
    for index := 0 to |row|
      invariant b <==> exists i: nat | i < index :: row[i] < |regionOf| && regionOf[row[i]] == Some(region)
    {
      b := b || (row[index] < |regionOf| && regionOf[row[index]] == Some(region));
    }
    if b {
      var i: nat :| i < |row| && row[i] < |regionOf| && regionOf[row[i]] == Some(region);
      assert Edge(successors, node, row[i]);
    } else {
      forall w: nat | Depends(data, node, w)
        ensures w !in data.regions[region]
      {
        assert Edge(successors, node, w);
      }
    }
  }

  method TerminalJobs(data: Program, plan: Plan, successors: Adjacency, regionOf: seq<Option<nat>>, region: nat) returns (jobs: seq<nat>)
    requires IsSuccessorTable(data, successors) && IsRegionTable(data, regionOf)
    requires region < |data.regions| && |plan.jobOfNode| == |data.nodes|
    ensures IsTerminalList(data, plan, data.regions[region], jobs)
  {
    var nodes := data.regions[region];
    jobs := [];
    for index := 0 to |nodes|
      invariant ListsTerminals(data, plan, nodes, index, jobs)
    {
      var node := nodes[index];
      assert node in nodes;
      var hasSuccessor := HasSuccessorIn(data, successors, regionOf, region, node);
      if !hasSuccessor && plan.jobOfNode[node] !in jobs {
        jobs := jobs + [plan.jobOfNode[node]];
      }
    }
  }

  method BuildSubmissionPlan(data: Program, plan: Plan, successors: Adjacency) returns (submission: SubmissionPlan)
    requires Plannable(data) && IsPlan(data, plan) && IsSuccessorTable(data, successors)
    ensures IsSubmissionPlan(data, plan, submission)
  {
    var regionOf := RegionOfNodes(data);
    var regions: seq<RegionPlan> := [];
    for region := 0 to |data.regions|
      invariant |regions| == region
      invariant forall r | 0 <= r < region ::
        && IsRegionJobList(plan, data.regions[r], regions[r].jobs)
        && IsTerminalList(data, plan, data.regions[r], regions[r].terminalJobs)
        && IsDependencyCapacity(data, plan, data.regions[r], regions[r].jobs, regions[r].dependencyCapacity)
        && (Ascending(data.regions[r]) ==> Ascending(regions[r].jobs))
    {
      var jobs, capacity := RegionJobs(data, plan, data.regions[region]);
      var terminalJobs := TerminalJobs(data, plan, successors, regionOf, region);
      regions := regions + [RegionPlan(jobs, terminalJobs, capacity)];
    }
    submission := SubmissionPlan(regionOf, regions);
  }

  // ---------------------------------------------------------------------
  // Jobs lie within regions

  lemma {:induction false} ChainStaysInRegion(data: Program, chain: seq<nat>, r: nat, i: nat)
    requires IsChain(data, chain) && r < |data.regions| && i < |chain|
    ensures chain[i] in data.regions[r] <==> chain[0] in data.regions[r]
  {
    if i > 0 {
      ChainStaysInRegion(data, chain, r, i - 1);
      assert Fusable(data, chain[i - 1], chain[i]);
    }
  }

  /** A planned job lies inside a region or outside it. */
  lemma JobsStayInRegions(data: Program, plan: Plan, r: nat, j: nat, v: nat)
    requires IsPlan(data, plan) && r < |data.regions| && j < |plan.jobs| && v in plan.jobs[j].nodes
    ensures v in data.regions[r] <==> First(plan.jobs[j].nodes) in data.regions[r]
  {
    JobFacts(data, NodesOf(plan), plan.jobOfNode);
    assert IsChain(data, NodesOf(plan)[j]);
    var i: nat :| i < |plan.jobs[j].nodes| && plan.jobs[j].nodes[i] == v;
    ChainStaysInRegion(data, plan.jobs[j].nodes, r, i);
  }

  // ---------------------------------------------------------------------
  // One iteration

  /** No path of dependencies leaves the region and comes back. */
  ghost predicate Convex(data: Program, region: seq<nat>) {
    forall u: nat, w: nat, v: nat :: u in region && v in region && Ancestor(data, u, w) && Ancestor(data, w, v) ==> w in region
  }

  /**
   * What an iteration consists of, and what it may wait for from before: the
   * initialization, a job of the previous iteration, or whoever accessed a serialized
   * resource last.
   */
  datatype Event =
    | Job(job: nat) | Release(resource: nat) | Finish
    | Initialization | Previous(job: nat) | Serialized(resource: nat)

  /**
   * An order in which an iteration of the region may run: a job waits for its
   * planned predecessors in the region, a release for the jobs of all its
   * frontier nodes, and the finish for the terminal jobs and the releases.
   */
  ghost predicate IsIteration(data: Program, plan: Plan, regionPlan: RegionPlan, order: seq<Event>) {
    && NoDuplicates(order)
    && |plan.jobOfNode| == |data.nodes|
    && (forall j: nat, k: nat | j in regionPlan.jobs && k in regionPlan.jobs && k < |plan.jobs| && j in plan.jobs[k].predecessors ::
          Before(order, Job(j), Job(k)))
    && (forall t | t in regionPlan.terminalJobs :: Before(order, Job(t), Finish))
    && (forall j: nat, r: nat {:trigger r in plan.jobs[j].releasedResources} | j < |plan.jobs| && j in regionPlan.jobs && r in plan.jobs[j].releasedResources ::
          && r < |data.resources|
          && Before(order, Release(r), Finish)
          && forall f | f in data.resources[r].releaseAfter && f < |plan.jobOfNode| :: Before(order, Job(plan.jobOfNode[f]), Release(r)))
  }

  /** In a convex region, the jobs on a planned path between region jobs are region jobs. */
  lemma BetweenJobsStayInRegion(data: Program, plan: Plan, r: nat, j: nat, x: nat, k: nat)
    requires Plannable(data) && IsPlan(data, plan) && r < |data.regions| && Convex(data, data.regions[r])
    requires j < |plan.jobs| && k < |plan.jobs| && |plan.jobs[j].nodes| > 0 && |plan.jobs[k].nodes| > 0
    requires First(plan.jobs[j].nodes) in data.regions[r] && First(plan.jobs[k].nodes) in data.regions[r]
    requires Reaches(SuccessorsOf(plan), j, x) && Reaches(SuccessorsOf(plan), x, k)
    ensures x < |plan.jobs| && |plan.jobs[x].nodes| > 0 && First(plan.jobs[x].nodes) in data.regions[r]
  {
    ReachesFirstEdge(SuccessorsOf(plan), j, x);
    FirstsIdentifyJobs(data, plan, j);
    FirstsIdentifyJobs(data, plan, x);
    if x != j && x != k {
      JobOrderIsNodeOrder(data, plan, j, x);
      JobOrderIsNodeOrder(data, plan, x, k);
      LastIsInRegion(data, plan, r, j);
      ChainReaches(data, NodesOf(plan)[x], 0, |plan.jobs[x].nodes| - 1) by {
        assert IsChain(data, NodesOf(plan)[x]);
      }
      ReachesTransitive(NodeGraph(data), First(plan.jobs[x].nodes), Last(plan.jobs[x].nodes), First(plan.jobs[k].nodes));
    }
  }

  lemma LastIsInRegion(data: Program, plan: Plan, r: nat, j: nat)
    requires IsPlan(data, plan) && r < |data.regions| && j < |plan.jobs| && |plan.jobs[j].nodes| > 0
    requires First(plan.jobs[j].nodes) in data.regions[r]
    ensures Last(plan.jobs[j].nodes) in data.regions[r]
  {
    assert Last(plan.jobs[j].nodes) in plan.jobs[j].nodes;
    JobsStayInRegions(data, plan, r, j, Last(plan.jobs[j].nodes));
  }

  lemma {:induction false} RegionPathIsOrdered(data: Program, plan: Plan, regionPlan: RegionPlan, order: seq<Event>, p: seq<nat>, j: nat, k: nat)
    requires IsIteration(data, plan, regionPlan, order) && Inverts(SuccessorsOf(plan), PredecessorsOf(plan))
    requires IsPath(SuccessorsOf(plan), p, j, k) && |p| > 1
    requires forall i | 0 <= i < |p| :: p[i] in regionPlan.jobs
    ensures Before(order, Job(j), Job(k))
    decreases |p|
  {
    var next := p[1];
    assert Edge(SuccessorsOf(plan), j, next);
    assert j in PredecessorsOf(plan)[next];
    assert p[0] in regionPlan.jobs && next in regionPlan.jobs;
    assert Before(order, Job(j), Job(next));
    if |p| > 2 {
      assert IsPath(SuccessorsOf(plan), p[1..], next, k);
      RegionPathIsOrdered(data, plan, regionPlan, order, p[1..], next, k);
      BeforeTransitive(order, Job(j), Job(next), Job(k));
    }
  }

  lemma PathThrough(g: Adjacency, p: seq<nat>, j: nat, k: nat, i: nat)
    requires IsPath(g, p, j, k) && i < |p|
    ensures Reaches(g, j, p[i]) && Reaches(g, p[i], k)
  {
    assert IsPath(g, p[..i + 1], j, p[i]);
    assert IsPath(g, p[i..], p[i], k);
  }

  /** What a planned path orders in the whole program, it orders in one iteration of a convex region. */
  lemma RegionJobsAreOrdered(data: Program, plan: Plan, submission: SubmissionPlan, r: nat, order: seq<Event>, j: nat, k: nat)
    requires Plannable(data) && IsPlan(data, plan) && IsSubmissionPlan(data, plan, submission)
    requires r < |data.regions| && Convex(data, data.regions[r]) && IsIteration(data, plan, submission.regions[r], order)
    requires j in submission.regions[r].jobs && k in submission.regions[r].jobs && j != k
    requires Reaches(SuccessorsOf(plan), j, k)
    ensures Before(order, Job(j), Job(k))
  {
    var p :| IsPath(SuccessorsOf(plan), p, j, k);
    forall i: nat | i < |p|
      ensures p[i] in submission.regions[r].jobs
    {
      PathThrough(SuccessorsOf(plan), p, j, k, i);
      BetweenJobsStayInRegion(data, plan, r, j, p[i], k);
    }
    RegionPathIsOrdered(data, plan, submission.regions[r], order, p, j, k);
  }

  lemma RegionJobOf(data: Program, plan: Plan, submission: SubmissionPlan, r: nat, v: nat)
    requires Plannable(data) && IsPlan(data, plan) && IsSubmissionPlan(data, plan, submission)
    requires r < |data.regions| && v in data.regions[r]
    ensures v < |plan.jobOfNode| && plan.jobOfNode[v] < |plan.jobs| && v in plan.jobs[plan.jobOfNode[v]].nodes
    ensures plan.jobOfNode[v] in submission.regions[r].jobs
  {
    JobFacts(data, NodesOf(plan), plan.jobOfNode);
    var j := plan.jobOfNode[v];
    assert v in NodesOf(plan)[j];
    FirstsIdentifyJobs(data, plan, j);
    JobsStayInRegions(data, plan, r, j, v);
  }

  /** In every iteration of a convex region, a node's job runs after the jobs of the region nodes it depends on. */
  lemma IterationRespectsDependencies(data: Program, plan: Plan, submission: SubmissionPlan, r: nat, order: seq<Event>, u: nat, v: nat)
    requires Plannable(data) && IsPlan(data, plan) && IsSubmissionPlan(data, plan, submission)
    requires r < |data.regions| && Convex(data, data.regions[r]) && IsIteration(data, plan, submission.regions[r], order)
    requires u in data.regions[r] && v in data.regions[r] && Depends(data, u, v)
    ensures plan.jobOfNode[u] == plan.jobOfNode[v] || Before(order, Job(plan.jobOfNode[u]), Job(plan.jobOfNode[v]))
  {
    RegionJobOf(data, plan, submission, r, u);
    RegionJobOf(data, plan, submission, r, v);
    var j, k := plan.jobOfNode[u], plan.jobOfNode[v];
    if j != k {
      var quotient := QuotientFacts(data, plan);
      assert Edge(quotient, j, k);
      ReachesEdge(quotient, j, k);
      ReducedReaches(quotient, j, k);
      RegionJobsAreOrdered(data, plan, submission, r, order, j, k);
    }
  }

  /**
   * In every iteration of a convex region, the finish comes after the job of every
   * node of the region, though it waits for the terminal jobs and releases only.
   */
  lemma {:induction false} FinishFollowsRegion(data: Program, plan: Plan, submission: SubmissionPlan, r: nat, order: seq<Event>, v: nat)
    requires Plannable(data) && IsPlan(data, plan) && IsSubmissionPlan(data, plan, submission)
    requires r < |data.regions| && Convex(data, data.regions[r]) && IsIteration(data, plan, submission.regions[r], order)
    requires v in data.regions[r]
    ensures v < |plan.jobOfNode| && Before(order, Job(plan.jobOfNode[v]), Finish)
    decreases |data.nodes| - v
  {
    RegionJobOf(data, plan, submission, r, v);
    if !IsTerminal(data, data.regions[r], v) {
      var w: nat :| Depends(data, v, w) && w in data.regions[r];
      FinishFollowsRegion(data, plan, submission, r, order, w);
      IterationRespectsDependencies(data, plan, submission, r, order, v, w);
      if plan.jobOfNode[v] != plan.jobOfNode[w] {
        BeforeTransitive(order, Job(plan.jobOfNode[v]), Job(plan.jobOfNode[w]), Finish);
      }
    }
  }

  /** A region listed in ascending order submits every job after its predecessors in the region. */
  lemma PredecessorsAreSubmittedFirst(data: Program, plan: Plan, submission: SubmissionPlan, r: nat, i: nat, j: nat)
    requires Plannable(data) && IsPlan(data, plan) && IsSubmissionPlan(data, plan, submission)
    requires r < |data.regions| && Ascending(data.regions[r]) && i < |submission.regions[r].jobs|
    requires submission.regions[r].jobs[i] < |plan.jobs| && j in plan.jobs[submission.regions[r].jobs[i]].predecessors
    requires j < |plan.jobs| && |plan.jobs[j].nodes| > 0 && First(plan.jobs[j].nodes) in data.regions[r]
    ensures exists earlier | 0 <= earlier < i :: submission.regions[r].jobs[earlier] == j
  {
    var jobs := submission.regions[r].jobs;
    PlannedEdgesAscend(data, plan, j, jobs[i]);
    assert j in jobs;
    var earlier :| 0 <= earlier < |jobs| && jobs[earlier] == j;
  }
}
