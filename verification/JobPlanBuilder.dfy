/** `build_job_plan`: fusing nodes into jobs and assembling the plan. */
module JobPlanBuilder {
  import opened Wrappers
  import opened Graphs
  import opened ProgramData
  import opened TransitiveReduction
  import opened JobPlan
  import opened JobPlanner

  /** The tables of immediate successors and predecessors, without duplicates. */
  ghost predicate ImmediateTables(data: Program, successors: Adjacency, predecessors: Adjacency) {
    && |successors| == |predecessors| == |data.nodes|
    && NoDuplicateEdges(successors) && NoDuplicateEdges(predecessors)
    && (forall u: nat, v: nat {:trigger v in successors[u]} {:trigger Immediate(data, u, v)} |
          u < |successors| :: v in successors[u] <==> Immediate(data, u, v))
    && (forall u: nat, v: nat {:trigger u in predecessors[v]} {:trigger Immediate(data, u, v)} |
          v < |predecessors| :: u in predecessors[v] <==> Immediate(data, u, v))
  }

  lemma ReductionGivesImmediateTables(data: Program, groupOf: seq<nat>, g: Adjacency, predecessors: Adjacency)
    requires DependencyOrdered(data)
    requires |groupOf| == |data.nodes| && forall v | 0 <= v < |groupOf| :: groupOf[v] == v
    requires IsQuotient(data, groupOf, |data.nodes|, g)
    requires Inverts(Reduced(g), predecessors) && NoDuplicateEdges(predecessors)
    ensures ImmediateTables(data, Reduced(g), predecessors)
  {
    NodeGraphEdges(data);
    forall p: nat, v: nat
      ensures Edge(g, p, v) <==> Depends(data, p, v)
    {
      if Depends(data, p, v) {
        assert groupOf[p] == p && groupOf[v] == v && p != v;
      }
    }
    assert SameEdges(g, NodeGraph(data));
    assert Forward(g) by {
      forall u: nat, v | u < |g| && v in g[u]
        ensures u < v < |g|
      {
        assert Edge(g, u, v);
      }
    }
    ForwardIsAcyclic(g);
    SameEdgesReach(g, NodeGraph(data));
    ReducedRows(g);
    forall u: nat, v: nat | u < |g|
      ensures v in Reduced(g)[u] <==> Immediate(data, u, v)
    {
      ReducedEdges(g, u, v);
    }
    forall u: nat, v: nat | v < |g|
      ensures u in predecessors[v] <==> Immediate(data, u, v)
    {
      ReducedEdges(g, u, v);
    }
  }

  lemma ReducedRows(g: Adjacency)
    requires WellFormed(g) && NoDuplicateEdges(g)
    ensures WellFormed(Reduced(g)) && NoDuplicateEdges(Reduced(g))
  {
    forall u: nat | u < |g|
      ensures NoDuplicates(Reduced(g)[u])
      ensures forall v | v in Reduced(g)[u] :: v in g[u]
    {
      KeptNoDuplicates(g, g[u], |g[u]|);
      forall v | v in Reduced(g)[u]
        ensures v in g[u]
      {
        KeptMembers(g, g[u], |g[u]|, v);
      }
    }
  }

  lemma SoleEntry(row: seq<nat>, x: nat)
    requires NoDuplicates(row) && x in row
    ensures |row| == 1 <==> forall y | y in row :: y == x
  {
    if |row| > 1 {
      assert row[0] in row && row[1] in row && row[0] != row[1];
    }
  }

  /** The sizes of the rows decide whether a link is the only one of both its ends. */
  lemma RowsDecideSoleLink(data: Program, successors: Adjacency, predecessors: Adjacency, u: nat, v: nat)
    requires ImmediateTables(data, successors, predecessors)
    requires u < |data.nodes| && v < |data.nodes|
    ensures SoleLink(data, u, v) <==>
        |successors[u]| == 1 && successors[u][0] == v && |predecessors[v]| == 1
  {
    if v in successors[u] {
      SoleEntry(successors[u], v);
      SoleEntry(predecessors[v], u);
    } else if |successors[u]| == 1 && successors[u][0] == v {
      assert false;
    }
  }

  /** What an ancestor of a chained node is: a member of the chain, or an ancestor of its first node. */
  lemma {:induction false} ChainAncestors(data: Program, chain: seq<nat>, k: nat, p: nat)
    requires DependencyOrdered(data) && IsChain(data, chain) && k < |chain|
    requires Ancestor(data, p, chain[k])
    ensures p in chain || Ancestor(data, p, chain[0])
    decreases k
  {
    var g := NodeGraph(data);
    NodeGraphEdges(data);
    if k > 0 && p != chain[k] {
      ReducedReaches(g, p, chain[k]);
      var w := ReachesLastEdge(Reduced(g), p, chain[k]);
      ReducedEdges(g, w, chain[k]);
      assert Fusable(data, chain[k - 1], chain[k]);
      assert Immediate(data, w, chain[k]);
      ReducedReaches(g, p, w);
      ChainAncestors(data, chain, k - 1, p);
    }
  }

  // ---------------------------------------------------------------------
  // Fusing

  /** The jobs built so far are maximal chains; `chain` is being built and starts at `first`. */
  ghost predicate Fusing(data: Program, jobs: seq<seq<nat>>, chain: seq<nat>, jobOf: seq<nat>, taken: seq<bool>) {
    && |taken| == |data.nodes|
    && IsChain(data, chain)
    && Assigns(jobs + [chain], jobOf, taken)
    && FirstsAscend(jobs + [chain])
    && (forall j | 0 <= j < |jobs| :: IsMaximalChain(data, jobs[j]))
    && (forall v | 0 <= v <= chain[0] :: taken[v])
  }

  /** A taken node starts its job or follows the node it can be fused to. */
  lemma PositionInJob(data: Program, jobs: seq<seq<nat>>, jobOf: seq<nat>, taken: seq<bool>, u: nat, v: nat) returns (i: nat)
    requires |taken| == |data.nodes| && Assigns(jobs, jobOf, taken)
    requires forall j | 0 <= j < |jobs| :: IsChain(data, jobs[j])
    requires Fusable(data, u, v) && taken[v]
    ensures jobOf[v] < |jobs|
    ensures i < |jobs[jobOf[v]]| && jobs[jobOf[v]][i] == v
    ensures i > 0 ==> jobs[jobOf[v]][i - 1] == u && jobOf[u] == jobOf[v]
  {
    var nodes := jobs[jobOf[v]];
    i :| 0 <= i < |nodes| && nodes[i] == v;
    if i > 0 {
      assert Fusable(data, nodes[i - 1], nodes[i]);
      assert Immediate(data, nodes[i - 1], v);
      assert nodes[i - 1] in nodes;
    }
  }

  /** A node that can be fused to the end of the chain is not taken yet. */
  lemma FusableIsFree(data: Program, jobs: seq<seq<nat>>, chain: seq<nat>, jobOf: seq<nat>, taken: seq<bool>, next: nat)
    requires DependencyOrdered(data)
    requires Fusing(data, jobs, chain, jobOf, taken)
    requires Fusable(data, chain[|chain| - 1], next)
    ensures chain[|chain| - 1] < next && !taken[next]
  {
    var last := chain[|chain| - 1];
    var all := jobs + [chain];
    assert all[|jobs|] == chain;
    assert last in chain && jobOf[last] == |jobs|;
    if taken[next] {
      var i := PositionInJob(data, all, jobOf, taken, last, next);
      assert false;
    }
  }

  /** The members and the first node of a chain cover everything the next node depends on. */
  lemma FusableIsCovered(data: Program, jobs: seq<seq<nat>>, chain: seq<nat>, jobOf: seq<nat>, taken: seq<bool>, next: nat)
    requires DependencyOrdered(data)
    requires Fusing(data, jobs, chain, jobOf, taken)
    requires Fusable(data, chain[|chain| - 1], next)
    ensures forall p | p in data.nodes[next].predecessors :: p < |taken| && taken[p]
  {
    var g := NodeGraph(data);
    NodeGraphEdges(data);
    var last := chain[|chain| - 1];
    forall p | p in data.nodes[next].predecessors
      ensures p < |taken| && taken[p]
    {
      assert Depends(data, p, next);
      ReachesEdge(g, p, next);
      ReducedReaches(g, p, next);
      var w := ReachesLastEdge(Reduced(g), p, next);
      ReducedEdges(g, w, next);
      assert Immediate(data, w, next) && w == last;
      ReducedReaches(g, p, last);
      ChainAncestors(data, chain, |chain| - 1, p);
      if p in chain {
        assert (jobs + [chain])[|jobs|] == chain;
      } else {
        ForwardReaches(g, p, chain[0]);
      }
    }
  }

  /** While a chain is being built, the planner's test of the only successor of its end succeeds exactly when the two are fusable. */
  lemma AppendTestIsExact(data: Program, successors: Adjacency, predecessors: Adjacency,
                          jobs: seq<seq<nat>>, chain: seq<nat>, jobOf: seq<nat>, taken: seq<bool>, next: nat)
    requires DependencyOrdered(data) && ImmediateTables(data, successors, predecessors)
    requires Fusing(data, jobs, chain, jobOf, taken)
    requires successors[chain[|chain| - 1]] == [next]
    ensures next < |data.nodes|
    ensures Fusable(data, chain[|chain| - 1], next) <==>
      && next > chain[|chain| - 1] && !taken[next] && |predecessors[next]| == 1
      && Appendable(data, taken, chain[0], chain[|chain| - 1], next)
  {
    var previous := chain[|chain| - 1];
    assert next in successors[previous] && Immediate(data, previous, next);
    RowsDecideSoleLink(data, successors, predecessors, previous, next);
    if Fusable(data, previous, next) {
      FusableIsFree(data, jobs, chain, jobOf, taken, next);
      FusableIsCovered(data, jobs, chain, jobOf, taken, next);
    }
  }

  lemma TakingKeepsFusing(data: Program, jobs: seq<seq<nat>>, chain: seq<nat>, jobOf: seq<nat>, taken: seq<bool>, next: nat)
    requires Fusing(data, jobs, chain, jobOf, taken)
    requires Fusable(data, chain[|chain| - 1], next)
    requires chain[|chain| - 1] < next && !taken[next]
    ensures Fusing(data, jobs, chain + [next], jobOf[next := |jobs|], taken[next := true])
  {
    var before, after := jobs + [chain], jobs + [chain + [next]];
    var jobOf', taken' := jobOf[next := |jobs|], taken[next := true];
    forall j: nat, v: nat | j < |after| && v in after[j]
      ensures v < |taken'| && taken'[v] && jobOf'[v] == j
    {
      if j < |jobs| || v != next {
        assert v in before[j];
      }
    }
    forall v: nat | v < |taken'| && taken'[v]
      ensures jobOf'[v] < |after| && v in after[jobOf'[v]]
    {
      if v == next {
        assert after[|jobs|][|chain|] == next;
      } else {
        assert v in before[jobOf[v]];
      }
    }
    var longer := chain + [next];
    forall i | 0 < i < |longer|
      ensures Fusable(data, longer[i - 1], longer[i])
    {
      if i == |chain| {
        assert longer[i - 1] == chain[|chain| - 1];
      }
    }
    forall j | 0 <= j < |after|
      ensures |after[j]| > 0 && after[j][0] == before[j][0]
    {
    }
  }

  /** The inner loop of the planner: the job that starts at `first`. */
  method FuseFrom(data: Program, successors: Adjacency, predecessors: Adjacency, tags: seq<RegionTag>, boundary: seq<bool>,
                  first: nat, ghost jobs: seq<seq<nat>>, job: nat, jobOf0: seq<nat>, taken0: seq<bool>)
    returns (chain: seq<nat>, jobOf: seq<nat>, taken: seq<bool>)
    requires DependencyOrdered(data) && RegionsValid(data) && TaggedBy(data, tags)
    requires |boundary| == |data.nodes| && forall v | 0 <= v < |boundary| :: boundary[v] <==> ReleasesAfter(data, v)
    requires ImmediateTables(data, successors, predecessors)
    requires job == |jobs| && first < |data.nodes|
    requires Fusing(data, jobs, [first], jobOf0, taken0)
    ensures Fusing(data, jobs, chain, jobOf, taken) && IsMaximalChain(data, chain) && chain[0] == first
  {
    chain, jobOf, taken := [first], jobOf0, taken0;
    var previous := first;
    while |successors[previous]| == 1
      invariant Fusing(data, jobs, chain, jobOf, taken) && chain[0] == first
      invariant previous == chain[|chain| - 1]
      decreases |data.nodes| - previous
    {
      var next := successors[previous][0];
      AppendTestIsExact(data, successors, predecessors, jobs, chain, jobOf, taken, next);
      var append := false;
      if next > previous && !taken[next] && |predecessors[next]| == 1 {
        append := CanAppend(data, tags, boundary, taken, first, previous, next);
      }
      if !append {
        assert next in successors[previous];
        assert forall v: nat | Fusable(data, previous, v) :: Immediate(data, previous, v) && v == next;
        return;
      }
      TakingKeepsFusing(data, jobs, chain, jobOf, taken, next);
      chain := chain + [next];
      jobOf := jobOf[next := job];
      taken := taken[next := true];
      previous := next;
    }
    forall v: nat | Fusable(data, previous, v)
      ensures false
    {
      RowsDecideSoleLink(data, successors, predecessors, previous, v);
    }
  }

  lemma StartingKeepsFusing(data: Program, jobs: seq<seq<nat>>, jobOf: seq<nat>, taken: seq<bool>, first: nat)
    requires |taken| == |data.nodes| && first < |taken| && !taken[first]
    requires Assigns(jobs, jobOf, taken) && FirstsAscend(jobs)
    requires forall j | 0 <= j < |jobs| :: IsMaximalChain(data, jobs[j])
    requires forall j | 0 <= j < |jobs| :: jobs[j][0] < first
    requires forall v | 0 <= v < first :: taken[v]
    ensures Fusing(data, jobs, [first], jobOf[first := |jobs|], taken[first := true])
  {
    var all := jobs + [[first]];
    var jobOf', taken' := jobOf[first := |jobs|], taken[first := true];
    forall j: nat, v: nat | j < |all| && v in all[j]
      ensures v < |taken'| && taken'[v] && jobOf'[v] == j
    {
      if j < |jobs| {
        assert v in jobs[j];
      }
    }
    forall v: nat | v < |taken'| && taken'[v]
      ensures jobOf'[v] < |all| && v in all[jobOf'[v]]
    {
      if v == first {
        assert all[|jobs|] == [first];
      } else {
        assert v in jobs[jobOf[v]];
      }
    }
  }

  method AssignJobs(data: Program, successors: Adjacency, predecessors: Adjacency, tags: seq<RegionTag>, boundary: seq<bool>)
    returns (jobs: seq<seq<nat>>, jobOf: seq<nat>)
    requires DependencyOrdered(data) && RegionsValid(data) && TaggedBy(data, tags)
    requires |boundary| == |data.nodes| && forall v | 0 <= v < |boundary| :: boundary[v] <==> ReleasesAfter(data, v)
    requires ImmediateTables(data, successors, predecessors)
    ensures PartitionsIntoChains(data, jobs, jobOf)
  {
    jobs, jobOf := [], seq(|data.nodes|, _ => 0xFFFF_FFFF);
    var taken := seq(|data.nodes|, _ => false);
    for first := 0 to |data.nodes|
      invariant |taken| == |data.nodes|
      invariant Assigns(jobs, jobOf, taken) && FirstsAscend(jobs)
      invariant forall j | 0 <= j < |jobs| :: IsMaximalChain(data, jobs[j])
      invariant forall j | 0 <= j < |jobs| :: jobs[j][0] < first
      invariant forall v | 0 <= v < first :: taken[v]
    {
      if taken[first] {
        continue;
      }
      StartingKeepsFusing(data, jobs, jobOf, taken, first);
      var chain;
      chain, jobOf, taken := FuseFrom(data, successors, predecessors, tags, boundary, first, jobs, |jobs|,
        jobOf[first := |jobs|], taken[first := true]);
      jobs := jobs + [chain];
    }
    assert taken == seq(|data.nodes|, _ => true);
  }

  // ---------------------------------------------------------------------
  // Frontiers and releases

  /** Some of the first `n` frontier nodes runs in job `j`. */
  predicate RunsAmong(jobOf: seq<nat>, frontiers: seq<nat>, j: nat, n: nat)
    requires n <= |frontiers|
  {
    exists i | 0 <= i < n :: frontiers[i] < |jobOf| && jobOf[frontiers[i]] == j
  }

  predicate FrontierIn(data: Program, jobOf: seq<nat>, j: nat, r: nat)
    requires r < |data.resources|
  {
    RunsAmong(jobOf, data.resources[r].releaseAfter, j, |data.resources[r].releaseAfter|)
  }

  predicate ReleaseIn(data: Program, jobOf: seq<nat>, j: nat, r: nat)
    requires r < |data.resources|
  {
    var last := Max(data.resources[r].releaseAfter);
    data.resources[r].ReleasedByPlan() && last < |jobOf| && jobOf[last] == j
  }

  /** The list of job `j` is ascending and holds exactly its frontier resources below `n`. */
  ghost predicate FrontiersBelow(data: Program, jobOf: seq<nat>, j: nat, list: seq<nat>, n: nat)
    requires n <= |data.resources|
  {
    && Ascending(list)
    && (forall r | r in list :: r < n)
    && forall r: nat | r < n :: r in list <==> FrontierIn(data, jobOf, j, r)
  }

  ghost predicate ReleasesBelow(data: Program, jobOf: seq<nat>, j: nat, list: seq<nat>, n: nat)
    requires n <= |data.resources|
  {
    && Ascending(list)
    && (forall r | r in list :: r < n)
    && forall r: nat | r < n :: r in list <==> ReleaseIn(data, jobOf, j, r)
  }

  lemma AppendAscends(list: seq<nat>, x: nat)
    requires Ascending(list) && forall r | r in list :: r < x
    ensures Ascending(list + [x])
  {
    assert forall i | 0 <= i < |list| :: list[i] in list;
  }

  lemma RunsAmongNext(jobOf: seq<nat>, frontiers: seq<nat>, index: nat)
    requires index < |frontiers| && frontiers[index] < |jobOf|
    ensures forall j: nat :: RunsAmong(jobOf, frontiers, j, index + 1) <==> RunsAmong(jobOf, frontiers, j, index) || j == jobOf[frontiers[index]]
  {
    forall j: nat
      ensures RunsAmong(jobOf, frontiers, j, index + 1) <==> RunsAmong(jobOf, frontiers, j, index) || j == jobOf[frontiers[index]]
    {
      if RunsAmong(jobOf, frontiers, j, index) {
        var i :| 0 <= i < index && frontiers[i] < |jobOf| && jobOf[frontiers[i]] == j;
        assert frontiers[i] < |jobOf| && jobOf[frontiers[i]] == j;
      }
      if j == jobOf[frontiers[index]] {
        assert frontiers[index] < |jobOf| && jobOf[frontiers[index]] == j;
      }
    }
  }

  /** Appends `resource` to the lists of the jobs that run its frontier nodes. */
  method AddFrontiers(jobOf: seq<nat>, frontiers: seq<nat>, resource: nat, before: seq<seq<nat>>) returns (r: Result<seq<seq<nat>>>)
    requires forall v | 0 <= v < |jobOf| :: jobOf[v] < |before|
    requires forall j | 0 <= j < |before| :: NoDuplicates(before[j]) && resource !in before[j]
    ensures r.Success? <==> forall f | f in frontiers :: f < |jobOf|
    ensures r.Success? ==> |r.value| == |before|
    ensures r.Success? ==> forall j | 0 <= j < |before| ::
        r.value[j] == if RunsAmong(jobOf, frontiers, j, |frontiers|) then before[j] + [resource] else before[j]
  {
    var lists: seq<seq<nat>> := before;
    for index := 0 to |frontiers|
      invariant |lists| == |before|
      invariant forall i | 0 <= i < index :: frontiers[i] < |jobOf|
      invariant forall j | 0 <= j < |before| ::
          lists[j] == if RunsAmong(jobOf, frontiers, j, index) then before[j] + [resource] else before[j]
    {
      var frontier := frontiers[index];
      if frontier >= |jobOf| {
        assert frontier in frontiers;
        return Failure("resource release frontier is out of range");
      }
      var job := jobOf[frontier];
      RunsAmongNext(jobOf, frontiers, index);
      var row := AppendUnique(lists[job], resource);
      lists := lists[job := row];
    }
    return Success(lists);
  }

  method CollectResources(data: Program, jobOf: seq<nat>, jobs: nat) returns (r: Result<(seq<seq<nat>>, seq<seq<nat>>)>)
    requires forall v | 0 <= v < |jobOf| :: jobOf[v] < jobs
    requires |jobOf| == |data.nodes|
    ensures r.Success? <==> FrontiersInRange(data)
    ensures r.Success? ==> |r.value.0| == jobs && |r.value.1| == jobs
    ensures r.Success? ==> forall j | 0 <= j < jobs ::
        FrontiersBelow(data, jobOf, j, r.value.0[j], |data.resources|) && ReleasesBelow(data, jobOf, j, r.value.1[j], |data.resources|)
  {
    var frontiers: seq<seq<nat>> := seq(jobs, _ => []);
    var releases: seq<seq<nat>> := seq(jobs, _ => []);
    for resource := 0 to |data.resources|
      invariant |frontiers| == jobs && |releases| == jobs
      invariant forall j | 0 <= j < jobs :: FrontiersBelow(data, jobOf, j, frontiers[j], resource)
      invariant forall j | 0 <= j < jobs :: ReleasesBelow(data, jobOf, j, releases[j], resource)
      invariant forall x, f | 0 <= x < resource && f in data.resources[x].releaseAfter :: f < |jobOf|
    {
      var lifetime := data.resources[resource];
      var added := AddFrontiers(jobOf, lifetime.releaseAfter, resource, frontiers);
      if added.Failure? {
        return Failure(added.error);
      }
      forall j | 0 <= j < jobs
        ensures FrontiersBelow(data, jobOf, j, added.value[j], resource + 1)
      {
        AppendAscends(frontiers[j], resource);
      }
      frontiers := added.value;
      releases := AddRelease(data, jobOf, resource, releases);
    }
    return Success((frontiers, releases));
  }

  /** Appends `resource` to the list of the job that runs its last frontier node. */
  method AddRelease(data: Program, jobOf: seq<nat>, resource: nat, before: seq<seq<nat>>) returns (releases: seq<seq<nat>>)
    requires resource < |data.resources| && |jobOf| == |data.nodes|
    requires forall f | f in data.resources[resource].releaseAfter :: f < |jobOf|
    requires forall v | 0 <= v < |jobOf| :: jobOf[v] < |before|
    requires forall j | 0 <= j < |before| :: ReleasesBelow(data, jobOf, j, before[j], resource)
    ensures |releases| == |before|
    ensures forall j | 0 <= j < |before| :: ReleasesBelow(data, jobOf, j, releases[j], resource + 1)
  {
    releases := before;
    var lifetime := data.resources[resource];
    if lifetime.releaseAfter != [] {
      var last := Max(lifetime.releaseAfter);
      var releasePreconstructed := lifetime.preconstructed && !lifetime.retainedByFeedback;
      if lifetime.hasDestroy && (!lifetime.destroyAtShutdown || releasePreconstructed) {
        AppendAscends(before[jobOf[last]], resource);
        releases := before[jobOf[last] := before[jobOf[last]] + [resource]];
      }
    }
  }

  // ---------------------------------------------------------------------
  // The planner

  method BuildJobPlan(data: Program) returns (r: Result<Plan>)
    ensures r.Success? <==> Plannable(data)
    ensures r.Success? ==> IsPlan(data, r.value)
  {
    var ordered := CheckDependencyOrder(data);
    if !ordered {
      return Failure("compiled nodes are not stored in dependency order");
    }
    var identity := seq(|data.nodes|, v requires 0 <= v < |data.nodes| => v);
    var nodeSuccessors := CollectSuccessors(data, identity, |data.nodes|);
    ReducedRows(nodeSuccessors);
    var reducedNodes := Reduce(nodeSuccessors);
    var invertedNodes := InvertAdjacency(reducedNodes.value);
    ReductionGivesImmediateTables(data, identity, nodeSuccessors, invertedNodes.value);
    var tags := TagRegions(data);
    if tags.Failure? {
      return Failure(tags.error);
    }
    var boundary := MarkReleaseBoundaries(data);
    if boundary.Failure? {
      return Failure(boundary.error);
    }
    var jobs, jobOf := AssignJobs(data, reducedNodes.value, invertedNodes.value, tags.value, boundary.value);
    assert JobsInRange(jobs, jobOf);
    var jobSuccessors := CollectSuccessors(data, jobOf, |jobs|);
    ReducedRows(jobSuccessors);
    var reducedJobs := Reduce(jobSuccessors);
    var invertedJobs := InvertAdjacency(reducedJobs.value);
    var resources := CollectResources(data, jobOf, |jobs|);
    if resources.Failure? {
      return Failure(resources.error);
    }
    var plan := Plan(seq(|jobs|, j requires 0 <= j < |jobs| =>
      CompiledJob(jobs[j], invertedJobs.value[j], reducedJobs.value[j], resources.value.0[j], resources.value.1[j])), jobOf);
    assert NodesOf(plan) == jobs;
    assert SuccessorsOf(plan) == Reduced(jobSuccessors);
    assert PredecessorsOf(plan) == invertedJobs.value;
    ListsAreFrontiers(data, jobOf, resources.value.0, resources.value.1);
    return Success(plan);
  }

  predicate JobsInRange(jobs: seq<seq<nat>>, jobOf: seq<nat>) {
    forall v | 0 <= v < |jobOf| :: jobOf[v] < |jobs|
  }

  lemma ListsAreFrontiers(data: Program, jobOf: seq<nat>, frontiers: seq<seq<nat>>, releases: seq<seq<nat>>)
    requires forall j | 0 <= j < |frontiers| :: FrontiersBelow(data, jobOf, j, frontiers[j], |data.resources|)
    requires forall j | 0 <= j < |releases| :: ReleasesBelow(data, jobOf, j, releases[j], |data.resources|)
    ensures forall j | 0 <= j < |frontiers| :: IsFrontierList(data, jobOf, j, frontiers[j])
    ensures forall j | 0 <= j < |releases| :: IsReleaseList(data, jobOf, j, releases[j])
  {
    forall j: nat, r: nat | r < |data.resources|
      ensures FrontierIn(data, jobOf, j, r) <==> exists f | f in data.resources[r].releaseAfter :: f < |jobOf| && jobOf[f] == j
    {
      var list := data.resources[r].releaseAfter;
      if f :| f in list && f < |jobOf| && jobOf[f] == j {
        var i :| 0 <= i < |list| && list[i] == f;
      }
    }
  }
}
