/** What a job plan promises: it admits exactly the orders that the node dependencies admit. */
module Schedules {
  import opened Graphs
  import opened ProgramData
  import opened TransitiveReduction
  import opened JobPlan
  import opened JobPlanBuilder

  /** An order in which every node runs exactly once. */
  ghost predicate IsOrder(order: seq<nat>, n: nat) {
    && NoDuplicates(order)
    && (forall v: nat :: v in order <==> v < n)
  }

  ghost predicate RespectsDependencies(data: Program, order: seq<nat>) {
    forall p: nat, v: nat | Depends(data, p, v) :: Before(order, p, v)
  }

  /** Jobs run their nodes in stored order. */
  ghost predicate RespectsJobs(plan: Plan, order: seq<nat>) {
    forall j, i, k | 0 <= j < |plan.jobs| && 0 <= i < k < |plan.jobs[j].nodes| ::
      Before(order, plan.jobs[j].nodes[i], plan.jobs[j].nodes[k])
  }

  ghost predicate AllBefore(order: seq<nat>, earlier: seq<nat>, later: seq<nat>) {
    forall a, b | a in earlier && b in later :: Before(order, a, b)
  }

  /** A job starts only when all its planned predecessors have run. */
  ghost predicate RespectsPlanEdges(plan: Plan, order: seq<nat>) {
    forall k, j | 0 <= k < |plan.jobs| && j in plan.jobs[k].predecessors && j < |plan.jobs| ::
      AllBefore(order, plan.jobs[j].nodes, plan.jobs[k].nodes)
  }

  /** Any interleaving of jobs in which each job waits for its planned predecessors. */
  ghost predicate IsSchedule(plan: Plan, order: seq<nat>) {
    RespectsJobs(plan, order) && RespectsPlanEdges(plan, order)
  }

  // ---------------------------------------------------------------------
  // Chains at their ends

  lemma {:induction false} ChainDescendants(data: Program, chain: seq<nat>, k: nat, v: nat)
    requires DependencyOrdered(data) && IsChain(data, chain) && k < |chain|
    requires Ancestor(data, chain[k], v)
    ensures v in chain || Ancestor(data, chain[|chain| - 1], v)
    decreases |chain| - k
  {
    var g := NodeGraph(data);
    NodeGraphEdges(data);
    if k < |chain| - 1 && v != chain[k] {
      ReducedReaches(g, chain[k], v);
      ReachesFirstEdge(Reduced(g), chain[k], v);
      var w :| Edge(Reduced(g), chain[k], w) && Reaches(Reduced(g), w, v);
      ReducedEdges(g, chain[k], w);
      ChainLink(data, chain, k);
      assert Immediate(data, chain[k], w);
      ReducedReaches(g, w, v);
      ChainDescendants(data, chain, k + 1, v);
    }
  }

  lemma {:induction false} ChainReaches(data: Program, chain: seq<nat>, i: nat, k: nat)
    requires DependencyOrdered(data) && IsChain(data, chain) && i <= k < |chain|
    ensures Ancestor(data, chain[i], chain[k])
    decreases k - i
  {
    var g := NodeGraph(data);
    NodeGraphEdges(data);
    if i == k {
      ReachesSelf(g, chain[i]);
    } else {
      ChainReaches(data, chain, i, k - 1);
      assert Fusable(data, chain[k - 1], chain[k]);
      ReachesEdge(g, chain[k - 1], chain[k]);
      ReachesTransitive(g, chain[i], chain[k - 1], chain[k]);
    }
  }

  function First(nodes: seq<nat>): nat
    requires |nodes| > 0
  {
    nodes[0]
  }

  function Last(nodes: seq<nat>): nat
    requires |nodes| > 0
  {
    nodes[|nodes| - 1]
  }

  /** The facts about the jobs of a partition that the theorems use. */
  lemma JobFacts(data: Program, jobs: seq<seq<nat>>, jobOf: seq<nat>)
    requires PartitionsIntoChains(data, jobs, jobOf)
    ensures forall v: nat | v < |data.nodes| :: jobOf[v] < |jobs| && v in jobs[jobOf[v]]
    ensures forall j: nat, v: nat {:trigger v in jobs[j]} | j < |jobs| && v in jobs[j] :: v < |data.nodes| && jobOf[v] == j
    ensures forall j | 0 <= j < |jobs| :: IsChain(data, jobs[j])
  {
    var all := seq(|data.nodes|, _ => true);
    forall v: nat | v < |data.nodes|
      ensures jobOf[v] < |jobs| && v in jobs[jobOf[v]]
    {
      assert all[v];
    }
  }

  lemma MemberBetweenEnds(data: Program, chain: seq<nat>, v: nat)
    requires DependencyOrdered(data) && IsChain(data, chain) && v in chain
    ensures Ancestor(data, First(chain), v) && Ancestor(data, v, Last(chain))
  {
    var i :| 0 <= i < |chain| && chain[i] == v;
    ChainReaches(data, chain, 0, i);
    ChainReaches(data, chain, i, |chain| - 1);
  }

  /**
   * A dependency between jobs, whichever of their nodes it joins, is a dependency
   * of the first node of the later job on the last node of the earlier one.
   */
  lemma JobDependencyJoinsEnds(data: Program, jobs: seq<seq<nat>>, jobOf: seq<nat>, j: nat, k: nat)
    requires DependencyOrdered(data) && PartitionsIntoChains(data, jobs, jobOf)
    requires JobDepends(data, jobOf, j, k)
    ensures j < |jobs| && k < |jobs| && Ancestor(data, Last(jobs[j]), First(jobs[k]))
  {
    var g := NodeGraph(data);
    NodeGraphEdges(data);
    JobFacts(data, jobs, jobOf);
    var p: nat, v: nat :| Depends(data, p, v) && jobOf[p] == j && jobOf[v] == k;
    ReachesEdge(g, p, v);
    assert p in jobs[j] && v in jobs[k] && v !in jobs[j];
    LeavesChainFromItsEnd(data, jobs[j], p, v);
    assert Last(jobs[j]) in jobs[j] && Last(jobs[j]) !in jobs[k];
    EntersChainAtItsStart(data, jobs[k], Last(jobs[j]), v);
  }

  lemma LeavesChainFromItsEnd(data: Program, chain: seq<nat>, p: nat, v: nat)
    requires DependencyOrdered(data) && IsChain(data, chain) && p in chain && v !in chain && Ancestor(data, p, v)
    ensures Ancestor(data, Last(chain), v)
  {
    var from: nat :| from < |chain| && chain[from] == p;
    ChainDescendants(data, chain, from, v);
  }

  lemma EntersChainAtItsStart(data: Program, chain: seq<nat>, p: nat, v: nat)
    requires DependencyOrdered(data) && IsChain(data, chain) && p !in chain && v in chain && Ancestor(data, p, v)
    ensures Ancestor(data, p, First(chain))
  {
    var to: nat :| to < |chain| && chain[to] == v;
    ChainAncestors(data, chain, to, p);
  }

  // ---------------------------------------------------------------------
  // The order of jobs

  /** Jobs are numbered in dependency order, so the job graph has no cycles. */
  lemma JobDependenciesAscend(data: Program, jobs: seq<seq<nat>>, jobOf: seq<nat>, j: nat, k: nat)
    requires DependencyOrdered(data) && PartitionsIntoChains(data, jobs, jobOf)
    requires JobDepends(data, jobOf, j, k)
    ensures j < k < |jobs|
  {
    JobDependencyJoinsEnds(data, jobs, jobOf, j, k);
    NodeGraphEdges(data);
    ForwardReaches(NodeGraph(data), Last(jobs[j]), First(jobs[k]));
    JobFacts(data, jobs, jobOf);
    assert First(jobs[j]) <= Last(jobs[j]);
  }

  lemma QuotientFacts(data: Program, plan: Plan) returns (quotient: Adjacency)
    requires Plannable(data) && IsPlan(data, plan)
    ensures IsQuotient(data, plan.jobOfNode, |plan.jobs|, quotient)
    ensures Forward(quotient) && Acyclic(quotient)
    ensures SuccessorsOf(plan) == Reduced(quotient)
  {
    quotient :| IsQuotient(data, plan.jobOfNode, |plan.jobs|, quotient) && SuccessorsOf(plan) == Reduced(quotient);
    forall u: nat, v | u < |quotient| && v in quotient[u]
      ensures u < v < |quotient|
    {
      assert Edge(quotient, u, v);
      JobDependenciesAscend(data, NodesOf(plan), plan.jobOfNode, u, v);
    }
    ForwardIsAcyclic(quotient);
  }

  /** Every planned edge, in either table, leads from a lower to a higher job number. */
  lemma PlannedEdgesAscend(data: Program, plan: Plan, j: nat, k: nat)
    requires Plannable(data) && IsPlan(data, plan)
    requires k < |plan.jobs| && j in plan.jobs[k].predecessors
    ensures j < k && k in plan.jobs[j].successors
  {
    var quotient := QuotientFacts(data, plan);
    assert j in PredecessorsOf(plan)[k];
    assert k in SuccessorsOf(plan)[j];
    ReducedEdges(quotient, j, k);
    assert Edge(SuccessorsOf(plan), j, k);
  }

  /** What reaches in the quotient reaches between the ends of the jobs. */
  lemma {:induction false} QuotientPathJoinsEnds(data: Program, jobs: seq<seq<nat>>, jobOf: seq<nat>, quotient: Adjacency, p: seq<nat>, j: nat, k: nat)
    requires DependencyOrdered(data) && PartitionsIntoChains(data, jobs, jobOf)
    requires IsQuotient(data, jobOf, |jobs|, quotient) && IsPath(quotient, p, j, k) && |p| > 1
    ensures j < |jobs| && k < |jobs| && Ancestor(data, Last(jobs[j]), First(jobs[k]))
    decreases |p|
  {
    assert Edge(quotient, j, p[1]);
    JobDependencyJoinsEnds(data, jobs, jobOf, j, p[1]);
    if |p| > 2 {
      assert IsPath(quotient, p[1..], p[1], k);
      QuotientPathJoinsEnds(data, jobs, jobOf, quotient, p[1..], p[1], k);
      JobFacts(data, jobs, jobOf);
      ChainReaches(data, jobs[p[1]], 0, |jobs[p[1]]| - 1);
      ReachesTransitive(NodeGraph(data), Last(jobs[j]), First(jobs[p[1]]), Last(jobs[p[1]]));
      ReachesTransitive(NodeGraph(data), Last(jobs[j]), Last(jobs[p[1]]), First(jobs[k]));
    }
  }

  lemma {:induction false} NodePathJoinsJobs(data: Program, jobs: seq<seq<nat>>, jobOf: seq<nat>, quotient: Adjacency, p: seq<nat>, u: nat, v: nat)
    requires DependencyOrdered(data) && PartitionsIntoChains(data, jobs, jobOf)
    requires IsQuotient(data, jobOf, |jobs|, quotient) && IsPath(NodeGraph(data), p, u, v)
    ensures u < |data.nodes| && v < |data.nodes| && Reaches(quotient, jobOf[u], jobOf[v])
    decreases |p|
  {
    JobFacts(data, jobs, jobOf);
    NodeGraphEdges(data);
    if |p| == 1 {
      ReachesSelf(quotient, jobOf[u]);
    } else {
      assert Edge(NodeGraph(data), u, p[1]);
      assert IsPath(NodeGraph(data), p[1..], p[1], v);
      NodePathJoinsJobs(data, jobs, jobOf, quotient, p[1..], p[1], v);
      if jobOf[u] != jobOf[p[1]] {
        assert Edge(quotient, jobOf[u], jobOf[p[1]]);
        ReachesEdge(quotient, jobOf[u], jobOf[p[1]]);
        ReachesTransitive(quotient, jobOf[u], jobOf[p[1]], jobOf[v]);
      }
    }
  }

  /**
   * The planned job graph orders two jobs exactly when the first node of the
   * later depends on the last node of the earlier: fusing and reducing add no
   * order between jobs and lose none.
   */
  lemma JobOrderIsNodeOrder(data: Program, plan: Plan, j: nat, k: nat)
    requires Plannable(data) && IsPlan(data, plan) && j < |plan.jobs| && k < |plan.jobs| && j != k
    ensures |plan.jobs[j].nodes| > 0 && |plan.jobs[k].nodes| > 0
    ensures Reaches(SuccessorsOf(plan), j, k) <==> Ancestor(data, Last(plan.jobs[j].nodes), First(plan.jobs[k].nodes))
  {
    var jobs := NodesOf(plan);
    var quotient := QuotientFacts(data, plan);
    ReducedReaches(quotient, j, k);
    JobFacts(data, jobs, plan.jobOfNode);
    assert IsChain(data, jobs[j]) && IsChain(data, jobs[k]);
    if Reaches(quotient, j, k) {
      var p :| IsPath(quotient, p, j, k);
      QuotientPathJoinsEnds(data, jobs, plan.jobOfNode, quotient, p, j, k);
    }
    if Ancestor(data, Last(jobs[j]), First(jobs[k])) {
      assert Last(jobs[j]) in jobs[j] && First(jobs[k]) in jobs[k];
      var p :| IsPath(NodeGraph(data), p, Last(jobs[j]), First(jobs[k]));
      NodePathJoinsJobs(data, jobs, plan.jobOfNode, quotient, p, Last(jobs[j]), First(jobs[k]));
    }
  }

  // ---------------------------------------------------------------------
  // Schedules

  lemma {:induction false} PathIsOrdered(data: Program, order: seq<nat>, p: seq<nat>, u: nat, v: nat)
    requires NoDuplicates(order) && RespectsDependencies(data, order)
    requires IsPath(NodeGraph(data), p, u, v)
    ensures |p| > 1 ==> Before(order, u, v)
    decreases |p|
  {
    NodeGraphEdges(data);
    if |p| > 1 {
      assert Edge(NodeGraph(data), u, p[1]);
      assert IsPath(NodeGraph(data), p[1..], p[1], v);
      PathIsOrdered(data, order, p[1..], p[1], v);
      if |p| > 2 {
        BeforeTransitive(order, u, p[1], v);
      }
    }
  }

  lemma {:induction false} PlanPathIsOrdered(plan: Plan, order: seq<nat>, p: seq<nat>, j: nat, k: nat)
    requires NoDuplicates(order) && RespectsPlanEdges(plan, order)
    requires Inverts(SuccessorsOf(plan), PredecessorsOf(plan))
    requires forall x | 0 <= x < |plan.jobs| :: |plan.jobs[x].nodes| > 0
    requires IsPath(SuccessorsOf(plan), p, j, k) && |p| > 1
    ensures j < |plan.jobs| && k < |plan.jobs| && AllBefore(order, plan.jobs[j].nodes, plan.jobs[k].nodes)
    decreases |p|
  {
    var next := p[1];
    assert Edge(SuccessorsOf(plan), j, next);
    assert j in PredecessorsOf(plan)[next];
    assert AllBefore(order, plan.jobs[j].nodes, plan.jobs[next].nodes);
    if |p| > 2 {
      assert IsPath(SuccessorsOf(plan), p[1..], next, k);
      PlanPathIsOrdered(plan, order, p[1..], next, k);
      var between := plan.jobs[next].nodes[0];
      forall a, b | a in plan.jobs[j].nodes && b in plan.jobs[k].nodes
        ensures Before(order, a, b)
      {
        BeforeTransitive(order, a, between, b);
      }
    }
  }

  /** Every schedule of the planned jobs respects every dependency between nodes. */
  lemma ScheduleRespectsDependencies(data: Program, plan: Plan, order: seq<nat>)
    requires Plannable(data) && IsPlan(data, plan) && IsOrder(order, |data.nodes|)
    requires IsSchedule(plan, order)
    ensures RespectsDependencies(data, order)
  {
    var jobs := NodesOf(plan);
    var quotient := QuotientFacts(data, plan);
    JobFacts(data, jobs, plan.jobOfNode);
    forall p: nat, v: nat | Depends(data, p, v)
      ensures Before(order, p, v)
    {
      var j, k := plan.jobOfNode[p], plan.jobOfNode[v];
      assert p in jobs[j] && v in jobs[k];
      if j == k {
        var a: nat :| a < |jobs[j]| && jobs[j][a] == p;
        var b: nat :| b < |jobs[j]| && jobs[j][b] == v;
        assert p < v && IsChain(data, jobs[j]);
        assert a < b;
        assert Before(order, plan.jobs[j].nodes[a], plan.jobs[j].nodes[b]);
      } else {
        assert Edge(quotient, j, k);
        ReachesEdge(quotient, j, k);
        ReducedReaches(quotient, j, k);
        var path :| IsPath(SuccessorsOf(plan), path, j, k);
        forall x | 0 <= x < |plan.jobs|
          ensures |plan.jobs[x].nodes| > 0
        {
          assert IsChain(data, jobs[x]);
        }
        PlanPathIsOrdered(plan, order, path, j, k);
      }
    }
  }

  /** Every order that respects the node dependencies is a schedule of the planned jobs. */
  lemma DependencyOrderIsSchedule(data: Program, plan: Plan, order: seq<nat>)
    requires Plannable(data) && IsPlan(data, plan) && IsOrder(order, |data.nodes|)
    requires RespectsDependencies(data, order)
    ensures IsSchedule(plan, order)
  {
    var jobs := NodesOf(plan);
    var quotient := QuotientFacts(data, plan);
    JobFacts(data, jobs, plan.jobOfNode);
    forall j, i, k | 0 <= j < |plan.jobs| && 0 <= i < k < |plan.jobs[j].nodes|
      ensures Before(order, plan.jobs[j].nodes[i], plan.jobs[j].nodes[k])
    {
      assert IsChain(data, jobs[j]);
      ChainReaches(data, jobs[j], i, k);
      AncestorsAreOrdered(data, order, jobs[j][i], jobs[j][k]);
    }
    forall k, j | 0 <= k < |plan.jobs| && j in plan.jobs[k].predecessors && j < |plan.jobs|
      ensures AllBefore(order, plan.jobs[j].nodes, plan.jobs[k].nodes)
    {
      PlannedEdgesAscend(data, plan, j, k);
      ReachesEdge(SuccessorsOf(plan), j, k);
      JobOrderIsNodeOrder(data, plan, j, k);
      forall a, b | a in jobs[j] && b in jobs[k]
        ensures Before(order, a, b)
      {
        MemberBetweenEnds(data, jobs[j], a);
        MemberBetweenEnds(data, jobs[k], b);
        ReachesTransitive(NodeGraph(data), a, Last(jobs[j]), First(jobs[k]));
        ReachesTransitive(NodeGraph(data), a, First(jobs[k]), b);
        AncestorsAreOrdered(data, order, a, b);
      }
    }
  }

  lemma AncestorsAreOrdered(data: Program, order: seq<nat>, u: nat, v: nat)
    requires NoDuplicates(order) && RespectsDependencies(data, order)
    requires Ancestor(data, u, v) && u != v
    ensures Before(order, u, v)
  {
    var p :| IsPath(NodeGraph(data), p, u, v);
    PathIsOrdered(data, order, p, u, v);
  }

  /**
   * The plan admits exactly the linear extensions of the node dependencies:
   * grouping nodes into jobs costs no parallelism and drops no order.
   */
  lemma SchedulesAreLinearExtensions(data: Program, plan: Plan, order: seq<nat>)
    requires Plannable(data) && IsPlan(data, plan) && IsOrder(order, |data.nodes|)
    ensures IsSchedule(plan, order) <==> RespectsDependencies(data, order)
  {
    if IsSchedule(plan, order) {
      ScheduleRespectsDependencies(data, plan, order);
    }
    if RespectsDependencies(data, order) {
      DependencyOrderIsSchedule(data, plan, order);
    }
  }

  // ---------------------------------------------------------------------
  // Jobs and releases

  /** Two nodes are neighbours in a job exactly when they are fusable. */
  lemma NeighboursAreFusable(data: Program, plan: Plan, u: nat, v: nat)
    requires Plannable(data) && IsPlan(data, plan) && u < |data.nodes| && v < |data.nodes|
    ensures Fusable(data, u, v) <==> exists j, i: nat {:trigger plan.jobs[j].nodes[i]} | 0 <= j < |plan.jobs| ::
          0 < i < |plan.jobs[j].nodes| && plan.jobs[j].nodes[i - 1] == u && plan.jobs[j].nodes[i] == v
  {
    var jobs := NodesOf(plan);
    var taken := seq(|data.nodes|, _ => true);
    JobFacts(data, jobs, plan.jobOfNode);
    if Fusable(data, u, v) {
      var j := plan.jobOfNode[v];
      var i := PositionInJob(data, jobs, plan.jobOfNode, taken, u, v);
      if i == 0 {
        FusedNodeIsNotFirst(data, jobs, plan.jobOfNode, u, v);
      }
      assert plan.jobs[j].nodes[i] == v;
    }
    if j, i: nat :| 0 <= j < |plan.jobs| && 0 < i < |plan.jobs[j].nodes| && plan.jobs[j].nodes[i - 1] == u && plan.jobs[j].nodes[i] == v {
      assert IsChain(data, jobs[j]);
      assert Fusable(data, jobs[j][i - 1], jobs[j][i]);
    }
  }

  lemma FusedNodeIsNotFirst(data: Program, jobs: seq<seq<nat>>, jobOf: seq<nat>, u: nat, v: nat)
    requires DependencyOrdered(data) && PartitionsIntoChains(data, jobs, jobOf) && Fusable(data, u, v)
    ensures jobOf[v] < |jobs| && |jobs[jobOf[v]]| > 0 && jobs[jobOf[v]][0] != v
  {
    JobFacts(data, jobs, jobOf);
    var j, k := jobOf[u], jobOf[v];
    assert u in jobs[j] && v in jobs[k];
    assert IsMaximalChain(data, jobs[j]);
    var i := FusedNeighbour(data, jobs[j], u, v);
    assert v in jobs[j] && j == k;
  }

  /** The node that can be fused to a member of a maximal chain follows it in the chain. */
  lemma FusedNeighbour(data: Program, chain: seq<nat>, u: nat, v: nat) returns (i: nat)
    requires IsMaximalChain(data, chain) && u in chain && Fusable(data, u, v)
    ensures i + 1 < |chain| && chain[i + 1] == v
  {
    i :| 0 <= i < |chain| && chain[i] == u;
    assert i != |chain| - 1;
    ChainLink(data, chain, i);
    assert Immediate(data, u, chain[i + 1]);
  }

  lemma ChainLink(data: Program, chain: seq<nat>, i: nat)
    requires IsChain(data, chain) && i + 1 < |chain|
    ensures Fusable(data, chain[i], chain[i + 1])
  {
    assert Fusable(data, chain[i + 1 - 1], chain[i + 1]);
  }

  /** A node after which a resource is released ends its chain. */
  lemma ReleaseEndsChain(data: Program, chain: seq<nat>, i: nat)
    requires IsChain(data, chain) && i < |chain| && ReleasesAfter(data, chain[i])
    ensures i == |chain| - 1
  {
    if i + 1 < |chain| {
      ChainLink(data, chain, i);
    }
  }

  /**
   * A resource is released after exactly one job, and its highest-numbered
   * frontier node is the last node of that job.
   */
  lemma ReleasePlacement(data: Program, plan: Plan, r: nat)
    requires Plannable(data) && IsPlan(data, plan) && r < |data.resources|
    ensures forall j | 0 <= j < |plan.jobs| && r in plan.jobs[j].releasedResources ::
        |plan.jobs[j].nodes| > 0 && Last(plan.jobs[j].nodes) == Max(data.resources[r].releaseAfter)
    ensures (exists j | 0 <= j < |plan.jobs| :: r in plan.jobs[j].releasedResources) <==> data.resources[r].ReleasedByPlan()
    ensures forall j, k | 0 <= j < |plan.jobs| && 0 <= k < |plan.jobs| ::
        r in plan.jobs[j].releasedResources && r in plan.jobs[k].releasedResources ==> j == k
  {
    var jobs := NodesOf(plan);
    var last := Max(data.resources[r].releaseAfter);
    JobFacts(data, jobs, plan.jobOfNode);
    forall j: nat | j < |plan.jobs| && r in plan.jobs[j].releasedResources
      ensures |plan.jobs[j].nodes| > 0 && Last(plan.jobs[j].nodes) == last
    {
      assert IsReleaseList(data, plan.jobOfNode, j, plan.jobs[j].releasedResources);
      assert last in jobs[j] && IsChain(data, jobs[j]);
      var i: nat :| i < |jobs[j]| && jobs[j][i] == last;
      assert ReleasesAfter(data, last);
      ReleaseEndsChain(data, jobs[j], i);
    }
    if data.resources[r].ReleasedByPlan() {
      assert last in data.resources[r].releaseAfter;
      var j := plan.jobOfNode[last];
      assert IsReleaseList(data, plan.jobOfNode, j, plan.jobs[j].releasedResources);
    }
    forall j: nat | j < |plan.jobs|
      ensures r in plan.jobs[j].releasedResources <==> data.resources[r].ReleasedByPlan() && last < |plan.jobOfNode| && plan.jobOfNode[last] == j
    {
      assert IsReleaseList(data, plan.jobOfNode, j, plan.jobs[j].releasedResources);
    }
  }

  // ---------------------------------------------------------------------
  // The jobs in terms of the compiled nodes

  /** Acquires, yields and phis, nodes with temporal edges, and nodes inside a control. */
  predicate StandsAlone(data: Program, v: nat)
    requires v < |data.nodes|
  {
    || data.nodes[v].kind == OperationKind.Acquire || data.nodes[v].kind == OperationKind.Yield || data.nodes[v].kind == OperationKind.Phi
    || |data.nodes[v].temporalPredecessors| > 0 || |data.nodes[v].temporalSuccessors| > 0
    || (v < |data.controlOfNode| && data.controlOfNode[v].Some?)
  }

  /** Such a node is the only one of its job. */
  lemma StandsAloneInJob(data: Program, plan: Plan, v: nat)
    requires Plannable(data) && IsPlan(data, plan) && v < |data.nodes| && StandsAlone(data, v)
    ensures v < |plan.jobOfNode| && plan.jobOfNode[v] < |plan.jobs| && plan.jobs[plan.jobOfNode[v]].nodes == [v]
  {
    JobFacts(data, NodesOf(plan), plan.jobOfNode);
    var nodes := NodesOf(plan)[plan.jobOfNode[v]];
    var i: nat :| i < |nodes| && nodes[i] == v;
    ChainMemberJoins(data, nodes, i);
  }

  lemma ChainMemberJoins(data: Program, nodes: seq<nat>, i: nat)
    requires IsChain(data, nodes) && i < |nodes|
    ensures |nodes| == 1 || !StandsAlone(data, nodes[i])
  {
    if |nodes| > 1 {
      var k := if i == 0 then 1 else i;
      assert Fusable(data, nodes[k - 1], nodes[k]);
    }
  }

  /** The nodes are in the same regions, and both or neither of them belong to the initialization. */
  predicate StandTogether(data: Program, u: nat, v: nat)
    requires u < |data.nodes| && v < |data.nodes|
  {
    && data.nodes[u].initialization == data.nodes[v].initialization
    && forall region | region in data.regions :: u in region <==> v in region
  }

  /** The node is the highest-numbered one that some lifetime is released after. */
  predicate EndsLifetime(lifetime: Lifetime, v: nat) {
    v in lifetime.releaseAfter && forall f | f in lifetime.releaseAfter :: f <= v
  }

  /** Lifetimes that end during the run: those with a destructor, unless kept until the shutdown; preconstructed ones only if nothing is fed back. */
  predicate EndsInRun(lifetime: Lifetime) {
    && lifetime.hasDestroy && lifetime.releaseAfter != []
    && (lifetime.destroyAtShutdown ==> lifetime.preconstructed && !lifetime.retainedByFeedback)
  }

  lemma EndsLifetimeIsMax(lifetime: Lifetime, v: nat)
    requires lifetime.releaseAfter != []
    ensures EndsLifetime(lifetime, v) <==> Max(lifetime.releaseAfter) == v
  {
  }

  predicate NeighboursInJob(plan: Plan, u: nat, v: nat) {
    exists j, i: nat {:trigger plan.jobs[j].nodes[i]} | 0 <= j < |plan.jobs| ::
      0 < i < |plan.jobs[j].nodes| && plan.jobs[j].nodes[i - 1] == u && plan.jobs[j].nodes[i] == v
  }

  /**
   * Two nodes are neighbours in a job exactly when neither has to stand alone, they
   * are in the same regions, nothing is released after the first, and the link
   * between them is the only one of both.
   */
  lemma JoinedExactly(data: Program, plan: Plan, u: nat, v: nat)
    requires Plannable(data) && IsPlan(data, plan) && u < |data.nodes| && v < |data.nodes|
    ensures NeighboursInJob(plan, u, v) <==>
      && !StandsAlone(data, u) && !StandsAlone(data, v) && StandTogether(data, u, v)
      && (forall lifetime | lifetime in data.resources && EndsInRun(lifetime) :: !EndsLifetime(lifetime, u))
      && SoleLink(data, u, v)
  {
    NeighboursAreFusable(data, plan, u, v);
    ReleasesAfterMeans(data, u);
    assert (forall region | region in data.regions :: u in region <==> v in region)
      <==> (forall r | 0 <= r < |data.regions| :: u in data.regions[r] <==> v in data.regions[r]) by {
      assert forall r | 0 <= r < |data.regions| :: data.regions[r] in data.regions;
    }
  }

  lemma ReleasesAfterMeans(data: Program, u: nat)
    ensures ReleasesAfter(data, u) <==> exists lifetime | lifetime in data.resources && EndsInRun(lifetime) :: EndsLifetime(lifetime, u)
  {
    if ReleasesAfter(data, u) {
      var r :| 0 <= r < |data.resources| && data.resources[r].ReleasedByPlan() && Max(data.resources[r].releaseAfter) == u;
      EndsLifetimeIsMax(data.resources[r], u);
      assert data.resources[r] in data.resources && EndsInRun(data.resources[r]);
    }
    if lifetime :| lifetime in data.resources && EndsInRun(lifetime) && EndsLifetime(lifetime, u) {
      EndsLifetimeIsMax(lifetime, u);
      var r :| 0 <= r < |data.resources| && data.resources[r] == lifetime;
      assert data.resources[r].ReleasedByPlan();
    }
  }

  /** A resource is released after a job exactly when its lifetime ends in the run, and with the last of the job's nodes. */
  lemma ReleasedExactly(data: Program, plan: Plan, r: nat, j: nat)
    requires Plannable(data) && IsPlan(data, plan) && r < |data.resources| && j < |plan.jobs|
    ensures |plan.jobs[j].nodes| > 0
    ensures r in plan.jobs[j].releasedResources <==> EndsInRun(data.resources[r]) && EndsLifetime(data.resources[r], Last(plan.jobs[j].nodes))
  {
    JobFacts(data, NodesOf(plan), plan.jobOfNode);
    var nodes := NodesOf(plan)[j];
    assert IsChain(data, nodes) && nodes[|nodes| - 1] in nodes;
    assert IsReleaseList(data, plan.jobOfNode, j, plan.jobs[j].releasedResources);
    ReleasePlacement(data, plan, r);
    if data.resources[r].releaseAfter != [] {
      EndsLifetimeIsMax(data.resources[r], Last(nodes));
    }
  }
}
