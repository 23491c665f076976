/**
 * The job planner: it reduces the node dependencies, fuses chains of nodes into
 * jobs, and reduces the dependencies between the jobs.
 */
module JobPlan {
  import opened Wrappers
  import opened Graphs
  import opened ProgramData
  import opened TransitiveReduction

  datatype CompiledJob = CompiledJob(
    nodes: seq<nat>,
    predecessors: seq<nat>,
    successors: seq<nat>,
    resourceFrontiers: seq<nat>,
    releasedResources: seq<nat>)

  datatype Plan = Plan(jobs: seq<CompiledJob>, jobOfNode: seq<nat>)

  predicate Ascending(s: seq<nat>) {
    forall i, j | 0 <= i < j < |s| :: s[i] < s[j]
  }

  function Max(s: seq<nat>): (m: nat)
    ensures forall x | x in s :: x <= m
    ensures s != [] ==> m in s
  {
    if s == [] then 0
    else
      var rest := Max(s[..|s| - 1]);
      var last := s[|s| - 1];
      assert s == s[..|s| - 1] + [last];
      if rest < last || |s| == 1 then last else rest
  }

  // ---------------------------------------------------------------------
  // What the planner accepts

  /** Feedback regions partition some of the nodes that are not initialization nodes. */
  predicate RegionsValid(data: Program) {
    && (forall r | 0 <= r < |data.regions| :: NoDuplicates(data.regions[r]))
    && (forall r: nat, v: nat {:trigger v in data.regions[r]} | r < |data.regions| && v in data.regions[r] ::
          v < |data.nodes| && !data.nodes[v].initialization)
    && (forall r: nat, s: nat, v: nat {:trigger v in data.regions[r], v in data.regions[s]} | r < s < |data.regions| && v in data.regions[r] :: v !in data.regions[s])
  }

  predicate FrontiersInRange(data: Program) {
    forall r, f | 0 <= r < |data.resources| && f in data.resources[r].releaseAfter :: f < |data.nodes|
  }

  predicate Plannable(data: Program) {
    DependencyOrdered(data) && RegionsValid(data) && FrontiersInRange(data)
  }

  // ---------------------------------------------------------------------
  // Which nodes are fused

  predicate IsBoundary(node: Node) {
    node.kind.Acquire? || node.kind.Yield? || node.kind.Phi?
  }

  predicate SameRegion(data: Program, u: nat, v: nat)
    requires u < |data.nodes| && v < |data.nodes|
  {
    && data.nodes[u].initialization == data.nodes[v].initialization
    && forall r | 0 <= r < |data.regions| :: u in data.regions[r] <==> v in data.regions[r]
  }

  /** A release of some resource is scheduled after `v`. */
  predicate ReleasesAfter(data: Program, v: nat) {
    exists r | 0 <= r < |data.resources| ::
      data.resources[r].ReleasedByPlan() && Max(data.resources[r].releaseAfter) == v
  }

  /** Nothing about `u` and `v` forbids running them in one job. */
  predicate Joinable(data: Program, u: nat, v: nat)
    requires u < |data.nodes| && v < |data.nodes|
  {
    && !IsBoundary(data.nodes[u]) && !IsBoundary(data.nodes[v])
    && !ReleasesAfter(data, u)
    && data.nodes[u].temporalPredecessors == [] && data.nodes[u].temporalSuccessors == []
    && data.nodes[v].temporalPredecessors == [] && data.nodes[v].temporalSuccessors == []
    && ControlOf(data, u) == None && ControlOf(data, v) == None
    && SameRegion(data, u, v)
  }

  /** `v` depends on `u` and on nothing that depends on `u`. */
  ghost predicate Immediate(data: Program, u: nat, v: nat) {
    Depends(data, u, v) && !HasDetour(NodeGraph(data), u, v)
  }

  /** `v` is the only immediate successor of `u`, and `u` the only immediate predecessor of `v`. */
  ghost predicate SoleLink(data: Program, u: nat, v: nat) {
    && Immediate(data, u, v)
    && (forall w: nat | Immediate(data, u, w) :: w == v)
    && (forall w: nat | Immediate(data, w, v) :: w == u)
  }

  ghost predicate Fusable(data: Program, u: nat, v: nat) {
    u < |data.nodes| && v < |data.nodes| && SoleLink(data, u, v) && Joinable(data, u, v)
  }

  // ---------------------------------------------------------------------
  // The meaning of a plan

  ghost predicate IsChain(data: Program, nodes: seq<nat>) {
    && |nodes| > 0
    && Ascending(nodes)
    && (forall i | 0 <= i < |nodes| :: nodes[i] < |data.nodes|)
    && forall i | 0 < i < |nodes| :: Fusable(data, nodes[i - 1], nodes[i])
  }

  ghost predicate IsMaximalChain(data: Program, nodes: seq<nat>) {
    IsChain(data, nodes) && !HasFusableSuccessor(data, nodes[|nodes| - 1])
  }

  ghost predicate HasFusableSuccessor(data: Program, u: nat) {
    exists v: nat :: Fusable(data, u, v)
  }

  /** Every assigned node is in exactly one of the jobs, the one it is mapped to. */
  ghost predicate Assigns(jobs: seq<seq<nat>>, jobOf: seq<nat>, taken: seq<bool>) {
    && |jobOf| == |taken|
    && (forall v | 0 <= v < |taken| && taken[v] :: jobOf[v] < |jobs| && v in jobs[jobOf[v]])
    && (forall j, v: nat | 0 <= j < |jobs| && v in jobs[j] :: v < |taken| && taken[v] && jobOf[v] == j)
  }

  ghost predicate FirstsAscend(jobs: seq<seq<nat>>) {
    && (forall j | 0 <= j < |jobs| :: |jobs[j]| > 0)
    && (forall j, k | 0 <= j < k < |jobs| :: jobs[j][0] < jobs[k][0])
  }

  /**
   * The nodes are partitioned into maximal chains of fusable nodes, and the
   * chains are numbered by their first nodes.
   */
  ghost predicate PartitionsIntoChains(data: Program, jobs: seq<seq<nat>>, jobOf: seq<nat>) {
    && |jobOf| == |data.nodes|
    && Assigns(jobs, jobOf, seq(|data.nodes|, _ => true))
    && (forall j | 0 <= j < |jobs| :: IsMaximalChain(data, jobs[j]))
    && FirstsAscend(jobs)
  }

  /** Job `k` holds a node that depends on a node of job `j`. */
  ghost predicate JobDepends(data: Program, jobOf: seq<nat>, j: nat, k: nat) {
    && |jobOf| == |data.nodes| && j != k
    && exists p: nat, v: nat :: Depends(data, p, v) && jobOf[p] == j && jobOf[v] == k
  }

  /** `g` is the dependency graph of the groups that `groupOf` maps the nodes to. */
  ghost predicate IsQuotient(data: Program, groupOf: seq<nat>, groups: nat, g: Adjacency) {
    && |g| == groups && NoDuplicateEdges(g) && WellFormed(g)
    && forall a: nat, b: nat :: Edge(g, a, b) <==> JobDepends(data, groupOf, a, b)
  }

  function NodesOf(plan: Plan): seq<seq<nat>> {
    seq(|plan.jobs|, j requires 0 <= j < |plan.jobs| => plan.jobs[j].nodes)
  }

  function SuccessorsOf(plan: Plan): Adjacency {
    seq(|plan.jobs|, j requires 0 <= j < |plan.jobs| => plan.jobs[j].successors)
  }

  function PredecessorsOf(plan: Plan): Adjacency {
    seq(|plan.jobs|, j requires 0 <= j < |plan.jobs| => plan.jobs[j].predecessors)
  }

  /** The resources of which some frontier node runs in job `j`. */
  predicate IsFrontierList(data: Program, jobOf: seq<nat>, j: nat, list: seq<nat>) {
    && Ascending(list)
    && (forall r | r in list :: r < |data.resources|)
    && forall r | 0 <= r < |data.resources| ::
      r in list <==> exists f | f in data.resources[r].releaseAfter :: f < |jobOf| && jobOf[f] == j
  }

  /** The resources whose release follows job `j`: their last frontier node runs in it. */
  predicate IsReleaseList(data: Program, jobOf: seq<nat>, j: nat, list: seq<nat>) {
    && Ascending(list)
    && (forall r | r in list :: r < |data.resources|)
    && forall r | 0 <= r < |data.resources| ::
      r in list <==>
        var last := Max(data.resources[r].releaseAfter);
        data.resources[r].ReleasedByPlan() && last < |jobOf| && jobOf[last] == j
  }

  ghost predicate IsPlan(data: Program, plan: Plan) {
    && PartitionsIntoChains(data, NodesOf(plan), plan.jobOfNode)
    && (exists quotient :: IsQuotient(data, plan.jobOfNode, |plan.jobs|, quotient) && SuccessorsOf(plan) == Reduced(quotient))
    && Inverts(SuccessorsOf(plan), PredecessorsOf(plan))
    && NoDuplicateEdges(PredecessorsOf(plan))
    && (forall j | 0 <= j < |plan.jobs| :: IsFrontierList(data, plan.jobOfNode, j, plan.jobs[j].resourceFrontiers))
    && (forall j | 0 <= j < |plan.jobs| :: IsReleaseList(data, plan.jobOfNode, j, plan.jobs[j].releasedResources))
  }

  // ---------------------------------------------------------------------
  // Ancestors

  function IsAncestor(data: Program, ancestor: nat, node: nat): bool
    requires DependencyOrdered(data) && node < |data.nodes|
    decreases node
  {
    if ancestor == node then true
    else if ancestor > node then false
    else exists p | p in data.nodes[node].predecessors :: IsAncestor(data, ancestor, p)
  }

  /** The recursive search decides reachability in the dependency graph. */
  lemma {:induction false} IsAncestorDecidesReachability(data: Program, ancestor: nat, node: nat)
    requires DependencyOrdered(data) && node < |data.nodes|
    ensures IsAncestor(data, ancestor, node) <==> Ancestor(data, ancestor, node)
    decreases node
  {
    var g := NodeGraph(data);
    NodeGraphEdges(data);
    if ancestor == node {
      ReachesSelf(g, node);
    } else {
      if Reaches(g, ancestor, node) {
        ForwardReaches(g, ancestor, node);
        var w := ReachesLastEdge(g, ancestor, node);
        assert Depends(data, w, node);
        IsAncestorDecidesReachability(data, ancestor, w);
      }
      if IsAncestor(data, ancestor, node) {
        var p :| p in data.nodes[node].predecessors && IsAncestor(data, ancestor, p);
        IsAncestorDecidesReachability(data, ancestor, p);
        assert Depends(data, p, node);
        ReachesEdge(g, p, node);
        ReachesTransitive(g, ancestor, p, node);
      }
    }
  }
}
