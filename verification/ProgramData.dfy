/** The compiled program tables that the planner and the runtime read. */
module ProgramData {
  import opened Wrappers
  import opened Graphs

  datatype OperationKind = Callback | Construct | Cutoff | Discard | Acquire | Yield | Phi

  datatype AccessMode = Read | Write | ReadWrite | Consume

  datatype AccessPurpose = Argument | Serialization

  datatype Access = Access(resource: nat, mode: AccessMode, purpose: AccessPurpose)

  datatype Node = Node(
    kind: OperationKind,
    accesses: seq<Access>,
    predecessors: seq<nat>,
    temporalPredecessors: seq<nat>,
    temporalSuccessors: seq<nat>,
    initialization: bool,
    memoized: bool)

  datatype Lifetime = Lifetime(
    releaseAfter: seq<nat>,
    preconstructed: bool,
    retainedByFeedback: bool,
    destroyAtShutdown: bool,
    hasDestroy: bool)
  {
    /** The planner schedules a release of the resource after its last frontier node. */
    predicate ReleasedByPlan() {
      && hasDestroy
      && (!destroyAtShutdown || (preconstructed && !retainedByFeedback))
      && releaseAfter != []
    }
  }

  /** `controlOfNode` may be shorter than `nodes`; `regions` lists the nodes of each feedback region. */
  datatype Program = Program(
    nodes: seq<Node>,
    controlOfNode: seq<Option<nat>>,
    resources: seq<Lifetime>,
    regions: seq<seq<nat>>)

  datatype RegionTag = NoRegion | InitializationRegion | FeedbackRegion(index: nat)

  function ControlOf(data: Program, node: nat): Option<nat> {
    if node < |data.controlOfNode| then data.controlOfNode[node] else None
  }

  /** Every node depends on lower-numbered nodes only. */
  predicate DependencyOrdered(data: Program) {
    forall v: nat, p | v < |data.nodes| && p in data.nodes[v].predecessors :: p < v
  }

  predicate Depends(data: Program, p: nat, v: nat) {
    v < |data.nodes| && p < |data.nodes| && p in data.nodes[v].predecessors
  }

  /** The successors of `p` below `n`, in ascending order. */
  ghost function SuccessorsBelow(data: Program, p: nat, n: nat): seq<nat>
    requires n <= |data.nodes|
  {
    if n == 0 then []
    else SuccessorsBelow(data, p, n - 1) + (if p in data.nodes[n - 1].predecessors then [n - 1] else [])
  }

  /** The dependency graph: an edge leads from each node to the nodes that depend on it. */
  ghost function NodeGraph(data: Program): (g: Adjacency) {
    seq(|data.nodes|, p requires 0 <= p < |data.nodes| => SuccessorsBelow(data, p, |data.nodes|))
  }

  lemma {:induction false} SuccessorsBelowMembers(data: Program, p: nat, n: nat)
    requires n <= |data.nodes|
    ensures forall v: nat :: v in SuccessorsBelow(data, p, n) <==> v < n && p in data.nodes[v].predecessors
    ensures NoDuplicates(SuccessorsBelow(data, p, n))
  {
    if n > 0 {
      SuccessorsBelowMembers(data, p, n - 1);
    }
  }

  lemma NodeGraphEdges(data: Program)
    ensures NoDuplicateEdges(NodeGraph(data)) && WellFormed(NodeGraph(data))
    ensures forall p: nat, v: nat :: Edge(NodeGraph(data), p, v) <==> Depends(data, p, v)
    ensures DependencyOrdered(data) ==> Forward(NodeGraph(data)) && Acyclic(NodeGraph(data))
  {
    var g := NodeGraph(data);
    forall p: nat | p < |g|
      ensures NoDuplicates(g[p])
      ensures forall v: nat :: v in g[p] <==> v < |g| && p in data.nodes[v].predecessors
    {
      SuccessorsBelowMembers(data, p, |g|);
    }
    if DependencyOrdered(data) {
      ForwardIsAcyclic(g);
    }
  }

  /** `v` is `u` or depends on it, directly or through other nodes. */
  ghost predicate Ancestor(data: Program, u: nat, v: nat) {
    Reaches(NodeGraph(data), u, v)
  }
}
