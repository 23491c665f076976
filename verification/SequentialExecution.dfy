/**
 * The sequential initialisation path: nodes outside feedback regions run in
 * order, and a resource is released after the last node of the job that the
 * planner scheduled its release after.
 */
module SequentialExecution {
  import opened Wrappers
  import opened Graphs
  import opened ProgramData
  import opened JobPlan
  import opened Schedules

  datatype Event = Executed(node: nat) | Released(resource: nat)

  predicate InRegion(data: Program, v: nat) {
    exists r | 0 <= r < |data.regions| :: v in data.regions[r]
  }

  function ReleaseEvents(resources: seq<nat>): (events: seq<Event>)
    ensures |events| == |resources| && forall i | 0 <= i < |events| :: events[i] == Released(resources[i])
  {
    seq(|resources|, i requires 0 <= i < |resources| => Released(resources[i]))
  }

  /** The releases that follow a node: those of its job, if it is the job's last node. */
  function ReleasesAfterNode(plan: Plan, v: nat): seq<nat>
    requires v < |plan.jobOfNode| && plan.jobOfNode[v] < |plan.jobs|
  {
    var job := plan.jobs[plan.jobOfNode[v]];
    if job.nodes == [] || job.nodes[|job.nodes| - 1] != v then [] else job.releasedResources
  }

  predicate JobsInRange(data: Program, plan: Plan) {
    |plan.jobOfNode| == |data.nodes| && forall v | 0 <= v < |plan.jobOfNode| :: plan.jobOfNode[v] < |plan.jobs|
  }

  function NodeEvents(data: Program, plan: Plan, v: nat): seq<Event>
    requires JobsInRange(data, plan) && v < |data.nodes|
  {
    if InRegion(data, v) then [] else [Executed(v)] + ReleaseEvents(ReleasesAfterNode(plan, v))
  }

  function Flattened<T>(rows: seq<seq<T>>, n: nat): seq<T>
    requires n <= |rows|
  {
    if n == 0 then [] else Flattened(rows, n - 1) + rows[n - 1]
  }

  function EventRows(data: Program, plan: Plan): (rows: seq<seq<Event>>)
    requires JobsInRange(data, plan)
    ensures |rows| == |data.nodes|
  {
    seq(|data.nodes|, v requires 0 <= v < |data.nodes| => NodeEvents(data, plan, v))
  }

  lemma EventRow(data: Program, plan: Plan, v: nat)
    requires JobsInRange(data, plan) && v < |data.nodes|
    ensures EventRows(data, plan)[v] == NodeEvents(data, plan, v)
  {
  }

  lemma PassingExtends(data: Program, plan: Plan, v: nat)
    requires JobsInRange(data, plan) && v < |data.nodes|
    ensures Flattened(EventRows(data, plan), v + 1) == Flattened(EventRows(data, plan), v) + NodeEvents(data, plan, v)
  {
    EventRow(data, plan, v);
  }

  /** What happens while all nodes are passed in order. */
  function Trace(data: Program, plan: Plan): seq<Event>
    requires JobsInRange(data, plan)
  {
    Flattened(EventRows(data, plan), |data.nodes|)
  }

  predicate Passable(data: Program, v: nat) {
    InRegion(data, v) || ControlOf(data, v) == None
  }

  /** Independent feedback regions exclude structured control in the nodes outside them. */
  predicate Runnable(data: Program) {
    PassableBelow(data, |data.nodes|)
  }

  predicate PassableBelow(data: Program, n: nat) {
    forall v: nat | v < n :: Passable(data, v)
  }

  predicate IsOutside(data: Program, v: nat) {
    forall region | region in data.regions :: v !in region
  }

  lemma OutsideMeans(data: Program, v: nat)
    ensures IsOutside(data, v) <==> !InRegion(data, v)
  {
    assert forall r | 0 <= r < |data.regions| :: data.regions[r] in data.regions;
  }

  /** No node of the program is outside the regions and inside a control. */
  lemma RunnableMeans(data: Program)
    ensures Runnable(data) <==>
      forall v: nat | v < |data.nodes| && v < |data.controlOfNode| && IsOutside(data, v) :: data.controlOfNode[v] == None
  {
    forall v: nat | v < |data.nodes|
      ensures Passable(data, v) <==> (v < |data.controlOfNode| && IsOutside(data, v) ==> data.controlOfNode[v] == None)
    {
      OutsideMeans(data, v);
    }
    if !Runnable(data) {
      var v: nat :| v < |data.nodes| && !Passable(data, v);
      assert v < |data.controlOfNode| && IsOutside(data, v) && data.controlOfNode[v] != None;
    }
  }

  lemma PassableNext(data: Program, n: nat)
    ensures PassableBelow(data, n + 1) <==> PassableBelow(data, n) && Passable(data, n)
    ensures !Passable(data, n) && n < |data.nodes| ==> !Runnable(data)
  {
  }

  /** The events of the nodes below n, all of which could be passed. */
  ghost predicate Passed(data: Program, plan: Plan, n: nat, events: seq<Event>)
    requires JobsInRange(data, plan) && n <= |data.nodes|
  {
    PassableBelow(data, n) && events == Flattened(EventRows(data, plan), n)
  }

  lemma PassedNext(data: Program, plan: Plan, n: nat, events: seq<Event>, more: seq<Event>, next: nat)
    requires JobsInRange(data, plan) && n < |data.nodes| && next == n + 1
    requires Passed(data, plan, n, events) && Passable(data, n) && more == NodeEvents(data, plan, n)
    ensures Passed(data, plan, next, events + more)
  {
    PassableNext(data, n);
    PassingExtends(data, plan, n);
  }

  method IsInRegion(data: Program, v: nat) returns (b: bool)
    ensures b <==> InRegion(data, v)
  {
    b := false;
    for region := 0 to |data.regions|
      invariant b <==> exists r | 0 <= r < region :: v in data.regions[r]
    {
      b := b || v in data.regions[region];
    }
  }

  method ExecuteInitialization(data: Program, plan: Plan) returns (r: Result<seq<Event>>)
    requires JobsInRange(data, plan)
    ensures r.Success? <==>
      forall v: nat | v < |data.nodes| && v < |data.controlOfNode| && IsOutside(data, v) :: data.controlOfNode[v] == None
    ensures r.Success? ==> r.value == Trace(data, plan)
  {
    RunnableMeans(data);
    var events: seq<Event> := [];
    for node := 0 to |data.nodes|
      invariant Passed(data, plan, node, events)
    {
      PassableNext(data, node);
      var passed := PassNode(data, plan, node);
      if passed.Failure? {
        return Failure(passed.error);
      }
      PassedNext(data, plan, node, events, passed.value, node + 1);
      events := events + passed.value;
    }
    return Success(events);
  }

  method PassNode(data: Program, plan: Plan, node: nat) returns (r: Result<seq<Event>>)
    requires JobsInRange(data, plan) && node < |data.nodes|
    ensures r.Success? <==> Passable(data, node)
    ensures r.Success? ==> r.value == NodeEvents(data, plan, node)
  {
    var skipped := IsInRegion(data, node);
    if skipped {
      return Success([]);
    }
    if node < |data.controlOfNode| && data.controlOfNode[node] != None {
      return Failure("structured control with independent feedback regions is not yet supported");
    }
    var released := ReleaseAfterNode(plan, node);
    return Success([Executed(node)] + released);
  }

  method ReleaseAfterNode(plan: Plan, node: nat) returns (events: seq<Event>)
    requires node < |plan.jobOfNode| && plan.jobOfNode[node] < |plan.jobs|
    ensures events == ReleaseEvents(ReleasesAfterNode(plan, node))
  {
    var planned := plan.jobs[plan.jobOfNode[node]];
    events := [];
    if planned.nodes == [] || planned.nodes[|planned.nodes| - 1] != node {
      return;
    }
    for i := 0 to |planned.releasedResources|
      invariant |events| == i && forall j | 0 <= j < i :: events[j] == Released(planned.releasedResources[j])
    {
      events := events + [Released(planned.releasedResources[i])];
    }
  }

  lemma PlanInRange(data: Program, plan: Plan)
    requires IsPlan(data, plan)
    ensures JobsInRange(data, plan)
  {
    JobFacts(data, NodesOf(plan), plan.jobOfNode);
  }

  // ---------------------------------------------------------------------
  // Executions and releases

  /** The node whose passing releases the resource. */
  function ReleaseNode(data: Program, r: nat): nat
    requires r < |data.resources|
  {
    Max(data.resources[r].releaseAfter)
  }

  /** A resource is released after a node exactly when the planner releases it and the node is its last frontier. */
  lemma ReleasedAfterItsLastFrontier(data: Program, plan: Plan, v: nat, r: nat)
    requires Plannable(data) && IsPlan(data, plan) && v < |data.nodes|
    ensures JobsInRange(data, plan)
    ensures r in ReleasesAfterNode(plan, v) <==> r < |data.resources| && data.resources[r].ReleasedByPlan() && ReleaseNode(data, r) == v
  {
    PlanInRange(data, plan);
    var j := plan.jobOfNode[v];
    JobFacts(data, NodesOf(plan), plan.jobOfNode);
    assert v in NodesOf(plan)[j];
    assert IsReleaseList(data, plan.jobOfNode, j, plan.jobs[j].releasedResources);
    if r < |data.resources| {
      ReleasePlacement(data, plan, r);
    }
  }

  lemma ReleaseEventsMembers(resources: seq<nat>, e: Event)
    ensures e in ReleaseEvents(resources) <==> e.Released? && e.resource in resources
  {
    if e.Released? && e.resource in resources {
      var i :| 0 <= i < |resources| && resources[i] == e.resource;
      assert ReleaseEvents(resources)[i] == e;
    }
  }

  ghost predicate Happens(data: Program, e: Event, n: nat) {
    match e
    case Executed(v) => v < n && !InRegion(data, v)
    case Released(r) => r < |data.resources| && data.resources[r].ReleasedByPlan() && ReleaseNode(data, r) < n && !InRegion(data, ReleaseNode(data, r))
  }

  lemma NodeEventsMembers(data: Program, plan: Plan, v: nat, e: Event)
    requires Plannable(data) && IsPlan(data, plan) && v < |data.nodes|
    ensures JobsInRange(data, plan)
    ensures e in NodeEvents(data, plan, v) <==> Happens(data, e, v + 1) && !Happens(data, e, v)
  {
    PlanInRange(data, plan);
    ReleaseEventsMembers(ReleasesAfterNode(plan, v), e);
    if e.Released? {
      ReleasedAfterItsLastFrontier(data, plan, v, e.resource);
    }
  }

  lemma {:induction false} FlattenedMembers<T>(rows: seq<seq<T>>, n: nat, x: T)
    requires n <= |rows|
    ensures x in Flattened(rows, n) <==> exists v: nat :: v < n && x in rows[v]
  {
    if n > 0 {
      FlattenedMembers(rows, n - 1, x);
    }
  }

  lemma TraceMembers(data: Program, plan: Plan, n: nat, e: Event)
    requires Plannable(data) && IsPlan(data, plan) && n <= |data.nodes|
    ensures JobsInRange(data, plan)
    ensures e in Flattened(EventRows(data, plan), n) <==> Happens(data, e, n)
  {
    PlanInRange(data, plan);
    var rows := EventRows(data, plan);
    FlattenedMembers(rows, n, e);
    if v: nat :| v < n && e in rows[v] {
      EventRow(data, plan, v);
      NodeEventsMembers(data, plan, v, e);
    }
    if Happens(data, e, n) {
      var at := HappensAt(data, e, n);
      EventRow(data, plan, at);
      NodeEventsMembers(data, plan, at, e);
      assert e in rows[at];
    }
  }

  /** The node at which an event happens. */
  lemma HappensAt(data: Program, e: Event, n: nat) returns (at: nat)
    requires Happens(data, e, n)
    ensures at < n && Happens(data, e, at + 1) && !Happens(data, e, at)
  {
    at := if e.Executed? then e.node else ReleaseNode(data, e.resource);
  }

  lemma NodeEventsDistinct(data: Program, plan: Plan, v: nat)
    requires Plannable(data) && IsPlan(data, plan) && v < |data.nodes|
    ensures JobsInRange(data, plan)
    ensures NoDuplicates(NodeEvents(data, plan, v))
  {
    PlanInRange(data, plan);
    var j := plan.jobOfNode[v];
    assert IsReleaseList(data, plan.jobOfNode, j, plan.jobs[j].releasedResources);
  }

  lemma ConcatDistinct<T>(a: seq<T>, b: seq<T>)
    requires NoDuplicates(a) && NoDuplicates(b) && forall x | x in b :: x !in a
    ensures NoDuplicates(a + b)
  {
    forall i, j | 0 <= i < j < |a + b|
      ensures (a + b)[i] != (a + b)[j]
    {
      if i < |a| <= j {
        assert b[j - |a|] in b;
      }
    }
  }

  lemma {:induction false} FlattenedDistinct<T>(rows: seq<seq<T>>, n: nat)
    requires n <= |rows|
    requires forall v: nat | v < n :: NoDuplicates(rows[v])
    requires forall u: nat, v: nat, x | u < v < n && x in rows[v] :: x !in rows[u]
    ensures NoDuplicates(Flattened(rows, n))
  {
    if n > 0 {
      FlattenedDistinct(rows, n - 1);
      var before, row := Flattened(rows, n - 1), rows[n - 1];
      forall x | x in row
        ensures x !in before
      {
        FlattenedMembers(rows, n - 1, x);
      }
      ConcatDistinct(before, row);
    }
  }

  lemma {:induction false} FlattenedExtends<T>(rows: seq<seq<T>>, m: nat, n: nat)
    requires m <= n <= |rows|
    ensures Flattened(rows, m) <= Flattened(rows, n)
  {
    if m < n {
      FlattenedExtends(rows, m, n - 1);
    }
  }

  lemma TraceDistinct(data: Program, plan: Plan)
    requires Plannable(data) && IsPlan(data, plan)
    ensures JobsInRange(data, plan)
    ensures NoDuplicates(Trace(data, plan))
  {
    PlanInRange(data, plan);
    var rows := EventRows(data, plan);
    forall v: nat | v < |rows|
      ensures NoDuplicates(rows[v])
    {
      EventRow(data, plan, v);
      NodeEventsDistinct(data, plan, v);
    }
    forall u: nat, v: nat, x | u < v < |rows| && x in rows[v]
      ensures x !in rows[u]
    {
      EventRow(data, plan, u);
      EventRow(data, plan, v);
      NodeEventsMembers(data, plan, u, x);
      NodeEventsMembers(data, plan, v, x);
    }
    FlattenedDistinct(rows, |rows|);
  }

  lemma ConcatBefore<T>(a: seq<T>, b: seq<T>, whole: seq<T>, x: T, y: T)
    requires x in a && y in b && a + b <= whole
    ensures Before(whole, x, y)
  {
    var i :| 0 <= i < |a| && a[i] == x;
    var j :| 0 <= j < |b| && b[j] == y;
    assert (a + b)[i] == x && (a + b)[|a| + j] == y;
    assert whole[i] == x && whole[|a| + j] == y;
  }

  lemma ReleaseRow(data: Program, plan: Plan, r: nat)
    requires Plannable(data) && IsPlan(data, plan)
    requires r < |data.resources| && data.resources[r].ReleasedByPlan() && !InRegion(data, ReleaseNode(data, r))
    ensures JobsInRange(data, plan)
    ensures var m := ReleaseNode(data, r);
      && m < |data.nodes|
      && EventRows(data, plan)[m] == [Executed(m)] + ReleaseEvents(ReleasesAfterNode(plan, m))
      && Released(r) in ReleaseEvents(ReleasesAfterNode(plan, m))
  {
    PlanInRange(data, plan);
    var m := ReleaseNode(data, r);
    assert m in data.resources[r].releaseAfter;
    ReleasedAfterItsLastFrontier(data, plan, m, r);
    ReleaseEventsMembers(ReleasesAfterNode(plan, m), Released(r));
    EventRow(data, plan, m);
  }

  lemma FrontierWasExecuted(data: Program, plan: Plan, f: nat, m: nat)
    requires Plannable(data) && IsPlan(data, plan)
    requires f <= m < |data.nodes| && !InRegion(data, f)
    ensures JobsInRange(data, plan)
    ensures Executed(f) in Flattened(EventRows(data, plan), m) || Executed(f) == Executed(m)
  {
    PlanInRange(data, plan);
    TraceMembers(data, plan, m, Executed(f));
  }

  lemma FrontierBeforeRelease(data: Program, plan: Plan, r: nat, f: nat)
    requires Plannable(data) && IsPlan(data, plan)
    requires r < |data.resources| && data.resources[r].ReleasedByPlan() && !InRegion(data, ReleaseNode(data, r))
    requires f in data.resources[r].releaseAfter && !InRegion(data, f)
    ensures JobsInRange(data, plan)
    ensures Before(Trace(data, plan), Executed(f), Released(r))
  {
    PlanInRange(data, plan);
    var m := ReleaseNode(data, r);
    ReleaseRow(data, plan, r);
    FrontierWasExecuted(data, plan, f, m);
    FrontierInPrefix(EventRows(data, plan), m, Executed(m), ReleaseEvents(ReleasesAfterNode(plan, m)), Executed(f), Released(r));
  }

  lemma FrontierInPrefix<T>(rows: seq<seq<T>>, m: nat, first: T, rest: seq<T>, x: T, y: T)
    requires m < |rows| && rows[m] == [first] + rest && y in rest
    requires x in Flattened(rows, m) || x == first
    ensures Before(Flattened(rows, |rows|), x, y)
  {
    FlattenedExtends(rows, m + 1, |rows|);
    var earlier := Flattened(rows, m) + [first];
    assert earlier + rest == Flattened(rows, m + 1);
    ConcatBefore(earlier, rest, Flattened(rows, |rows|), x, y);
  }

  /**
   * The sequential path runs every node outside the regions once. It releases a
   * resource once, exactly when the planner releases it and its last frontier lies
   * outside the regions, and by then every frontier outside the regions has run.
   */
  lemma ReleasedOnceAfterFrontiers(data: Program, plan: Plan, r: nat)
    requires Plannable(data) && IsPlan(data, plan) && r < |data.resources|
    ensures JobsInRange(data, plan)
    ensures NoDuplicates(Trace(data, plan))
    ensures forall v: nat :: Executed(v) in Trace(data, plan) <==> v < |data.nodes| && !InRegion(data, v)
    ensures Released(r) in Trace(data, plan) <==>
      data.resources[r].ReleasedByPlan() && !InRegion(data, ReleaseNode(data, r))
    ensures Released(r) in Trace(data, plan) ==>
      forall f | f in data.resources[r].releaseAfter && !InRegion(data, f) ::
        Before(Trace(data, plan), Executed(f), Released(r))
  {
    PlanInRange(data, plan);
    var n := |data.nodes|;
    TraceDistinct(data, plan);
    forall v: nat
      ensures Executed(v) in Trace(data, plan) <==> v < n && !InRegion(data, v)
    {
      TraceMembers(data, plan, n, Executed(v));
    }
    TraceMembers(data, plan, n, Released(r));
    if data.resources[r].ReleasedByPlan() {
      assert ReleaseNode(data, r) in data.resources[r].releaseAfter;
      if !InRegion(data, ReleaseNode(data, r)) {
        forall f | f in data.resources[r].releaseAfter && !InRegion(data, f)
          ensures Before(Trace(data, plan), Executed(f), Released(r))
        {
          FrontierBeforeRelease(data, plan, r, f);
        }
      }
    }
  }

  /**
   * Told from the compiled tables: a node runs exactly when no region lists it, and a
   * resource is released exactly when its lifetime ends in the run and with a node that
   * no region lists.
   */
  lemma HappensExactly(data: Program, plan: Plan, v: nat, r: nat)
    requires Plannable(data) && IsPlan(data, plan) && r < |data.resources|
    ensures JobsInRange(data, plan)
    ensures Executed(v) in Trace(data, plan) <==> v < |data.nodes| && forall region | region in data.regions :: v !in region
    ensures EndsLifetime(data.resources[r], v) ==>
      (Released(r) in Trace(data, plan) <==> EndsInRun(data.resources[r]) && forall region | region in data.regions :: v !in region)
    ensures data.resources[r].releaseAfter == [] ==> Released(r) !in Trace(data, plan)
  {
    ReleasedOnceAfterFrontiers(data, plan, r);
    OutsideMeans(data, v);
    if EndsLifetime(data.resources[r], v) {
      EndsLifetimeIsMax(data.resources[r], v);
    }
  }
}
