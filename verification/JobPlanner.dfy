/** The planning steps of `build_job_plan`, each proved against the meaning of a plan. */
module JobPlanner {
  import opened Wrappers
  import opened Graphs
  import opened ProgramData
  import opened JobPlan

  method CheckDependencyOrder(data: Program) returns (ordered: bool)
    ensures ordered <==> DependencyOrdered(data)
  {
    for node := 0 to |data.nodes|
      invariant forall v: nat, p | v < node && p in data.nodes[v].predecessors :: p < v
    {
      var predecessors := data.nodes[node].predecessors;
      for index := 0 to |predecessors|
        invariant forall p | p in predecessors[..index] :: p < node
      {
        if predecessors[index] >= node {
          assert predecessors[index] in data.nodes[node].predecessors;
          return false;
        }
        assert predecessors[..index + 1] == predecessors[..index] + [predecessors[index]];
      }
      assert predecessors[..|predecessors|] == predecessors;
    }
    return true;
  }

  method AppendUnique(values: seq<nat>, value: nat) returns (r: seq<nat>)
    requires NoDuplicates(values)
    ensures NoDuplicates(r)
    ensures forall x :: x in r <==> x in values || x == value
    ensures r == if value in values then values else values + [value]
  {
    if value in values {
      return values;
    }
    return values + [value];
  }

  /** Some node below `node` depends on `a`'s group from `b`'s group. */
  ghost predicate DependsBelow(data: Program, groupOf: seq<nat>, a: nat, b: nat, node: nat) {
    && |groupOf| == |data.nodes| && a != b
    && exists p: nat, v: nat :: Depends(data, p, v) && v < node && groupOf[p] == a && groupOf[v] == b
  }

  /** The dependency graph between groups of nodes, without duplicate edges. */
  method CollectSuccessors(data: Program, groupOf: seq<nat>, groups: nat) returns (g: Adjacency)
    requires DependencyOrdered(data) && |groupOf| == |data.nodes|
    requires forall v | 0 <= v < |groupOf| :: groupOf[v] < groups
    ensures IsQuotient(data, groupOf, groups, g)
  {
    g := seq(groups, _ => []);
    for node := 0 to |data.nodes|
      invariant |g| == groups && NoDuplicateEdges(g) && WellFormed(g)
      invariant forall a: nat, b: nat :: Edge(g, a, b) <==> DependsBelow(data, groupOf, a, b, node)
    {
      g := CollectPredecessors(data, groupOf, g, node);
    }
    forall a: nat, b: nat
      ensures Edge(g, a, b) <==> JobDepends(data, groupOf, a, b)
    {
      assert Edge(g, a, b) <==> DependsBelow(data, groupOf, a, b, |data.nodes|);
    }
  }

  /** The inner loop: the edges that the predecessors of one node contribute. */
  method CollectPredecessors(data: Program, groupOf: seq<nat>, before: Adjacency, node: nat) returns (g: Adjacency)
    requires DependencyOrdered(data) && |groupOf| == |data.nodes| && node < |data.nodes|
    requires forall v | 0 <= v < |groupOf| :: groupOf[v] < |before|
    requires NoDuplicateEdges(before) && WellFormed(before)
    requires forall a: nat, b: nat :: Edge(before, a, b) <==> DependsBelow(data, groupOf, a, b, node)
    ensures |g| == |before| && NoDuplicateEdges(g) && WellFormed(g)
    ensures forall a: nat, b: nat :: Edge(g, a, b) <==> DependsBelow(data, groupOf, a, b, node + 1)
  {
    g := before;
    var destination := groupOf[node];
    var predecessors := data.nodes[node].predecessors;
    assert forall i | 0 <= i < |predecessors| :: predecessors[i] in predecessors && predecessors[i] < node;
    for index := 0 to |predecessors|
      invariant |g| == |before| && NoDuplicateEdges(g) && WellFormed(g)
      invariant forall a: nat, b: nat :: Edge(g, a, b) <==>
          Edge(before, a, b)
          || (b == destination && a != b && exists i {:trigger predecessors[i]} | 0 <= i < index :: groupOf[predecessors[i]] == a)
    {
      assert predecessors[index] in data.nodes[node].predecessors;
      var source := groupOf[predecessors[index]];
      if source != destination {
        ghost var previous := g;
        var row := AppendUnique(g[source], destination);
        g := g[source := row];
        assert forall a: nat, b: nat :: Edge(g, a, b) <==> Edge(previous, a, b) || (a == source && b == destination);
      }
    }
    NodeAddsDependencies(data, groupOf, before, node, g);
  }

  lemma NodeAddsDependencies(data: Program, groupOf: seq<nat>, before: Adjacency, node: nat, g: Adjacency)
    requires DependencyOrdered(data) && |groupOf| == |data.nodes| && node < |data.nodes|
    requires forall a: nat, b: nat :: Edge(before, a, b) <==> DependsBelow(data, groupOf, a, b, node)
    requires forall i | 0 <= i < |data.nodes[node].predecessors| :: data.nodes[node].predecessors[i] < node
    requires forall a: nat, b: nat :: Edge(g, a, b) <==>
        Edge(before, a, b)
        || (b == groupOf[node] && a != b && exists i {:trigger data.nodes[node].predecessors[i]} |
              0 <= i < |data.nodes[node].predecessors| :: groupOf[data.nodes[node].predecessors[i]] == a)
    ensures forall a: nat, b: nat :: Edge(g, a, b) <==> DependsBelow(data, groupOf, a, b, node + 1)
  {
    var predecessors := data.nodes[node].predecessors;
    forall a: nat, b: nat
      ensures Edge(g, a, b) <==> DependsBelow(data, groupOf, a, b, node + 1)
    {
      if DependsBelow(data, groupOf, a, b, node + 1) && !DependsBelow(data, groupOf, a, b, node) {
        var p: nat, v: nat :| Depends(data, p, v) && v < node + 1 && groupOf[p] == a && groupOf[v] == b;
        assert v == node;
        var i :| 0 <= i < |predecessors| && predecessors[i] == p;
      }
      if Edge(g, a, b) && !Edge(before, a, b) {
        var i :| 0 <= i < |predecessors| && groupOf[predecessors[i]] == a;
        assert Depends(data, predecessors[i], node);
      }
    }
  }

  // ---------------------------------------------------------------------
  // Regions and release boundaries

  /** `tags` says of each node whether it is an initialization node or which region holds it. */
  ghost predicate TaggedBy(data: Program, tags: seq<RegionTag>) {
    && |tags| == |data.nodes|
    && (forall v | 0 <= v < |tags| :: tags[v].InitializationRegion? <==> data.nodes[v].initialization)
    && (forall v: nat, r: nat | v < |tags| && tags[v] == FeedbackRegion(r) :: r < |data.regions| && v in data.regions[r])
    && (forall v: nat, r: nat {:trigger v in data.regions[r]} | r < |data.regions| && v in data.regions[r] :: v < |tags| && tags[v] == FeedbackRegion(r))
  }

  lemma TagsDecideSameRegion(data: Program, tags: seq<RegionTag>, u: nat, v: nat)
    requires RegionsValid(data) && TaggedBy(data, tags) && u < |tags| && v < |tags|
    ensures tags[u] == tags[v] <==> SameRegion(data, u, v)
  {
    if tags[u] == tags[v] {
      forall r: nat | r < |data.regions|
        ensures u in data.regions[r] <==> v in data.regions[r]
      {
        if u in data.regions[r] {
          assert tags[u] == FeedbackRegion(r);
        }
        if v in data.regions[r] {
          assert tags[v] == FeedbackRegion(r);
        }
      }
    }
  }

  /** What is tagged once the regions below `region` and the first `index` nodes of `region` are. */
  ghost predicate TaggedBelow(data: Program, tags: seq<RegionTag>, region: nat, index: nat)
    requires region <= |data.regions|
    requires if region < |data.regions| then index <= |data.regions[region]| else index == 0
  {
    && |tags| == |data.nodes|
    && (forall v | 0 <= v < |tags| :: tags[v].InitializationRegion? <==> data.nodes[v].initialization)
    && (forall v: nat, r: nat | v < |tags| && tags[v] == FeedbackRegion(r) ::
          (r < region && v in data.regions[r]) || (r == region && region < |data.regions| && v in data.regions[region][..index]))
    && (forall v: nat, r: nat {:trigger v in data.regions[r]} | r < region && v in data.regions[r] :: v < |tags| && tags[v] == FeedbackRegion(r))
    && (forall r: nat | r < region :: NoDuplicates(data.regions[r]))
    && (region < |data.regions| ==>
          && NoDuplicates(data.regions[region][..index])
          && forall v: nat | v in data.regions[region][..index] :: v < |tags| && tags[v] == FeedbackRegion(region))
  }

  lemma TagKeepsTagged(data: Program, tags: seq<RegionTag>, region: nat, index: nat)
    requires region < |data.regions| && index < |data.regions[region]|
    requires TaggedBelow(data, tags, region, index)
    requires data.regions[region][index] < |tags| && tags[data.regions[region][index]] == NoRegion
    ensures TaggedBelow(data, tags[data.regions[region][index] := FeedbackRegion(region)], region, index + 1)
  {
    var range := data.regions[region];
    var node := range[index];
    var tagged := tags[node := FeedbackRegion(region)];
    assert range[..index + 1] == range[..index] + [node];
    forall v: nat, r: nat | r < region && v in data.regions[r]
      ensures v < |tagged| && tagged[v] == FeedbackRegion(r)
    {
      assert tags[v] == FeedbackRegion(r);
    }
    forall v: nat | v in range[..index + 1]
      ensures v < |tagged| && tagged[v] == FeedbackRegion(region)
    {
      if v in range[..index] {
        assert tags[v] == FeedbackRegion(region);
      }
    }
  }

  lemma AllTagged(data: Program, tags: seq<RegionTag>)
    requires TaggedBelow(data, tags, |data.regions|, 0)
    ensures RegionsValid(data) && TaggedBy(data, tags)
  {
    forall r: nat, v: nat | r < |data.regions| && v in data.regions[r]
      ensures v < |data.nodes| && !data.nodes[v].initialization && tags[v] == FeedbackRegion(r)
    {
    }
    forall r, s, v: nat | 0 <= r < s < |data.regions| && v in data.regions[r]
      ensures v !in data.regions[s]
    {
      assert tags[v] == FeedbackRegion(r);
    }
  }

  method TagRegions(data: Program) returns (r: Result<seq<RegionTag>>)
    ensures r.Success? <==> RegionsValid(data)
    ensures r.Success? ==> TaggedBy(data, r.value)
  {
    var tags := seq(|data.nodes|, v requires 0 <= v < |data.nodes| =>
      if data.nodes[v].initialization then InitializationRegion else NoRegion);
    for region := 0 to |data.regions|
      invariant TaggedBelow(data, tags, region, 0)
    {
      var range := data.regions[region];
      for index := 0 to |range|
        invariant TaggedBelow(data, tags, region, index)
      {
        var node := range[index];
        assert node in range && range[..index + 1] == range[..index] + [node];
        if node >= |data.nodes| || tags[node] != NoRegion {
          if node < |data.nodes| && tags[node].FeedbackRegion? && tags[node].index == region {
            var earlier :| 0 <= earlier < index && range[earlier] == node;
            assert !NoDuplicates(range);
          }
          return Failure("feedback region node membership is invalid");
        }
        TagKeepsTagged(data, tags, region, index);
        tags := tags[node := FeedbackRegion(region)];
      }
      assert range[..|range|] == range;
    }
    AllTagged(data, tags);
    return Success(tags);
  }

  method MarkReleaseBoundaries(data: Program) returns (r: Result<seq<bool>>)
    ensures r.Success? ==> |r.value| == |data.nodes| && forall v | 0 <= v < |r.value| :: r.value[v] <==> ReleasesAfter(data, v)
    ensures FrontiersInRange(data) ==> r.Success?
  {
    var boundary := seq(|data.nodes|, _ => false);
    for resource := 0 to |data.resources|
      invariant |boundary| == |data.nodes|
      invariant forall v | 0 <= v < |boundary| :: boundary[v] <==>
          exists r | 0 <= r < resource :: data.resources[r].ReleasedByPlan() && Max(data.resources[r].releaseAfter) == v
    {
      var lifetime := data.resources[resource];
      var releasePreconstructed := lifetime.preconstructed && !lifetime.retainedByFeedback;
      if !lifetime.hasDestroy || (lifetime.destroyAtShutdown && !releasePreconstructed) || lifetime.releaseAfter == [] {
        continue;
      }
      var last := 0;
      for index := 0 to |lifetime.releaseAfter|
        invariant last == Max(lifetime.releaseAfter[..index])
      {
        assert lifetime.releaseAfter[..index + 1][..index] == lifetime.releaseAfter[..index];
        last := if last < lifetime.releaseAfter[index] then lifetime.releaseAfter[index] else last;
      }
      assert lifetime.releaseAfter[..|lifetime.releaseAfter|] == lifetime.releaseAfter;
      if last >= |data.nodes| {
        return Failure("resource release frontier is out of range");
      }
      boundary := boundary[last := true];
    }
    return Success(boundary);
  }

  // ---------------------------------------------------------------------
  // Fusing chains

  /** What the append test decides: the nodes may be joined, and all that `node` depends on is a member or precedes the job. */
  ghost predicate Appendable(data: Program, members: seq<bool>, first: nat, previous: nat, node: nat)
    requires previous < |data.nodes| && node < |data.nodes|
  {
    && Joinable(data, previous, node)
    && previous in data.nodes[node].predecessors
    && forall p | p in data.nodes[node].predecessors :: (p < |members| && members[p]) || Ancestor(data, p, first)
  }

  method CanAppend(data: Program, tags: seq<RegionTag>, boundary: seq<bool>, members: seq<bool>, first: nat, previous: nat, node: nat)
    returns (b: bool)
    requires DependencyOrdered(data) && RegionsValid(data) && TaggedBy(data, tags)
    requires |boundary| == |data.nodes| && forall v | 0 <= v < |boundary| :: boundary[v] <==> ReleasesAfter(data, v)
    requires first < |data.nodes| && previous < |data.nodes| && node < |data.nodes|
    ensures b <==> Appendable(data, members, first, previous, node)
    ensures b <==>
      && Joinable(data, previous, node)
      && previous in data.nodes[node].predecessors
      && forall p | p in data.nodes[node].predecessors :: (p < |members| && members[p]) || Ancestor(data, p, first)
  {
    TagsDecideSameRegion(data, tags, previous, node);
    var u, v := data.nodes[previous], data.nodes[node];
    if IsBoundary(u) || IsBoundary(v) || boundary[previous]
      || u.temporalPredecessors != [] || u.temporalSuccessors != []
      || v.temporalPredecessors != [] || v.temporalSuccessors != []
    {
      return false;
    }
    if ControlOf(data, previous) != None || ControlOf(data, node) != None || tags[previous] != tags[node] {
      return false;
    }
    var dependsOnPrevious := false;
    for index := 0 to |v.predecessors|
      invariant dependsOnPrevious <==> previous in v.predecessors[..index]
      invariant forall p | p in v.predecessors[..index] :: (p < |members| && members[p]) || Ancestor(data, p, first)
    {
      var predecessor := v.predecessors[index];
      assert predecessor in v.predecessors;
      assert v.predecessors[..index + 1] == v.predecessors[..index] + [predecessor];
      dependsOnPrevious := dependsOnPrevious || predecessor == previous;
      if predecessor < |members| && members[predecessor] {
        continue;
      }
      IsAncestorDecidesReachability(data, predecessor, first);
      if !IsAncestor(data, predecessor, first) {
        return false;
      }
    }
    assert v.predecessors[..|v.predecessors|] == v.predecessors;
    return dependsOnPrevious;
  }
}
