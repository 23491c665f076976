/**
 * The dependency reduction of the job planner: an edge is dropped when another
 * successor of its source already reaches its destination.
 */
module TransitiveReduction {
  import opened Wrappers
  import opened Graphs

  /** Some other entry of `row` reaches `row[candidate]`. */
  ghost predicate Redundant(g: Adjacency, row: seq<nat>, candidate: nat)
    requires candidate < |row|
  {
    exists other | 0 <= other < |row| && other != candidate :: Reaches(g, row[other], row[candidate])
  }

  /** The entries of `row[..n]` that are not redundant in `row`, in order. */
  ghost function Kept(g: Adjacency, row: seq<nat>, n: nat): seq<nat>
    requires n <= |row|
  {
    if n == 0 then []
    else if Redundant(g, row, n - 1) then Kept(g, row, n - 1)
    else Kept(g, row, n - 1) + [row[n - 1]]
  }

  /** The graph that keeps exactly the irredundant edges. */
  ghost function Reduced(g: Adjacency): (r: Adjacency) {
    seq(|g|, u requires 0 <= u < |g| => Kept(g, g[u], |g[u]|))
  }

  /** `x` is reachable from an entry of `row` other than the candidate. */
  ghost predicate FromOther(g: Adjacency, row: seq<nat>, candidate: nat, x: nat) {
    exists other {:trigger row[other]} | 0 <= other < |row| && other != candidate :: Reaches(g, row[other], x)
  }

  /** `x` has been visited or is still to be visited. */
  ghost predicate Seen(visited: seq<bool>, pending: seq<nat>, x: nat) {
    x in pending || (x < |visited| && visited[x])
  }

  /** What the search knows between two visits. */
  ghost predicate SearchInvariant(g: Adjacency, row: seq<nat>, candidate: nat, visited: seq<bool>, pending: seq<nat>) {
    && |visited| == |g|
    && candidate < |row|
    && (forall x | x in pending && x < |g| :: FromOther(g, row, candidate, x))
    && (forall other | 0 <= other < |row| && other != candidate :: Seen(visited, pending, row[other]))
    && (forall u: nat, i: nat | u < |g| && visited[u] && i < |g[u]| :: Seen(visited, pending, g[u][i]))
    && (row[candidate] < |g| ==> !visited[row[candidate]])
  }

  predicate InRange(g: Adjacency, nodes: seq<nat>) {
    forall x | x in nodes :: x < |g|
  }

  lemma VisitKeepsInvariant(g: Adjacency, row: seq<nat>, candidate: nat, visited: seq<bool>, pending: seq<nat>, node: nat)
    requires SearchInvariant(g, row, candidate, visited, pending + [node])
    requires node < |g| && node != row[candidate]
    ensures SearchInvariant(g, row, candidate, visited[node := true], pending + g[node])
  {
    assert node in pending + [node];
    var start :| 0 <= start < |row| && start != candidate && Reaches(g, row[start], node);
    forall x | x in pending + g[node] && x < |g|
      ensures FromOther(g, row, candidate, x)
    {
      if x in g[node] {
        ReachesEdge(g, node, x);
        ReachesTransitive(g, row[start], node, x);
      } else {
        assert x in pending + [node];
      }
    }
  }

  /** Once nothing is pending, the visited nodes are all that can be reached. */
  lemma SearchExhausted(g: Adjacency, row: seq<nat>, candidate: nat, visited: seq<bool>)
    requires SearchInvariant(g, row, candidate, visited, [])
    ensures !Redundant(g, row, candidate)
  {
    var closed := set u {:trigger visited[u]} | 0 <= u < |visited| && visited[u];
    forall other | 0 <= other < |row| && other != candidate
      ensures !Reaches(g, row[other], row[candidate])
    {
      assert Seen(visited, [], row[other]);
      if Reaches(g, row[other], row[candidate]) {
        forall x, y | x in closed && Edge(g, x, y)
          ensures y in closed
        {
          var i :| 0 <= i < |g[x]| && g[x][i] == y;
          assert Seen(visited, [], g[x][i]);
        }
        ReachesFirstEdge(g, row[other], row[candidate]);
        ClosedSetContainsReachable(g, closed, row[other], row[candidate]);
      }
    }
  }

  /** Dropping an entry that was visited before changes nothing. */
  lemma SkipKeepsInvariant(g: Adjacency, row: seq<nat>, candidate: nat, visited: seq<bool>, pending: seq<nat>, node: nat)
    requires SearchInvariant(g, row, candidate, visited, pending + [node])
    requires node < |g| && visited[node]
    ensures SearchInvariant(g, row, candidate, visited, pending)
  {
    assert forall x | Seen(visited, pending + [node], x) :: Seen(visited, pending, x);
  }

  /** The search starts from the other entries of the row. */
  method OtherEntries(g: Adjacency, row: seq<nat>, candidate: nat) returns (pending: seq<nat>)
    requires candidate < |row|
    ensures SearchInvariant(g, row, candidate, seq(|g|, _ => false), pending)
    ensures forall x | x in pending :: x in row
  {
    pending := [];
    for index := 0 to |row|
      invariant forall x | x in pending :: exists other {:trigger row[other]} | 0 <= other < index :: other != candidate && row[other] == x
      invariant forall other | 0 <= other < index && other != candidate :: row[other] in pending
    {
      if index != candidate {
        pending := pending + [row[index]];
      }
    }
    forall x | x in pending && x < |g|
      ensures FromOther(g, row, candidate, x)
    {
      ReachesSelf(g, x);
    }
  }

  /**
   * Depth-first search from the other entries of `row` for `row[candidate]`.
   * It fails when it visits a successor that is not a node.
   */
  method SearchOthers(g: Adjacency, row: seq<nat>, candidate: nat) returns (r: Result<bool>)
    requires candidate < |row|
    ensures r.Success? ==> (r.value <==> Redundant(g, row, candidate))
    ensures WellFormed(g) && InRange(g, row) ==> r.Success?
  {
    var visited := seq(|g|, _ => false);
    var pending := OtherEntries(g, row, candidate);
    ghost var unvisited := set u {:trigger visited[u]} | 0 <= u < |visited|;
    while |pending| > 0
      invariant SearchInvariant(g, row, candidate, visited, pending)
      invariant forall u | 0 <= u < |g| :: visited[u] || u in unvisited
      invariant WellFormed(g) && InRange(g, row) ==> InRange(g, pending)
      decreases unvisited, |pending|
    {
      var node := pending[|pending| - 1];
      assert pending == pending[..|pending| - 1] + [node];
      assert node in pending;
      ghost var before := pending;
      pending := pending[..|pending| - 1];
      assert forall x | x in pending :: x in before;
      if node >= |g| {
        return Failure("dependency successor is out of range");
      }
      if node == row[candidate] {
        assert FromOther(g, row, candidate, node);
        return Success(true);
      }
      if visited[node] {
        SkipKeepsInvariant(g, row, candidate, visited, pending, node);
        continue;
      }
      VisitKeepsInvariant(g, row, candidate, visited, pending, node);
      visited := visited[node := true];
      unvisited := unvisited - {node};
      pending := pending + g[node];
    }
    SearchExhausted(g, row, candidate, visited);
    return Success(false);
  }

  method Reduce(g: Adjacency) returns (r: Result<Adjacency>)
    ensures r.Success? ==> r.value == Reduced(g)
    ensures WellFormed(g) ==> r.Success?
  {
    var result: Adjacency := [];
    for source := 0 to |g|
      invariant |result| == source
      invariant forall u | 0 <= u < source :: result[u] == Kept(g, g[u], |g[u]|)
    {
      var row := g[source];
      var kept: seq<nat> := [];
      for candidate := 0 to |row|
        invariant kept == Kept(g, row, candidate)
      {
        var redundant := SearchOthers(g, row, candidate);
        if redundant.Failure? {
          return Failure(redundant.error);
        }
        if !redundant.value {
          kept := kept + [row[candidate]];
        }
      }
      result := result + [kept];
    }
    assert result == Reduced(g);
    return Success(result);
  }

  method InvertAdjacency(outgoing: Adjacency) returns (r: Result<Adjacency>)
    ensures r.Success? <==> WellFormed(outgoing)
    ensures r.Success? ==> Inverts(outgoing, r.value)
    ensures r.Success? && NoDuplicateEdges(outgoing) ==> NoDuplicateEdges(r.value)
  {
    var incoming: Adjacency := seq(|outgoing|, _ => []);
    for source := 0 to |outgoing|
      invariant |incoming| == |outgoing|
      invariant forall u, i | 0 <= u < source && 0 <= i < |outgoing[u]| :: outgoing[u][i] < |outgoing|
      invariant forall v: nat, u: nat {:trigger u in incoming[v]} | v < |incoming| ::
          u in incoming[v] <==> u < source && v in outgoing[u]
      invariant NoDuplicateEdges(outgoing) ==> NoDuplicateEdges(incoming)
    {
      for index := 0 to |outgoing[source]|
        invariant |incoming| == |outgoing|
        invariant forall i | 0 <= i < index :: outgoing[source][i] < |outgoing|
        invariant forall v: nat, u: nat {:trigger u in incoming[v]} | v < |incoming| ::
            u in incoming[v] <==> (u < source && v in outgoing[u]) || (u == source && v in outgoing[source][..index])
        invariant NoDuplicateEdges(outgoing) ==> NoDuplicateEdges(incoming)
      {
        var destination := outgoing[source][index];
        if destination >= |incoming| {
          assert destination in outgoing[source];
          return Failure("dependency successor is out of range");
        }
        if NoDuplicateEdges(outgoing) {
          assert NoDuplicates(outgoing[source]);
          assert destination !in outgoing[source][..index];
          assert source !in incoming[destination];
        }
        incoming := incoming[destination := incoming[destination] + [source]];
      }
      assert outgoing[source][..|outgoing[source]|] == outgoing[source];
    }
    return Success(incoming);
  }

  /** `incoming` lists exactly the predecessors that `outgoing` gives each node. */
  ghost predicate Inverts(outgoing: Adjacency, incoming: Adjacency) {
    && |incoming| == |outgoing|
    && forall v: nat, u: nat {:trigger u in incoming[v]} {:trigger v in outgoing[u]} | v < |incoming| ::
      u in incoming[v] <==> u < |outgoing| && v in outgoing[u]
  }

  /** A kept entry is an irredundant entry. */
  lemma {:induction false} KeptMembers(g: Adjacency, row: seq<nat>, n: nat, v: nat)
    requires n <= |row|
    ensures v in Kept(g, row, n) <==> exists i | 0 <= i < n :: row[i] == v && !Redundant(g, row, i)
  {
    if n > 0 {
      KeptMembers(g, row, n - 1, v);
      if v in Kept(g, row, n) && v !in Kept(g, row, n - 1) {
        assert row[n - 1] == v;
      }
    }
  }

  /** Reduction keeps the order of a row and introduces no duplicates. */
  lemma {:induction false} KeptNoDuplicates(g: Adjacency, row: seq<nat>, n: nat)
    requires n <= |row| && NoDuplicates(row)
    ensures NoDuplicates(Kept(g, row, n))
  {
    if n > 0 {
      KeptNoDuplicates(g, row, n - 1);
      KeptMembers(g, row, n - 1, row[n - 1]);
    }
  }

  /** The edge is stored more than once. */
  predicate Duplicated(g: Adjacency, u: nat, v: nat) {
    u < |g| && exists i, j | 0 <= i < j < |g[u]| :: g[u][i] == v && g[u][j] == v
  }

  /** A duplicated edge is redundant through its own copy, so every copy is lost. */
  lemma DuplicateEdgesAreLost(g: Adjacency, u: nat, i: nat, j: nat)
    requires WellFormed(g) && u < |g| && i < j < |g[u]| && g[u][i] == g[u][j]
    ensures g[u][i] !in Reduced(g)[u]
  {
    var v := g[u][i];
    assert v in g[u];
    ReachesSelf(g, v);
    KeptMembers(g, g[u], |g[u]|, v);
    forall n | 0 <= n < |g[u]| && g[u][n] == v
      ensures Redundant(g, g[u], n)
    {
      var other := if n == i then j else i;
      assert Reaches(g, g[u][other], g[u][n]);
    }
  }

  /**
   * Exactness: on an acyclic graph an edge is kept precisely when it is stored once
   * and no longer path joins its ends.
   */
  lemma KeptEdges(g: Adjacency, u: nat, v: nat)
    requires WellFormed(g) && Acyclic(g)
    ensures Edge(Reduced(g), u, v) <==> Edge(g, u, v) && !Duplicated(g, u, v) && !HasDetour(g, u, v)
  {
    if u < |g| {
      KeptMembers(g, g[u], |g[u]|, v);
      if Duplicated(g, u, v) {
        var i, j :| 0 <= i < j < |g[u]| && g[u][i] == v && g[u][j] == v;
        DuplicateEdgesAreLost(g, u, i, j);
      } else if Edge(g, u, v) {
        KeptSingleEdge(g, u, v);
      }
    }
  }

  lemma KeptSingleEdge(g: Adjacency, u: nat, v: nat)
    requires WellFormed(g) && Acyclic(g) && Edge(g, u, v) && !Duplicated(g, u, v)
    ensures v in Kept(g, g[u], |g[u]|) <==> !HasDetour(g, u, v)
  {
    KeptMembers(g, g[u], |g[u]|, v);
    var i :| 0 <= i < |g[u]| && g[u][i] == v;
    if Redundant(g, g[u], i) {
      var other :| 0 <= other < |g[u]| && other != i && Reaches(g, g[u][other], v);
      ReachesFirstEdge(g, g[u][other], v);
      assert Edge(g, u, g[u][other]);
    }
    if HasDetour(g, u, v) {
      var w :| Edge(g, u, w) && ReachesStrictly(g, w, v);
      StrictlyReaches(g, w, v);
      var other :| 0 <= other < |g[u]| && g[u][other] == w;
      assert other != i;
    }
  }

  /** On a duplicate-free acyclic graph an edge is kept precisely when no longer path joins its ends. */
  lemma ReducedEdges(g: Adjacency, u: nat, v: nat)
    requires WellFormed(g) && NoDuplicateEdges(g) && Acyclic(g)
    ensures Edge(Reduced(g), u, v) <==> Edge(g, u, v) && !HasDetour(g, u, v)
  {
    KeptEdges(g, u, v);
  }

  /** On a duplicate-free acyclic graph the reduction reaches exactly what the graph reaches. */
  lemma ReducedReaches(g: Adjacency, u: nat, v: nat)
    requires WellFormed(g) && NoDuplicateEdges(g) && Acyclic(g)
    ensures Reaches(Reduced(g), u, v) <==> Reaches(g, u, v)
  {
    KeptReaches(g, u, v);
  }

  /** Every duplicated edge could be dropped anyway. */
  ghost predicate DuplicatesHaveDetours(g: Adjacency) {
    forall u: nat, v: nat | Duplicated(g, u, v) :: HasDetour(g, u, v)
  }

  /** The reduction adds no paths. */
  lemma ReducedIsSound(g: Adjacency, u: nat, v: nat)
    requires WellFormed(g) && Acyclic(g) && Reaches(Reduced(g), u, v)
    ensures Reaches(g, u, v)
  {
    var p :| IsPath(Reduced(g), p, u, v);
    forall i | 0 < i < |p|
      ensures Edge(g, p[i - 1], p[i])
    {
      KeptEdges(g, p[i - 1], p[i]);
    }
    assert IsPath(g, p, u, v);
  }

  lemma KeptReaches(g: Adjacency, u: nat, v: nat)
    requires WellFormed(g) && DuplicatesHaveDetours(g) && Acyclic(g)
    ensures Reaches(Reduced(g), u, v) <==> Reaches(g, u, v)
  {
    if Reaches(Reduced(g), u, v) {
      ReducedIsSound(g, u, v);
    }
    if Reaches(g, u, v) {
      var rank := AcyclicHasRank(g);
      ReachesRanks(g, rank, u, v);
      ReachesInReduced(g, rank, u, v);
    }
  }

  lemma {:induction false} ReachesInReduced(g: Adjacency, rank: seq<int>, u: nat, v: nat)
    requires WellFormed(g) && DuplicatesHaveDetours(g) && Acyclic(g) && Ranks(g, rank)
    requires Reaches(g, u, v) && u < |g| && v < |g|
    ensures Reaches(Reduced(g), u, v)
    decreases rank[v] - rank[u]
  {
    ReachesRanks(g, rank, u, v);
    KeptEdges(g, u, v);
    if u == v {
      ReachesSelf(Reduced(g), u);
    } else if Edge(g, u, v) && !HasDetour(g, u, v) {
      ReachesEdge(Reduced(g), u, v);
    } else {
      // Some node w lies strictly between u and v.
      var w :| Edge(g, u, w) && Reaches(g, w, v) && w != v by {
        ReachesFirstEdge(g, u, v);
        if Edge(g, u, v) {
          var w :| Edge(g, u, w) && ReachesStrictly(g, w, v);
          StrictlyReaches(g, w, v);
          assert w != v;
        }
      }
      ReachesEdge(g, u, w);
      ReachesRanks(g, rank, w, v);
      ReachesInReduced(g, rank, u, w);
      ReachesInReduced(g, rank, w, v);
      ReachesTransitive(Reduced(g), u, w, v);
    }
  }

  /** Without a detour, losing a duplicated edge loses its destination. */
  lemma LostEdgeIsUnreachable(g: Adjacency, u: nat, v: nat)
    requires WellFormed(g) && Acyclic(g) && Duplicated(g, u, v) && !HasDetour(g, u, v)
    ensures Reaches(g, u, v) && !Reaches(Reduced(g), u, v)
  {
    var i, j :| 0 <= i < j < |g[u]| && g[u][i] == v && g[u][j] == v;
    assert v in g[u];
    ReachesEdge(g, u, v);
    if Reaches(Reduced(g), u, v) {
      ReachesFirstEdge(Reduced(g), u, v);
      var w :| Edge(Reduced(g), u, w) && Reaches(Reduced(g), w, v);
      KeptEdges(g, u, w);
      ReducedIsSound(g, w, v);
      ReachesFirstEdge(g, w, v);
    }
  }

  /** On acyclic graphs the reduction keeps reachability exactly when every duplicated edge has a detour. */
  lemma ReachabilityIsKeptExactly(g: Adjacency)
    requires WellFormed(g) && Acyclic(g)
    ensures (forall u: nat, v: nat :: Reaches(Reduced(g), u, v) <==> Reaches(g, u, v)) <==> DuplicatesHaveDetours(g)
  {
    if DuplicatesHaveDetours(g) {
      forall u: nat, v: nat
        ensures Reaches(Reduced(g), u, v) <==> Reaches(g, u, v)
      {
        KeptReaches(g, u, v);
      }
    } else {
      var u: nat, v: nat :| Duplicated(g, u, v) && !HasDetour(g, u, v);
      LostEdgeIsUnreachable(g, u, v);
    }
  }

  /**
   * Minimality: every graph with the reachability of a duplicate-free acyclic
   * graph contains all edges of its reduction.
   */
  lemma ReducedIsLeast(g: Adjacency, h: Adjacency, u: nat, v: nat)
    requires WellFormed(g) && NoDuplicateEdges(g) && Acyclic(g)
    requires forall x, y :: Reaches(h, x, y) <==> Reaches(g, x, y)
    requires Edge(Reduced(g), u, v)
    ensures Edge(h, u, v)
  {
    ReducedEdges(g, u, v);
    ReachesEdge(g, u, v);
    var rank := AcyclicHasRank(g);
    StrictlyRanks(g, rank, u, v);
    var p :| IsPath(h, p, u, v);
    var w := LeavingEdge(h, p, u, v);
    if w != v {
      ReachesEdge(h, u, w);
      ReachesFirstEdge(g, u, w);
      ReachesFirstEdge(g, w, v);
      var x :| Edge(g, u, x) && Reaches(g, x, w);
      ReachesStrictlyAfter(g, x, w, v);
    }
  }

  /** A path to another node leaves its start along some edge. */
  lemma {:induction false} LeavingEdge(g: Adjacency, p: seq<nat>, u: nat, v: nat) returns (w: nat)
    requires IsPath(g, p, u, v) && u != v
    ensures w != u && Edge(g, u, w) && Reaches(g, w, v)
    decreases |p|
  {
    w := p[1];
    assert IsPath(g, p[1..], w, v);
    if w == u {
      w := LeavingEdge(g, p[1..], u, v);
    }
  }

  lemma ReachesStrictlyAfter(g: Adjacency, u: nat, v: nat, w: nat)
    requires Reaches(g, u, v) && ReachesStrictly(g, v, w)
    ensures ReachesStrictly(g, u, w)
  {
    if u != v {
      ReachesFirstEdge(g, u, v);
      var x :| Edge(g, u, x) && Reaches(g, x, v);
      StrictlyReaches(g, v, w);
      ReachesTransitive(g, x, v, w);
    }
  }
}
