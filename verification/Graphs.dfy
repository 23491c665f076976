/** Directed graphs as adjacency lists, their paths, and the order they induce. */
module Graphs {
  type Adjacency = seq<seq<nat>>

  predicate WellFormed(g: Adjacency) {
    forall u, v | 0 <= u < |g| && v in g[u] :: v < |g|
  }

  predicate NoDuplicates<T(==)>(row: seq<T>) {
    forall i, j | 0 <= i < j < |row| :: row[i] != row[j]
  }

  predicate NoDuplicateEdges(g: Adjacency) {
    forall u | 0 <= u < |g| :: NoDuplicates(g[u])
  }

  predicate Edge(g: Adjacency, u: nat, v: nat) {
    u < |g| && v < |g| && v in g[u]
  }

  ghost predicate IsPath(g: Adjacency, p: seq<nat>, u: nat, v: nat) {
    && |p| > 0
    && p[0] == u && p[|p| - 1] == v
    && (forall i | 0 <= i < |p| :: p[i] < |g|)
    && (forall i | 0 < i < |p| :: Edge(g, p[i - 1], p[i]))
  }

  /** `v` is `u` or can be reached from it along edges. */
  ghost predicate Reaches(g: Adjacency, u: nat, v: nat) {
    exists p :: IsPath(g, p, u, v)
  }

  /** `v` can be reached from `u` along at least one edge. */
  ghost predicate ReachesStrictly(g: Adjacency, u: nat, v: nat) {
    exists w :: Edge(g, u, w) && Reaches(g, w, v)
  }

  /** Some path of at least two edges joins `u` to `v`. */
  ghost predicate HasDetour(g: Adjacency, u: nat, v: nat) {
    exists w :: Edge(g, u, w) && ReachesStrictly(g, w, v)
  }

  ghost predicate Acyclic(g: Adjacency) {
    forall u | 0 <= u < |g| :: !ReachesStrictly(g, u, u)
  }

  /** A topological numbering: every edge goes from a lower to a higher rank. */
  ghost predicate Ranks(g: Adjacency, rank: seq<int>) {
    && |rank| == |g|
    && forall u: nat, v: nat {:trigger Edge(g, u, v)} | Edge(g, u, v) :: rank[u] < rank[v]
  }

  /** Every edge goes from a lower to a higher node number. */
  predicate Forward(g: Adjacency) {
    forall u, v | 0 <= u < |g| && v in g[u] :: u < v < |g|
  }

  lemma ReachesSelf(g: Adjacency, u: nat)
    requires u < |g|
    ensures Reaches(g, u, u)
  {
    assert IsPath(g, [u], u, u);
  }

  lemma ReachesEdge(g: Adjacency, u: nat, v: nat)
    requires Edge(g, u, v)
    ensures Reaches(g, u, v)
    ensures ReachesStrictly(g, u, v)
  {
    assert IsPath(g, [u, v], u, v);
    ReachesSelf(g, v);
  }

  lemma ReachesTransitive(g: Adjacency, u: nat, v: nat, w: nat)
    requires Reaches(g, u, v) && Reaches(g, v, w)
    ensures Reaches(g, u, w)
  {
    var p :| IsPath(g, p, u, v);
    var q :| IsPath(g, q, v, w);
    assert IsPath(g, p + q[1..], u, w);
  }

  /** A path between different nodes starts with an edge. */
  lemma ReachesFirstEdge(g: Adjacency, u: nat, v: nat)
    requires Reaches(g, u, v)
    ensures u < |g| && v < |g|
    ensures u == v || ReachesStrictly(g, u, v)
  {
    var p :| IsPath(g, p, u, v);
    if u != v {
      assert IsPath(g, p[1..], p[1], v);
      assert Edge(g, u, p[1]) && Reaches(g, p[1], v);
    }
  }

  lemma StrictlyReaches(g: Adjacency, u: nat, v: nat)
    requires ReachesStrictly(g, u, v)
    ensures Reaches(g, u, v)
  {
    var w :| Edge(g, u, w) && Reaches(g, w, v);
    ReachesEdge(g, u, w);
    ReachesTransitive(g, u, w, v);
  }

  /** A path between different nodes ends with an edge. */
  lemma ReachesLastEdge(g: Adjacency, u: nat, v: nat) returns (w: nat)
    requires Reaches(g, u, v) && u != v
    ensures Reaches(g, u, w) && Edge(g, w, v)
  {
    var p :| IsPath(g, p, u, v);
    w := p[|p| - 2];
    assert IsPath(g, p[..|p| - 1], u, w);
  }

  /** What is reachable from a set closed under edges lies in the set. */
  lemma {:induction false} ClosedSetKeepsPath(g: Adjacency, closed: set<nat>, p: seq<nat>, u: nat, v: nat)
    requires IsPath(g, p, u, v) && u in closed
    requires forall x, y | x in closed && Edge(g, x, y) :: y in closed
    ensures v in closed
    decreases |p|
  {
    if |p| > 1 {
      assert Edge(g, u, p[1]);
      assert IsPath(g, p[1..], p[1], v);
      ClosedSetKeepsPath(g, closed, p[1..], p[1], v);
    }
  }

  lemma ClosedSetContainsReachable(g: Adjacency, closed: set<nat>, u: nat, v: nat)
    requires Reaches(g, u, v) && u in closed
    requires forall x, y | x in closed && Edge(g, x, y) :: y in closed
    ensures v in closed
  {
    var p :| IsPath(g, p, u, v);
    ClosedSetKeepsPath(g, closed, p, u, v);
  }

  /** Along a path the rank never falls, and rises if the path moves. */
  lemma {:induction false} PathRanks(g: Adjacency, rank: seq<int>, p: seq<nat>, u: nat, v: nat)
    requires Ranks(g, rank) && IsPath(g, p, u, v)
    ensures u < |g| && v < |g|
    ensures |p| == 1 || rank[u] < rank[v]
    decreases |p|
  {
    if |p| > 1 {
      assert Edge(g, u, p[1]);
      assert IsPath(g, p[1..], p[1], v);
      PathRanks(g, rank, p[1..], p[1], v);
    }
  }

  lemma ReachesRanks(g: Adjacency, rank: seq<int>, u: nat, v: nat)
    requires Ranks(g, rank) && Reaches(g, u, v)
    ensures u < |g| && v < |g|
    ensures u == v || rank[u] < rank[v]
  {
    var p :| IsPath(g, p, u, v);
    PathRanks(g, rank, p, u, v);
  }

  lemma StrictlyRanks(g: Adjacency, rank: seq<int>, u: nat, v: nat)
    requires Ranks(g, rank) && ReachesStrictly(g, u, v)
    ensures u < |g| && v < |g| && rank[u] < rank[v]
  {
    var w :| Edge(g, u, w) && Reaches(g, w, v);
    ReachesRanks(g, rank, w, v);
  }

  /** Forward graphs are ranked by their node numbers. */
  lemma ForwardRanks(g: Adjacency) returns (rank: seq<int>)
    requires Forward(g)
    ensures Ranks(g, rank)
    ensures forall u | 0 <= u < |g| :: rank[u] == u
  {
    rank := seq(|g|, i => i);
  }

  lemma ForwardReaches(g: Adjacency, u: nat, v: nat)
    requires Forward(g) && Reaches(g, u, v)
    ensures u <= v < |g|
  {
    var rank := ForwardRanks(g);
    ReachesRanks(g, rank, u, v);
  }

  lemma ForwardIsAcyclic(g: Adjacency)
    requires Forward(g)
    ensures Acyclic(g) && WellFormed(g)
  {
    var rank := ForwardRanks(g);
    forall u: nat | u < |g|
      ensures !ReachesStrictly(g, u, u)
    {
      if ReachesStrictly(g, u, u) {
        StrictlyRanks(g, rank, u, u);
      }
    }
  }

  /** `g` and `h` have the same nodes and edges. */
  ghost predicate SameEdges(g: Adjacency, h: Adjacency) {
    |g| == |h| && forall u: nat, v: nat :: Edge(g, u, v) <==> Edge(h, u, v)
  }

  lemma SameEdgesReach(g: Adjacency, h: Adjacency)
    requires SameEdges(g, h)
    ensures forall u: nat, v: nat :: Reaches(g, u, v) <==> Reaches(h, u, v)
    ensures forall u: nat, v: nat :: HasDetour(g, u, v) <==> HasDetour(h, u, v)
  {
    forall u: nat, v: nat
      ensures Reaches(g, u, v) <==> Reaches(h, u, v)
    {
      if Reaches(g, u, v) {
        var p :| IsPath(g, p, u, v);
        assert IsPath(h, p, u, v);
      }
      if Reaches(h, u, v) {
        var p :| IsPath(h, p, u, v);
        assert IsPath(g, p, u, v);
      }
    }
    assert forall u: nat, v: nat :: ReachesStrictly(g, u, v) <==> ReachesStrictly(h, u, v);
  }

  ghost function Descendants(g: Adjacency, u: nat): set<nat> {
    set v: nat | 0 <= v < |g| && ReachesStrictly(g, u, v)
  }

  /** Every acyclic graph has a topological numbering, by number of descendants. */
  lemma AcyclicHasRank(g: Adjacency) returns (rank: seq<int>)
    requires Acyclic(g)
    ensures Ranks(g, rank)
  {
    rank := seq(|g|, u requires 0 <= u < |g| => -|Descendants(g, u)|);
    forall u: nat, v: nat | Edge(g, u, v)
      ensures rank[u] < rank[v]
    {
      ReachesEdge(g, u, v);
      assert v in Descendants(g, u) && v !in Descendants(g, v);
      forall w | w in Descendants(g, v)
        ensures w in Descendants(g, u)
      {
        StrictlyReaches(g, v, w);
      }
      assert Descendants(g, v) < Descendants(g, u);
      StrictSubsetIsSmaller(Descendants(g, v), Descendants(g, u));
    }
  }

  lemma StrictSubsetIsSmaller<T>(a: set<T>, b: set<T>)
    requires a < b
    ensures |a| < |b|
  {
    var rest := b - a;
    assert a + rest == b && rest != {};
  }

  // ---------------------------------------------------------------------
  // Orders

  predicate Before<T(==)>(order: seq<T>, a: T, b: T) {
    exists i, j | 0 <= i < j < |order| :: order[i] == a && order[j] == b
  }

  lemma BeforeTransitive<T>(order: seq<T>, a: T, b: T, c: T)
    requires NoDuplicates(order) && Before(order, a, b) && Before(order, b, c)
    ensures Before(order, a, c)
  {
    var i, j :| 0 <= i < j < |order| && order[i] == a && order[j] == b;
    var k, l :| 0 <= k < l < |order| && order[k] == b && order[l] == c;
    assert j == k;
  }

  // ---------------------------------------------------------------------
  // Counting

  ghost function Elements<T>(row: seq<T>): set<T> {
    set x | x in row
  }

  lemma {:induction false} ElementsCount<T>(row: seq<T>)
    ensures |Elements(row)| <= |row|
    ensures NoDuplicates(row) ==> |Elements(row)| == |row|
  {
    if row != [] {
      var last := |row| - 1;
      assert row == row[..last] + [row[last]];
      ElementsCount(row[..last]);
      assert Elements(row) == Elements(row[..last]) + {row[last]};
      assert NoDuplicates(row) ==> row[last] !in row[..last];
    }
  }

  /** A set whose members are all listed is no larger than the list. */
  lemma CoveredCount<T>(s: set<T>, row: seq<T>)
    requires forall x | x in s :: x in row
    ensures |s| <= |row|
  {
    ElementsCount(row);
    assert Elements(row) == s + (Elements(row) - s);
  }

  lemma DistinctFit<T>(a: seq<T>, b: seq<T>)
    requires NoDuplicates(a) && forall x | x in a :: x in b
    ensures |a| <= |b|
  {
    ElementsCount(a);
    CoveredCount(Elements(a), b);
  }
}
