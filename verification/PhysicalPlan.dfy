/**
 * Planning physical storage: logical slots whose bytes overlap are joined by a
 * union-find with path compression, and every class becomes one physical slot.
 */
module PhysicalPlan {
  import opened Wrappers
  import SlotTable

  /** Where a logical slot lies in the storage, if it was given a place. */
  datatype Extent = Unplaced | Placed(begin: nat, end: nat)

  predicate Overlap(a: Extent, b: Extent) {
    a.Placed? && b.Placed? && a.begin < b.end && b.begin < a.end
  }

  ghost predicate IsChain(extents: seq<Extent>, p: seq<nat>, x: nat, y: nat) {
    && |p| > 0 && p[0] == x && p[|p| - 1] == y
    && (forall i | 0 <= i < |p| :: p[i] < |extents|)
    && forall i | 0 < i < |p| :: Overlap(extents[p[i - 1]], extents[p[i]])
  }

  /** The slots are the same, or joined by a chain of overlapping slots. */
  ghost predicate Joined(extents: seq<Extent>, x: nat, y: nat) {
    exists p :: IsChain(extents, p, x, y)
  }

  lemma JoinedSelf(extents: seq<Extent>, x: nat)
    requires x < |extents|
    ensures Joined(extents, x, x)
  {
    assert IsChain(extents, [x], x, x);
  }

  lemma JoinedOverlap(extents: seq<Extent>, x: nat, y: nat)
    requires x < |extents| && y < |extents| && Overlap(extents[x], extents[y])
    ensures Joined(extents, x, y) && Joined(extents, y, x)
  {
    assert IsChain(extents, [x, y], x, y) && IsChain(extents, [y, x], y, x);
  }

  lemma JoinedTransitive(extents: seq<Extent>, x: nat, y: nat, z: nat)
    requires Joined(extents, x, y) && Joined(extents, y, z)
    ensures Joined(extents, x, z)
  {
    var p :| IsChain(extents, p, x, y);
    var q :| IsChain(extents, q, y, z);
    assert IsChain(extents, p + q[1..], x, z);
  }

  // ---------------------------------------------------------------------
  // Union-find

  /** Following parents from any slot rises in height and ends at the slot's root. */
  ghost predicate Forest(parents: seq<nat>, root: seq<nat>, height: seq<nat>) {
    && |root| == |height| == |parents|
    && forall x: nat | x < |parents| :: ForestAt(parents, root, height, x)
  }

  predicate ForestAt(parents: seq<nat>, root: seq<nat>, height: seq<nat>, x: nat)
    requires |root| == |height| == |parents| && x < |parents|
  {
    && parents[x] < |parents| && root[x] < |parents|
    && root[parents[x]] == root[x]
    && (parents[x] == x <==> root[x] == x)
    && root[root[x]] == root[x]
    && (parents[x] != x ==> height[x] < height[parents[x]])
    && height[x] <= height[root[x]]
  }

  /** Every slot is joined to its root. */
  ghost predicate RootsAreJoined(extents: seq<Extent>, root: seq<nat>) {
    |root| == |extents| && forall x: nat | x < |root| :: root[x] < |root| && Joined(extents, x, root[x]) && Joined(extents, root[x], x)
  }

  lemma ShortcutKeepsForest(parents: seq<nat>, root: seq<nat>, height: seq<nat>, x: nat)
    requires Forest(parents, root, height) && x < |parents| && parents[x] != x
    ensures root[x] < |parents| && Forest(parents[x := root[x]], root, height)
  {
    var r := root[x];
    assert ForestAt(parents, root, height, x) && ForestAt(parents, root, height, parents[x]) && ForestAt(parents, root, height, r);
    var parents' := parents[x := r];
    forall y: nat | y < |parents|
      ensures ForestAt(parents', root, height, y)
    {
      assert ForestAt(parents, root, height, y);
    }
  }

  /** Finds the root of a slot, and makes it the parent of every slot on the way. */
  method Find(parents: array<nat>, ghost root: seq<nat>, ghost height: seq<nat>, x: nat) returns (found: nat)
    requires Forest(parents[..], root, height) && x < parents.Length
    modifies parents
    ensures found == root[x] && Forest(parents[..], root, height)
  {
    found := x;
    assert ForestAt(parents[..], root, height, x);
    ghost var top: int := height[root[x]];
    while parents[found] != found
      invariant found < parents.Length && root[found] == root[x] && Forest(parents[..], root, height) && height[found] <= top
      decreases top - height[found]
    {
      assert ForestAt(parents[..], root, height, found) && ForestAt(parents[..], root, height, parents[found]);
      found := parents[found];
    }
    assert ForestAt(parents[..], root, height, found);
    var slot: nat := x;
    while parents[slot] != slot
      invariant slot < parents.Length == |root| == |height| && root[slot] == root[x] == found
      invariant Forest(parents[..], root, height) && height[slot] <= top
      decreases top - height[slot]
    {
      assert ForestAt(parents[..], root, height, slot) && ForestAt(parents[..], root, height, parents[slot]);
      ShortcutKeepsForest(parents[..], root, height, slot);
      var parent := parents[slot];
      parents[slot] := found;
      slot := parent;
    }
  }

  /** The roots and heights after the tree of `b` is hung below the root `a`. */
  ghost function UnitedRoots(root: seq<nat>, a: nat, b: nat): seq<nat> {
    seq(|root|, x requires 0 <= x < |root| => if root[x] == b then a else root[x])
  }

  ghost function UnitedHeights(root: seq<nat>, height: seq<nat>, a: nat, raise: nat): seq<nat>
    requires |root| == |height|
  {
    seq(|root|, x requires 0 <= x < |root| => if root[x] == a then height[x] + raise else height[x])
  }

  lemma UnionKeepsForest(parents: seq<nat>, root: seq<nat>, height: seq<nat>, a: nat, b: nat)
    requires Forest(parents, root, height) && a < |parents| && b < |parents| && root[a] == a && root[b] == b && a != b
    ensures Forest(parents[b := a], UnitedRoots(root, a, b), UnitedHeights(root, height, a, height[b] + 1))
  {
    assert ForestAt(parents, root, height, a) && ForestAt(parents, root, height, b);
    var parents', root', height' := parents[b := a], UnitedRoots(root, a, b), UnitedHeights(root, height, a, height[b] + 1);
    forall x: nat | x < |parents|
      ensures ForestAt(parents', root', height', x)
    {
      assert ForestAt(parents, root, height, x) && ForestAt(parents, root, height, parents[x]) && ForestAt(parents, root, height, root[x]);
    }
  }

  lemma UnionKeepsJoined(extents: seq<Extent>, root: seq<nat>, x: nat, y: nat)
    requires RootsAreJoined(extents, root) && x < |root| && y < |root| && Overlap(extents[x], extents[y])
    ensures RootsAreJoined(extents, UnitedRoots(root, root[x], root[y]))
  {
    var root' := UnitedRoots(root, root[x], root[y]);
    JoinedOverlap(extents, x, y);
    JoinedTransitive(extents, root[y], y, x);
    JoinedTransitive(extents, root[y], x, root[x]);
    JoinedTransitive(extents, root[x], x, y);
    JoinedTransitive(extents, root[x], y, root[y]);
    forall z: nat | z < |root'|
      ensures root'[z] < |root'| && Joined(extents, z, root'[z]) && Joined(extents, root'[z], z)
    {
      if root[z] == root[y] {
        JoinedTransitive(extents, z, root[y], root[x]);
        JoinedTransitive(extents, root[x], root[y], z);
      }
    }
  }

  /** All overlapping pairs up to (left, right) have the same root. */
  ghost predicate PairsJoined(extents: seq<Extent>, root: seq<nat>, left: nat, right: nat)
    requires |root| == |extents|
  {
    forall x: nat, y: nat | x < y < |extents| && (x < left || (x == left && y < right)) && Overlap(extents[x], extents[y]) :: root[x] == root[y]
  }

  lemma UnionKeepsPairs(extents: seq<Extent>, root: seq<nat>, left: nat, right: nat)
    requires |root| == |extents| && left < right < |extents| && PairsJoined(extents, root, left, right)
    ensures PairsJoined(extents, UnitedRoots(root, root[left], root[right]), left, right + 1)
  {
  }

  /** Joins all overlapping slots; `root` then names the class of each. */
  method JoinOverlapping(extents: seq<Extent>) returns (parents: array<nat>, ghost root: seq<nat>, ghost height: seq<nat>)
    ensures fresh(parents) && parents.Length == |extents| && Forest(parents[..], root, height)
    ensures RootsAreJoined(extents, root)
    ensures forall x: nat, y: nat | x < |extents| && y < |extents| && Overlap(extents[x], extents[y]) :: root[x] == root[y]
  {
    parents := new nat[|extents|](i => i);
    root, height := seq(|extents|, i => i), seq(|extents|, _ => 0);
    forall x: nat | x < |extents|
      ensures Joined(extents, x, x) && ForestAt(parents[..], root, height, x)
    {
      JoinedSelf(extents, x);
    }
    for left := 0 to |extents|
      invariant Forest(parents[..], root, height) && RootsAreJoined(extents, root) && PairsJoined(extents, root, left, 0)
    {
      for right := left + 1 to |extents|
        invariant Forest(parents[..], root, height) && RootsAreJoined(extents, root) && PairsJoined(extents, root, left, right)
      {
        if Overlap(extents[left], extents[right]) {
          root, height := Unite(parents, extents, root, height, left, right);
        }
      }
    }
  }

  /** Joins the classes of two overlapping slots. */
  method Unite(parents: array<nat>, ghost extents: seq<Extent>, ghost root: seq<nat>, ghost height: seq<nat>, left: nat, right: nat)
    returns (ghost root': seq<nat>, ghost height': seq<nat>)
    requires parents.Length == |extents| && Forest(parents[..], root, height) && RootsAreJoined(extents, root)
    requires left < right < |extents| && Overlap(extents[left], extents[right]) && PairsJoined(extents, root, left, right)
    modifies parents
    ensures Forest(parents[..], root', height') && RootsAreJoined(extents, root') && PairsJoined(extents, root', left, right + 1)
  {
    var leftRoot := Find(parents, root, height, left);
    var rightRoot := Find(parents, root, height, right);
    root', height' := root, height;
    assert ForestAt(parents[..], root, height, left) && ForestAt(parents[..], root, height, right);
    if leftRoot != rightRoot {
      UnionKeepsForest(parents[..], root, height, leftRoot, rightRoot);
      UnionKeepsJoined(extents, root, left, right);
      UnionKeepsPairs(extents, root, left, right);
      root', height' := UnitedRoots(root, leftRoot, rightRoot), UnitedHeights(root, height, leftRoot, height[rightRoot] + 1);
      parents[rightRoot] := leftRoot;
    }
  }

  // ---------------------------------------------------------------------
  // Numbering the classes

  /** Slots are numbered by their classes: below n all are, and a class has at most one number. */
  ghost predicate NumberedBelow(root: seq<nat>, ids: seq<Option<nat>>, count: nat, n: nat) {
    && |ids| == |root|
    && (forall x: nat | x < |root| :: root[x] < |root| && root[root[x]] == root[x])
    && (forall x: nat | x < n && x < |root| :: ids[x].Some?)
    && (forall x: nat | x < |root| && ids[x].Some? :: ids[x].value < count && ids[root[x]] == ids[x])
    && (forall x: nat, y: nat | x < |root| && y < |root| && ids[x].Some? && ids[x] == ids[y] :: root[x] == root[y])
    && (forall k: nat | k < count :: Some(k) in ids)
  }

  method NumberClasses(parents: array<nat>, ghost root: seq<nat>, ghost height: seq<nat>) returns (ids: seq<nat>, count: nat)
    requires Forest(parents[..], root, height)
    modifies parents
    ensures |ids| == |root| && (forall x | 0 <= x < |ids| :: ids[x] < count) && (forall k: nat | k < count :: k in ids)
    ensures forall x, y | 0 <= x < |ids| && 0 <= y < |ids| :: ids[x] == ids[y] <==> root[x] == root[y]
  {
    var numbers: seq<Option<nat>> := seq(parents.Length, _ => None);
    count := 0;
    forall x: nat | x < |root|
      ensures root[x] < |root| && root[root[x]] == root[x]
    {
      assert ForestAt(parents[..], root, height, x);
    }
    for slot := 0 to parents.Length
      invariant Forest(parents[..], root, height) && NumberedBelow(root, numbers, count, slot)
    {
      var found := Find(parents, root, height, slot);
      if numbers[found].None? {
        NumberRoot(root, numbers, count, slot);
        numbers := numbers[found := Some(count)];
        count := count + 1;
      }
      NumberSlot(root, numbers, count, slot);
      numbers := numbers[slot := numbers[found]];
    }
    ids := seq(parents.Length, x requires 0 <= x < parents.Length => numbers[x].value);
    forall x, y | 0 <= x < |ids| && 0 <= y < |ids|
      ensures ids[x] == ids[y] <==> root[x] == root[y]
    {
      assert numbers[root[x]] == numbers[x] && numbers[root[y]] == numbers[y];
    }
    forall k: nat | k < count
      ensures k in ids
    {
      var x :| 0 <= x < |numbers| && numbers[x] == Some(k);
      assert ids[x] == k;
    }
  }

  lemma NumberRoot(root: seq<nat>, ids: seq<Option<nat>>, count: nat, n: nat)
    requires NumberedBelow(root, ids, count, n) && n < |root| && ids[root[n]].None?
    ensures NumberedBelow(root, ids[root[n] := Some(count)], count + 1, n)
  {
    var ids' := ids[root[n] := Some(count)];
    forall k: nat | k < count + 1
      ensures Some(k) in ids'
    {
      if k < count {
        var x :| 0 <= x < |ids| && ids[x] == Some(k);
        assert ids'[x] == Some(k);
      } else {
        assert ids'[root[n]] == Some(k);
      }
    }
  }

  lemma NumberSlot(root: seq<nat>, ids: seq<Option<nat>>, count: nat, n: nat)
    requires NumberedBelow(root, ids, count, n) && n < |root| && ids[root[n]].Some?
    ensures NumberedBelow(root, ids[n := ids[root[n]]], count, n + 1)
  {
    var ids' := ids[n := ids[root[n]]];
    forall k: nat | k < count
      ensures Some(k) in ids'
    {
      var x :| 0 <= x < |ids| && ids[x] == Some(k);
      assert ids'[if x == n then root[n] else x] == Some(k);
    }
  }

  /** The same root means joined, and joined slots have the same root. */
  lemma {:induction false} ChainKeepsRoot(extents: seq<Extent>, root: seq<nat>, p: seq<nat>, x: nat, y: nat)
    requires |root| == |extents| && IsChain(extents, p, x, y)
    requires forall a: nat, b: nat | a < |extents| && b < |extents| && Overlap(extents[a], extents[b]) :: root[a] == root[b]
    ensures root[x] == root[y]
    decreases |p|
  {
    if |p| > 1 {
      assert IsChain(extents, p[1..], p[1], y);
      ChainKeepsRoot(extents, root, p[1..], p[1], y);
    }
  }

  lemma RootsDecideJoined(extents: seq<Extent>, root: seq<nat>, x: nat, y: nat)
    requires RootsAreJoined(extents, root) && x < |root| && y < |root|
    requires forall a: nat, b: nat | a < |extents| && b < |extents| && Overlap(extents[a], extents[b]) :: root[a] == root[b]
    ensures root[x] == root[y] <==> Joined(extents, x, y)
  {
    if Joined(extents, x, y) {
      var p :| IsChain(extents, p, x, y);
      ChainKeepsRoot(extents, root, p, x, y);
    }
    if root[x] == root[y] {
      JoinedTransitive(extents, x, root[x], y);
    }
  }

  // ---------------------------------------------------------------------
  // The plan

  /** A resource's storage: its slots lie one stride apart from its offset on. */
  datatype Slots = Slots(offset: Option<nat>, stride: nat, count: nat, frontiers: nat)

  function ExtentOf(slots: Slots, s: nat): Extent {
    match slots.offset
    case None => Unplaced
    case Some(offset) => Placed(offset + slots.stride * s, offset + slots.stride * s + slots.stride)
  }

  /** The first logical slot of each resource, and the number of logical slots at the end. */
  function SlotOffsets(resources: seq<Slots>): (offsets: seq<nat>)
    ensures |offsets| == |resources| + 1
  {
    if resources == [] then [0]
    else
      var before := SlotOffsets(resources[..|resources| - 1]);
      before + [before[|before| - 1] + resources[|resources| - 1].count]
  }

  function ExtentsOf(resources: seq<Slots>): seq<Extent> {
    if resources == [] then []
    else
      var last := resources[|resources| - 1];
      ExtentsOf(resources[..|resources| - 1]) + seq(last.count, s requires 0 <= s => ExtentOf(last, s))
  }

  lemma {:induction false} ExtentAt(resources: seq<Slots>, r: nat, s: nat)
    requires r < |resources| && s < resources[r].count
    ensures |ExtentsOf(resources)| == SlotOffsets(resources)[|resources|]
    ensures SlotOffsets(resources)[r] + s < |ExtentsOf(resources)|
    ensures ExtentsOf(resources)[SlotOffsets(resources)[r] + s] == ExtentOf(resources[r], s)
  {
    var n := |resources| - 1;
    ExtentCount(resources[..n]);
    if r < n {
      ExtentAt(resources[..n], r, s);
    }
  }

  lemma {:induction false} ExtentCount(resources: seq<Slots>)
    ensures |ExtentsOf(resources)| == SlotOffsets(resources)[|resources|]
  {
    if resources != [] {
      ExtentCount(resources[..|resources| - 1]);
    }
  }

  datatype Plan = Plan(slotOffsets: seq<nat>, physicalIds: seq<nat>, physicalSlots: nat, frontierOffsets: seq<nat>)

  /** Two logical slots share a physical slot exactly when a chain of overlapping slots joins them. */
  ghost predicate SharesExactly(extents: seq<Extent>, ids: seq<nat>) {
    && |ids| == |extents|
    && forall x: nat, y: nat | x < |ids| && y < |ids| :: ids[x] == ids[y] <==> Joined(extents, x, y)
  }

  method LayOut(resources: seq<Slots>) returns (offsets: seq<nat>, extents: seq<Extent>)
    ensures offsets == SlotOffsets(resources) && extents == ExtentsOf(resources)
  {
    offsets, extents := [0], [];
    for r := 0 to |resources|
      invariant offsets == SlotOffsets(resources[..r]) && extents == ExtentsOf(resources[..r])
    {
      assert resources[..r + 1][..r] == resources[..r];
      offsets := offsets + [offsets[r] + resources[r].count];
      extents := extents + seq(resources[r].count, s requires 0 <= s => ExtentOf(resources[r], s));
    }
    assert resources[..|resources|] == resources;
  }

  function CapacityNeeded(slots: Slots): nat {
    if slots.frontiers < 1 then 1 else slots.frontiers
  }

  function SlotId(resources: seq<Slots>, r: nat, s: nat): nat
    requires r < |resources|
  {
    SlotOffsets(resources)[r] + s
  }

  /** The frontier of the physical slot has room for the last users of the resource. */
  predicate HasRoom(resources: seq<Slots>, ids: seq<nat>, capacities: seq<nat>, r: nat, s: nat)
    requires r < |resources|
  {
    var x := SlotId(resources, r, s);
    x < |ids| && ids[x] < |capacities| && capacities[ids[x]] >= CapacityNeeded(resources[r])
  }

  predicate RoomBelow(resources: seq<Slots>, ids: seq<nat>, capacities: seq<nat>, n: nat)
    requires n <= |resources|
  {
    forall r: nat, s: nat | r < n && s < resources[r].count :: HasRoom(resources, ids, capacities, r, s)
  }

  predicate RoomIn(resources: seq<Slots>, ids: seq<nat>, capacities: seq<nat>, r: nat, m: nat)
    requires r < |resources|
  {
    forall u: nat | u < m :: HasRoom(resources, ids, capacities, r, u)
  }

  /** The capacity is the least one, or some resource with a slot in p needs it. */
  ghost predicate IsNeeded(resources: seq<Slots>, ids: seq<nat>, capacities: seq<nat>, p: nat)
    requires p < |capacities|
  {
    capacities[p] == 1 || exists r: nat, s: nat :: NeededBy(resources, ids, capacities[p], p, r, s)
  }

  predicate NeededBy(resources: seq<Slots>, ids: seq<nat>, capacity: nat, p: nat, r: nat, s: nat) {
    && r < |resources| && s < resources[r].count && capacity == resources[r].frontiers
    && SlotId(resources, r, s) < |ids| && ids[SlotId(resources, r, s)] == p
  }

  lemma RaisingKeepsRoom(resources: seq<Slots>, ids: seq<nat>, capacities: seq<nat>, raised: seq<nat>, n: nat, m: nat)
    requires n < |resources| && |raised| == |capacities| && forall p | 0 <= p < |capacities| :: capacities[p] <= raised[p]
    requires RoomBelow(resources, ids, capacities, n) && RoomIn(resources, ids, capacities, n, m)
    ensures RoomBelow(resources, ids, raised, n) && RoomIn(resources, ids, raised, n, m)
  {
    forall r: nat, s: nat | r < n && s < resources[r].count
      ensures HasRoom(resources, ids, raised, r, s)
    {
      assert HasRoom(resources, ids, capacities, r, s);
    }
    forall u: nat | u < m
      ensures HasRoom(resources, ids, raised, n, u)
    {
      assert HasRoom(resources, ids, capacities, n, u);
    }
  }

  /** Room in every frontier for all users that may end a tenancy of its slot, and no more. */
  method FrontierCapacities(resources: seq<Slots>, offsets: seq<nat>, ids: seq<nat>, physicalSlots: nat) returns (capacities: seq<nat>)
    requires offsets == SlotOffsets(resources) && |ids| == |ExtentsOf(resources)|
    requires forall x | 0 <= x < |ids| :: ids[x] < physicalSlots
    ensures |capacities| == physicalSlots && forall p | 0 <= p < physicalSlots :: capacities[p] >= 1
    ensures RoomBelow(resources, ids, capacities, |resources|)
    ensures forall p: nat | p < physicalSlots :: IsNeeded(resources, ids, capacities, p)
  {
    capacities := seq(physicalSlots, _ => 1);
    for r := 0 to |resources|
      invariant |capacities| == physicalSlots && forall p | 0 <= p < physicalSlots :: capacities[p] >= 1
      invariant RoomBelow(resources, ids, capacities, r)
      invariant forall p: nat | p < physicalSlots :: IsNeeded(resources, ids, capacities, p)
    {
      for s := 0 to resources[r].count
        invariant |capacities| == physicalSlots && forall p | 0 <= p < physicalSlots :: capacities[p] >= 1
        invariant RoomBelow(resources, ids, capacities, r)
        invariant RoomIn(resources, ids, capacities, r, s)
        invariant forall p: nat | p < physicalSlots :: IsNeeded(resources, ids, capacities, p)
      {
        ExtentAt(resources, r, s);
        var p := ids[offsets[r] + s];
        var room := RaiseTo(resources, ids, capacities, r, s, p);
        RaisingKeepsRoom(resources, ids, capacities, capacities[p := room], r, s);
        RaisingKeepsNeeded(resources, ids, capacities, p, capacities[p := room]);
        capacities := capacities[p := room];
      }
    }
  }

  lemma RaisingKeepsNeeded(resources: seq<Slots>, ids: seq<nat>, capacities: seq<nat>, p: nat, raised: seq<nat>)
    requires p < |capacities| == |raised| && raised == capacities[p := raised[p]] && IsNeeded(resources, ids, raised, p)
    requires forall q: nat | q < |capacities| :: IsNeeded(resources, ids, capacities, q)
    ensures forall q: nat | q < |capacities| :: IsNeeded(resources, ids, raised, q)
  {
    forall q: nat | q < |capacities|
      ensures IsNeeded(resources, ids, raised, q)
    {
      assert IsNeeded(resources, ids, capacities, q) && (q != p ==> raised[q] == capacities[q]);
    }
  }

  /** What the frontier needs with one more resource: the maximum of both needs. */
  method RaiseTo(resources: seq<Slots>, ids: seq<nat>, capacities: seq<nat>, r: nat, s: nat, p: nat) returns (room: nat)
    requires r < |resources| && s < resources[r].count && SlotId(resources, r, s) < |ids| && ids[SlotId(resources, r, s)] == p < |capacities|
    requires capacities[p] >= 1 && IsNeeded(resources, ids, capacities, p)
    ensures room >= capacities[p] && room >= CapacityNeeded(resources[r])
    ensures IsNeeded(resources, ids, capacities[p := room], p)
  {
    var capacity := CapacityNeeded(resources[r]);
    room := if capacities[p] < capacity then capacity else capacities[p];
    assert capacities[p] < capacity ==> NeededBy(resources, ids, room, p, r, s);
  }

  function Gaps(offsets: seq<nat>): seq<nat> {
    if |offsets| == 0 then []
    else seq(|offsets| - 1, p requires 0 <= p < |offsets| - 1 => if offsets[p] <= offsets[p + 1] then offsets[p + 1] - offsets[p] else 0)
  }

  /** Offsets whose gaps are the capacities. */
  method OffsetsOf(capacities: seq<nat>) returns (offsets: seq<nat>)
    ensures |offsets| == |capacities| + 1 && offsets[0] == 0
    ensures forall p | 0 <= p < |capacities| :: offsets[p + 1] == offsets[p] + capacities[p]
    ensures Gaps(offsets) == capacities
  {
    offsets := [0];
    for p := 0 to |capacities|
      invariant |offsets| == p + 1 && offsets[0] == 0
      invariant forall q | 0 <= q < p :: offsets[q + 1] == offsets[q] + capacities[q]
    {
      offsets := offsets + [offsets[p] + capacities[p]];
    }
  }

  /** Gives every slot the number of its class. */
  method ShareOverlapping(extents: seq<Extent>) returns (ids: seq<nat>, count: nat)
    ensures SharesExactly(extents, ids)
    ensures (forall x | 0 <= x < |ids| :: ids[x] < count) && (forall k: nat | k < count :: k in ids)
  {
    var parents, root, height := JoinOverlapping(extents);
    ids, count := NumberClasses(parents, root, height);
    ClassesShare(extents, root, ids);
  }

  /**
   * Plans the physical slots: logical slots share one exactly when chains of
   * overlaps join them, and every frontier has room for the last users of each
   * resource that may hold the slot.
   */
  method PlanPhysicalStorage(resources: seq<Slots>) returns (plan: Plan)
    ensures plan.slotOffsets == SlotOffsets(resources)
    ensures SharesExactly(ExtentsOf(resources), plan.physicalIds)
    ensures (forall x | 0 <= x < |plan.physicalIds| :: plan.physicalIds[x] < plan.physicalSlots)
      && (forall p: nat | p < plan.physicalSlots :: p in plan.physicalIds)
    ensures |plan.frontierOffsets| == plan.physicalSlots + 1 && plan.frontierOffsets[0] == 0
    ensures forall p: nat | p < plan.physicalSlots :: Gaps(plan.frontierOffsets)[p] >= 1
    ensures RoomBelow(resources, plan.physicalIds, Gaps(plan.frontierOffsets), |resources|)
    ensures forall p: nat | p < plan.physicalSlots :: IsNeeded(resources, plan.physicalIds, Gaps(plan.frontierOffsets), p)
  {
    var offsets, extents := LayOut(resources);
    var ids, count := ShareOverlapping(extents);
    var capacities := FrontierCapacities(resources, offsets, ids, count);
    var frontierOffsets := OffsetsOf(capacities);
    plan := Plan(offsets, ids, count, frontierOffsets);
  }

  lemma ClassesShare(extents: seq<Extent>, root: seq<nat>, ids: seq<nat>)
    requires RootsAreJoined(extents, root) && |ids| == |root|
    requires forall a: nat, b: nat | a < |extents| && b < |extents| && Overlap(extents[a], extents[b]) :: root[a] == root[b]
    requires forall x, y | 0 <= x < |ids| && 0 <= y < |ids| :: ids[x] == ids[y] <==> root[x] == root[y]
    ensures SharesExactly(extents, ids)
  {
    forall x: nat, y: nat | x < |ids| && y < |ids|
      ensures ids[x] == ids[y] <==> Joined(extents, x, y)
    {
      RootsDecideJoined(extents, root, x, y);
    }
  }

  /** Slots with different physical slots do not overlap. */
  lemma DifferentSlotsAreDisjoint(extents: seq<Extent>, ids: seq<nat>, x: nat, y: nat)
    requires SharesExactly(extents, ids) && x < |ids| && y < |ids| && ids[x] != ids[y]
    ensures !Overlap(extents[x], extents[y])
  {
    if Overlap(extents[x], extents[y]) {
      JoinedOverlap(extents, x, y);
    }
  }

  /** The byte lies in the extent. */
  predicate Covers(a: Extent, byte: nat) {
    a.Placed? && a.begin <= byte < a.end
  }

  /** Extents with a common byte overlap; overlapping extents that are not empty have one. */
  lemma OverlapMeansCommonByte(a: Extent, b: Extent)
    ensures (exists byte: nat :: Covers(a, byte) && Covers(b, byte)) <==>
      Overlap(a, b) && a.begin < a.end && b.begin < b.end
  {
    if Overlap(a, b) && a.begin < a.end && b.begin < b.end {
      var byte := if a.begin < b.begin then b.begin else a.begin;
      assert Covers(a, byte) && Covers(b, byte);
    }
  }

  /**
   * In every run of the slot table over planned physical slots, two slots that are
   * held at the same time never overlap in the storage.
   */
  lemma LiveSlotsNeverOverlap(
      extents: seq<Extent>, tables: seq<SlotTable.Table>, actions: seq<SlotTable.Action>, i: nat, r: nat, s: nat, q: nat, u: nat)
    requires SlotTable.IsRun(tables, actions) && i < |tables| && SlotTable.Layout(tables[i])
    requires SharesExactly(extents, tables[i].physicalIds)
    requires r < |tables[i].resources| && s < tables[i].resources[r].slotCount
    requires q < |tables[i].resources| && u < tables[i].resources[q].slotCount && (r != q || s != u)
    requires tables[i].slots[SlotTable.Logical(tables[i], r, s)].occupied && tables[i].slots[SlotTable.Logical(tables[i], q, u)].occupied
    ensures !Overlap(extents[SlotTable.Logical(tables[i], r, s)], extents[SlotTable.Logical(tables[i], q, u)])
  {
    var x, y := SlotTable.Logical(tables[i], r, s), SlotTable.Logical(tables[i], q, u);
    if tables[i].physicalIds[x] == tables[i].physicalIds[y] {
      SlotTable.PhysicalSlotsAreExclusive(tables, actions, i, r, s, q, u);
    } else {
      DifferentSlotsAreDisjoint(extents, tables[i].physicalIds, x, y);
    }
  }

  /** The slot table has the slots of these resources, one after the other. */
  predicate Tabulates(t: SlotTable.Table, resources: seq<Slots>) {
    && |t.resources| == |resources|
    && forall r | 0 <= r < |resources| ::
      t.resources[r].firstSlot == SlotOffsets(resources)[r] && t.resources[r].slotCount == resources[r].count
  }

  /** The byte belongs to slot s of the resource. */
  predicate InSlot(slots: Slots, s: nat, byte: nat) {
    slots.offset.Some? && slots.offset.value + slots.stride * s <= byte < slots.offset.value + slots.stride * s + slots.stride
  }

  lemma InSlotMeansCovered(slots: Slots, s: nat, byte: nat)
    ensures InSlot(slots, s, byte) <==> Covers(ExtentOf(slots, s), byte)
  {
  }

  /** So no byte of the storage belongs to two slots that are held at the same time. */
  lemma {:induction false} LiveSlotsShareNoByte(
      resources: seq<Slots>, tables: seq<SlotTable.Table>, actions: seq<SlotTable.Action>, i: nat, r: nat, s: nat, q: nat, u: nat, byte: nat)
    requires SlotTable.IsRun(tables, actions) && i < |tables| && SlotTable.Layout(tables[i])
    requires Tabulates(tables[i], resources) && SharesExactly(ExtentsOf(resources), tables[i].physicalIds)
    requires r < |resources| && s < resources[r].count && q < |resources| && u < resources[q].count && (r != q || s != u)
    requires tables[i].slots[SlotTable.Logical(tables[i], r, s)].occupied && tables[i].slots[SlotTable.Logical(tables[i], q, u)].occupied
    ensures !(InSlot(resources[r], s, byte) && InSlot(resources[q], u, byte))
  {
    ExtentAt(resources, r, s);
    ExtentAt(resources, q, u);
    LiveSlotsNeverOverlap(ExtentsOf(resources), tables, actions, i, r, s, q, u);
    OverlapMeansCommonByte(ExtentOf(resources[r], s), ExtentOf(resources[q], u));
    InSlotMeansCovered(resources[r], s, byte);
    InSlotMeansCovered(resources[q], u, byte);
  }
}
