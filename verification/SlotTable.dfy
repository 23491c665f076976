/**
 * The runtime slot table: generation-tagged storage slots, several of which may
 * share one physical slot, acquired under a lock and released in two locked
 * phases with the destructor call between them.
 */
module SlotTable {
  /** The values of a 64-bit generation counter. */
  const GENERATIONS: nat := 0x1_0000_0000_0000_0000

  datatype Slot = Slot(generation: nat, occupied: bool, constructed: bool)

  datatype Resource = Resource(firstSlot: nat, slotCount: nat, nextGeneration: nat, preconstructed: bool, hasDestroy: bool)

  /** A generation of a resource: the proof that its holder occupies the slot. */
  datatype Ticket = Ticket(resource: nat, slot: nat, generation: nat)

  datatype Table = Table(
    resources: seq<Resource>,
    slots: seq<Slot>,
    physicalIds: seq<nat>,
    occupancy: seq<nat>,
    // What has happened so far: releases between their phases, with whether the
    // destructor still has to run; generations issued per resource; objects
    // constructed and destroyed per logical slot
    releasing: map<Ticket, bool>,
    issued: seq<nat>,
    constructions: seq<nat>,
    destructions: seq<nat>)

  function Bit(b: bool): nat { if b then 1 else 0 }

  /** The counter skips zero when it wraps around. */
  function Successor(generation: nat): nat {
    if generation + 1 == GENERATIONS then 1 else generation + 1
  }

  function Logical(t: Table, r: nat, slot: nat): nat
    requires r < |t.resources|
  {
    t.resources[r].firstSlot + slot
  }

  /** The tables fit together: slot ranges are disjoint and every slot has a physical slot. */
  predicate Layout(t: Table) {
    && |t.physicalIds| == |t.slots| == |t.constructions| == |t.destructions|
    && |t.issued| == |t.resources|
    && (forall x | 0 <= x < |t.slots| :: t.physicalIds[x] < |t.occupancy|)
    && (forall r | 0 <= r < |t.resources| :: t.resources[r].firstSlot + t.resources[r].slotCount <= |t.slots|)
    && (forall r, q | 0 <= r < q < |t.resources| ::
          t.resources[r].firstSlot + t.resources[r].slotCount <= t.resources[q].firstSlot)
  }

  predicate InTable(t: Table, k: Ticket) {
    k.resource < |t.resources| && k.slot < t.resources[k.resource].slotCount
  }

  /** The check of a ticket: its slot is occupied by its generation. */
  predicate Validates(t: Table, k: Ticket)
    requires Layout(t)
  {
    && InTable(t, k)
    && var x := Logical(t, k.resource, k.slot);
       t.slots[x].occupied && t.slots[x].generation == k.generation
  }

  predicate PhysicallyOccupied(t: Table, x: nat)
    requires Layout(t) && x < |t.slots|
  {
    t.occupancy[t.physicalIds[x]] != 0
  }

  predicate AllConstructed(t: Table, r: nat)
    requires Layout(t) && r < |t.resources|
  {
    forall s | 0 <= s < t.resources[r].slotCount :: t.slots[Logical(t, r, s)].constructed
  }

  /** A slot that an ordinary acquisition may take. */
  predicate Available(t: Table, r: nat, s: nat)
    requires Layout(t) && r < |t.resources| && s < t.resources[r].slotCount
  {
    var x := Logical(t, r, s);
    && !t.slots[x].occupied
    && (t.resources[r].preconstructed ==> t.slots[x].constructed)
    && !PhysicallyOccupied(t, x)
  }

  /** A slot that the preconstruction of a resource may take. */
  predicate AvailableUnconstructed(t: Table, r: nat, s: nat)
    requires Layout(t) && r < |t.resources| && s < t.resources[r].slotCount
  {
    var x := Logical(t, r, s);
    !t.slots[x].occupied && !t.slots[x].constructed && !PhysicallyOccupied(t, x)
  }

  // ---------------------------------------------------------------------
  // The effects of the operations

  function Occupy(t: Table, r: nat, s: nat, construct: bool): Table
    requires Layout(t) && r < |t.resources| && s < t.resources[r].slotCount
  {
    var x := Logical(t, r, s);
    var p := t.physicalIds[x];
    t.(slots := t.slots[x := Slot(t.resources[r].nextGeneration, true, construct)],
       occupancy := t.occupancy[p := t.occupancy[p] + 1],
       resources := t.resources[r := t.resources[r].(nextGeneration := Successor(t.resources[r].nextGeneration))],
       issued := t.issued[r := t.issued[r] + 1])
  }

  /** An ordinary acquisition clears the constructed flag unless the resource is preconstructed. */
  function Acquired(t: Table, r: nat, s: nat): Table
    requires Layout(t) && r < |t.resources| && s < t.resources[r].slotCount
  {
    Occupy(t, r, s, t.resources[r].preconstructed && t.slots[Logical(t, r, s)].constructed)
  }

  function AcquiredUnconstructed(t: Table, r: nat, s: nat): Table
    requires Layout(t) && r < |t.resources| && s < t.resources[r].slotCount
  {
    Occupy(t, r, s, t.slots[Logical(t, r, s)].constructed)
  }

  function TicketFor(t: Table, r: nat, s: nat): Ticket
    requires r < |t.resources|
  {
    Ticket(r, s, t.resources[r].nextGeneration)
  }

  function Marked(t: Table, k: Ticket): Table
    requires Layout(t) && Validates(t, k)
  {
    var x := Logical(t, k.resource, k.slot);
    t.(slots := t.slots[x := t.slots[x].(constructed := true)],
       constructions := t.constructions[x := t.constructions[x] + 1])
  }

  /** The first locked phase decides whether the destructor has to run. */
  predicate NeedsDestroy(t: Table, k: Ticket)
    requires Layout(t) && Validates(t, k)
  {
    t.slots[Logical(t, k.resource, k.slot)].constructed && !t.resources[k.resource].preconstructed
  }

  function ReleaseBegun(t: Table, k: Ticket): Table
    requires Layout(t) && Validates(t, k)
  {
    var x := Logical(t, k.resource, k.slot);
    if NeedsDestroy(t, k) then
      t.(slots := t.slots[x := t.slots[x].(constructed := false)],
         releasing := t.releasing[k := t.resources[k.resource].hasDestroy])
    else
      t.(releasing := t.releasing[k := false])
  }

  /** The destructor call between the phases, outside the lock. */
  function Destroyed(t: Table, k: Ticket): Table
    requires Layout(t) && Validates(t, k)
  {
    var x := Logical(t, k.resource, k.slot);
    t.(releasing := t.releasing[k := false], destructions := t.destructions[x := t.destructions[x] + 1])
  }

  function ReleaseEnded(t: Table, k: Ticket): Table
    requires Layout(t) && Validates(t, k) && PhysicallyOccupied(t, Logical(t, k.resource, k.slot))
  {
    var x := Logical(t, k.resource, k.slot);
    var p := t.physicalIds[x];
    t.(slots := t.slots[x := t.slots[x].(occupied := false)],
       occupancy := t.occupancy[p := t.occupancy[p] - 1],
       releasing := t.releasing - {k})
  }

  /** A whole release: its two phases with the destructor between them. */
  function Released(t: Table, k: Ticket): Table
    requires Layout(t) && Validates(t, k) && PhysicallyOccupied(t, Logical(t, k.resource, k.slot))
  {
    var begun := ReleaseBegun(t, k);
    ReleaseEnded(if begun.releasing[k] then Destroyed(begun, k) else begun, k)
  }

  // ---------------------------------------------------------------------
  // The invariant

  function OccupiedAt(slots: seq<Slot>, physicalIds: seq<nat>, p: nat): nat
    requires |slots| == |physicalIds|
  {
    if slots == [] then 0
    else
      var n := |slots| - 1;
      OccupiedAt(slots[..n], physicalIds[..n], p) + Bit(slots[n].occupied && physicalIds[n] == p)
  }

  lemma {:induction false} OccupiedAtUpdate(slots: seq<Slot>, physicalIds: seq<nat>, p: nat, x: nat, s: Slot)
    requires |slots| == |physicalIds| && x < |slots|
    ensures OccupiedAt(slots[x := s], physicalIds, p) + Bit(slots[x].occupied && physicalIds[x] == p)
         == OccupiedAt(slots, physicalIds, p) + Bit(s.occupied && physicalIds[x] == p)
  {
    var n := |slots| - 1;
    if x == n {
      assert slots[x := s][..n] == slots[..n];
    } else {
      assert slots[x := s][..n] == slots[..n][x := s];
      OccupiedAtUpdate(slots[..n], physicalIds[..n], p, x, s);
    }
  }

  lemma {:induction false} OccupiedAtPositive(slots: seq<Slot>, physicalIds: seq<nat>, p: nat, x: nat)
    requires |slots| == |physicalIds| && x < |slots| && slots[x].occupied && physicalIds[x] == p
    ensures OccupiedAt(slots, physicalIds, p) > 0
  {
    var n := |slots| - 1;
    if x < n {
      assert slots[..n][x] == slots[x] && physicalIds[..n][x] == physicalIds[x];
      OccupiedAtPositive(slots[..n], physicalIds[..n], p, x);
    }
  }

  lemma {:induction false} OccupiedAtNone(slots: seq<Slot>, physicalIds: seq<nat>, p: nat)
    requires |slots| == |physicalIds| && forall x | 0 <= x < |slots| :: !slots[x].occupied
    ensures OccupiedAt(slots, physicalIds, p) == 0
  {
    if slots != [] {
      var n := |slots| - 1;
      OccupiedAtNone(slots[..n], physicalIds[..n], p);
    }
  }

  /** Every physical slot counts its occupied logical slots, of which there is at most one. */
  predicate OccupancyInvariant(t: Table)
    requires Layout(t)
  {
    forall p: nat | p < |t.occupancy| :: t.occupancy[p] == OccupiedAt(t.slots, t.physicalIds, p) <= 1
  }

  /** Until the counter wraps, every generation is newer than the ones before it. */
  predicate GenerationInvariant(t: Table)
    requires Layout(t)
  {
    forall r | 0 <= r < |t.resources| && t.issued[r] < GENERATIONS - 1 ::
      && t.resources[r].nextGeneration == t.issued[r] + 1
      && forall s | 0 <= s < t.resources[r].slotCount :: t.slots[Logical(t, r, s)].generation <= t.issued[r]
  }

  function PendingDestroy(t: Table, k: Ticket): nat {
    if k in t.releasing && t.releasing[k] then 1 else 0
  }

  /** The ticket of whoever occupies the slot. */
  function Occupant(t: Table, r: nat, s: nat): Ticket
    requires Layout(t) && r < |t.resources| && s < t.resources[r].slotCount
  {
    Ticket(r, s, t.slots[Logical(t, r, s)].generation)
  }

  /** What was constructed in the slot is alive, about to be destroyed, or destroyed. */
  predicate ObjectsAccounted(t: Table, r: nat, s: nat)
    requires Layout(t) && r < |t.resources| && s < t.resources[r].slotCount
  {
    var x := Logical(t, r, s);
    && (!t.slots[x].occupied && !t.resources[r].preconstructed ==> !t.slots[x].constructed)
    && (t.resources[r].hasDestroy ==>
          t.constructions[x] == t.destructions[x] + Bit(t.slots[x].constructed) + PendingDestroy(t, Occupant(t, r, s)))
  }

  predicate ObjectInvariant(t: Table)
    requires Layout(t)
  {
    forall r, s | 0 <= r < |t.resources| && 0 <= s < t.resources[r].slotCount :: ObjectsAccounted(t, r, s)
  }

  /** A release between its phases still holds its slot, and its object is no longer counted as constructed. */
  predicate ReleaseHolds(t: Table, k: Ticket)
    requires Layout(t) && k in t.releasing
  {
    && Validates(t, k)
    && (!t.resources[k.resource].preconstructed ==> !t.slots[Logical(t, k.resource, k.slot)].constructed)
    && (t.releasing[k] ==> !t.resources[k.resource].preconstructed && t.resources[k.resource].hasDestroy)
  }

  predicate ReleaseInvariant(t: Table)
    requires Layout(t)
  {
    forall k | k in t.releasing :: ReleaseHolds(t, k)
  }

  predicate Invariant(t: Table) {
    Layout(t) && OccupancyInvariant(t) && GenerationInvariant(t) && ObjectInvariant(t) && ReleaseInvariant(t)
  }

  predicate Init(t: Table) {
    && Layout(t)
    && (forall r | 0 <= r < |t.resources| :: t.resources[r].nextGeneration == 1 && t.issued[r] == 0)
    && (forall x | 0 <= x < |t.slots| :: t.slots[x] == Slot(0, false, false) && t.constructions[x] == 0 && t.destructions[x] == 0)
    && (forall p | 0 <= p < |t.occupancy| :: t.occupancy[p] == 0)
    && t.releasing == map[]
  }

  lemma InitEstablishesInvariant(t: Table)
    requires Init(t)
    ensures Invariant(t)
  {
    forall p: nat | p < |t.occupancy|
      ensures OccupiedAt(t.slots, t.physicalIds, p) == 0
    {
      OccupiedAtNone(t.slots, t.physicalIds, p);
    }
  }

  // ---------------------------------------------------------------------
  // Steps

  datatype Action =
    | AcquireAny(resource: nat, slot: nat)
    | AcquirePreferred(resource: nat, slot: nat)
    | AcquireUnconstructed(resource: nat, slot: nat)
    | MarkConstructed(ticket: Ticket)
    | BeginRelease(ticket: Ticket)
    | Destroy(ticket: Ticket)
    | EndRelease(ticket: Ticket)

  /** The holder of a ticket marks and releases it once each, and not while it is being released. */
  predicate Enabled(t: Table, a: Action)
    requires Layout(t)
  {
    match a
    case AcquireAny(r, s) =>
      && r < |t.resources| && s < t.resources[r].slotCount
      && (t.resources[r].preconstructed ==> AllConstructed(t, r))
      && Available(t, r, s)
      && forall earlier | 0 <= earlier < s :: !Available(t, r, earlier)
    case AcquirePreferred(r, s) =>
      r < |t.resources| && s < t.resources[r].slotCount && Available(t, r, s)
    case AcquireUnconstructed(r, s) =>
      && r < |t.resources| && s < t.resources[r].slotCount && t.resources[r].preconstructed
      && AvailableUnconstructed(t, r, s)
      && forall earlier | 0 <= earlier < s :: !AvailableUnconstructed(t, r, earlier)
    case MarkConstructed(k) => Validates(t, k) && k !in t.releasing && !t.slots[Logical(t, k.resource, k.slot)].constructed
    case BeginRelease(k) => Validates(t, k) && k !in t.releasing
    case Destroy(k) => Validates(t, k) && k in t.releasing && t.releasing[k]
    case EndRelease(k) =>
      Validates(t, k) && k in t.releasing && !t.releasing[k] && PhysicallyOccupied(t, Logical(t, k.resource, k.slot))
  }

  function Apply(t: Table, a: Action): Table
    requires Layout(t) && Enabled(t, a)
  {
    match a
    case AcquireAny(r, s) => Acquired(t, r, s)
    case AcquirePreferred(r, s) => Acquired(t, r, s)
    case AcquireUnconstructed(r, s) => AcquiredUnconstructed(t, r, s)
    case MarkConstructed(k) => Marked(t, k)
    case BeginRelease(k) => ReleaseBegun(t, k)
    case Destroy(k) => Destroyed(t, k)
    case EndRelease(k) => ReleaseEnded(t, k)
  }

  lemma LogicalIsInjective(t: Table, r: nat, s: nat, q: nat, u: nat)
    requires Layout(t)
    requires r < |t.resources| && s < t.resources[r].slotCount && q < |t.resources| && u < t.resources[q].slotCount
    ensures Logical(t, r, s) == Logical(t, q, u) ==> r == q && s == u
    ensures Logical(t, r, s) < |t.slots|
  {
  }

  lemma OccupyKeepsOccupancy(t: Table, r: nat, s: nat, construct: bool)
    requires Layout(t) && OccupancyInvariant(t) && r < |t.resources| && s < t.resources[r].slotCount
    requires !t.slots[Logical(t, r, s)].occupied && !PhysicallyOccupied(t, Logical(t, r, s))
    ensures Layout(Occupy(t, r, s, construct)) && OccupancyInvariant(Occupy(t, r, s, construct))
  {
    var t' := Occupy(t, r, s, construct);
    var x := Logical(t, r, s);
    forall p: nat | p < |t'.occupancy|
      ensures t'.occupancy[p] == OccupiedAt(t'.slots, t'.physicalIds, p) <= 1
    {
      OccupiedAtUpdate(t.slots, t.physicalIds, p, x, t'.slots[x]);
    }
  }

  lemma OccupyKeepsGenerations(t: Table, r: nat, s: nat, construct: bool)
    requires Layout(t) && GenerationInvariant(t) && r < |t.resources| && s < t.resources[r].slotCount
    ensures Layout(Occupy(t, r, s, construct)) && GenerationInvariant(Occupy(t, r, s, construct))
  {
    var t' := Occupy(t, r, s, construct);
    forall q: nat | q < |t'.resources| && t'.issued[q] < GENERATIONS - 1
      ensures t'.resources[q].nextGeneration == t'.issued[q] + 1
      ensures forall u | 0 <= u < t'.resources[q].slotCount :: t'.slots[Logical(t', q, u)].generation <= t'.issued[q]
    {
      forall u: nat | u < t'.resources[q].slotCount
        ensures t'.slots[Logical(t', q, u)].generation <= t'.issued[q]
      {
        LogicalIsInjective(t, r, s, q, u);
        assert t.slots[Logical(t, q, u)].generation <= t.issued[q];
      }
    }
  }

  /** Nobody is releasing a free slot, whatever the generation. */
  lemma FreeIsNotReleasing(t: Table, r: nat, s: nat, generation: nat)
    requires Layout(t) && ReleaseInvariant(t) && r < |t.resources| && s < t.resources[r].slotCount
    requires !t.slots[Logical(t, r, s)].occupied
    ensures Ticket(r, s, generation) !in t.releasing
  {
    forall k | k in t.releasing
      ensures k != Ticket(r, s, generation)
    {
      assert ReleaseHolds(t, k);
    }
  }

  lemma OccupyKeepsReleases(t: Table, t': Table, r: nat, s: nat, construct: bool)
    requires Layout(t) && ReleaseInvariant(t) && r < |t.resources| && s < t.resources[r].slotCount
    requires !t.slots[Logical(t, r, s)].occupied && Layout(t') && t' == Occupy(t, r, s, construct)
    ensures ReleaseInvariant(t')
  {
    assert t'.releasing == t.releasing;
    forall k | k in t.releasing
      ensures ReleaseHolds(t', k)
    {
      assert ReleaseHolds(t, k);
      OccupyKeepsRelease(t, t', r, s, construct, k);
    }
  }

  lemma OccupyKeepsRelease(t: Table, t': Table, r: nat, s: nat, construct: bool, k: Ticket)
    requires Layout(t) && r < |t.resources| && s < t.resources[r].slotCount && !t.slots[Logical(t, r, s)].occupied
    requires Layout(t') && t' == Occupy(t, r, s, construct) && k in t.releasing && ReleaseHolds(t, k)
    ensures k in t'.releasing && ReleaseHolds(t', k)
  {
    LogicalIsInjective(t, r, s, k.resource, k.slot);
  }

  lemma OccupyKeepsObject(t: Table, t': Table, r: nat, s: nat, q: nat, u: nat)
    requires Layout(t) && r < |t.resources| && s < t.resources[r].slotCount && q < |t.resources| && u < t.resources[q].slotCount
    requires Layout(t') && t' == Occupy(t, r, s, t.slots[Logical(t, r, s)].constructed)
    requires Occupant(t, r, s) !in t.releasing && Occupant(t', r, s) !in t.releasing
    requires ObjectsAccounted(t, q, u)
    ensures ObjectsAccounted(t', q, u)
  {
    LogicalIsInjective(t, r, s, q, u);
  }

  lemma OccupyKeepsObjects(t: Table, r: nat, s: nat, construct: bool)
    requires Layout(t) && ObjectInvariant(t) && ReleaseInvariant(t) && r < |t.resources| && s < t.resources[r].slotCount
    requires !t.slots[Logical(t, r, s)].occupied
    requires construct == t.slots[Logical(t, r, s)].constructed
    ensures Layout(Occupy(t, r, s, construct)) && ObjectInvariant(Occupy(t, r, s, construct))
  {
    var t' := Occupy(t, r, s, construct);
    FreeIsNotReleasing(t, r, s, t.slots[Logical(t, r, s)].generation);
    FreeIsNotReleasing(t, r, s, t.resources[r].nextGeneration);
    forall q: nat, u: nat | q < |t'.resources| && u < t'.resources[q].slotCount
      ensures ObjectsAccounted(t', q, u)
    {
      OccupyKeepsObject(t, t', r, s, q, u);
    }
  }

  lemma OccupyKeepsInvariant(t: Table, r: nat, s: nat, construct: bool)
    requires Invariant(t) && r < |t.resources| && s < t.resources[r].slotCount
    requires !t.slots[Logical(t, r, s)].occupied && !PhysicallyOccupied(t, Logical(t, r, s))
    requires construct == t.slots[Logical(t, r, s)].constructed
    ensures Invariant(Occupy(t, r, s, construct))
  {
    OccupyKeepsOccupancy(t, r, s, construct);
    OccupyKeepsGenerations(t, r, s, construct);
    OccupyKeepsReleases(t, Occupy(t, r, s, construct), r, s, construct);
    OccupyKeepsObjects(t, r, s, construct);
  }

  /** Steps that keep every occupied flag and generation keep the counts and the order of generations. */
  lemma SameOccupancyKeepsCounts(t: Table, t': Table)
    requires Layout(t) && OccupancyInvariant(t) && GenerationInvariant(t)
    requires t'.resources == t.resources && t'.physicalIds == t.physicalIds && t'.occupancy == t.occupancy && t'.issued == t.issued
    requires |t'.slots| == |t.slots| && |t'.constructions| == |t'.destructions| == |t.slots|
    requires forall x | 0 <= x < |t.slots| :: t'.slots[x].occupied == t.slots[x].occupied && t'.slots[x].generation == t.slots[x].generation
    ensures Layout(t') && OccupancyInvariant(t') && GenerationInvariant(t')
  {
    forall p: nat | p < |t.occupancy|
      ensures OccupiedAt(t'.slots, t.physicalIds, p) == OccupiedAt(t.slots, t.physicalIds, p)
    {
      OccupiedAtSame(t.slots, t'.slots, t.physicalIds, p);
    }
    forall q: nat, u: nat | q < |t.resources| && u < t.resources[q].slotCount
      ensures t'.slots[Logical(t', q, u)].generation == t.slots[Logical(t, q, u)].generation
    {
    }
  }

  lemma {:induction false} OccupiedAtSame(a: seq<Slot>, b: seq<Slot>, physicalIds: seq<nat>, p: nat)
    requires |a| == |b| == |physicalIds|
    requires forall x | 0 <= x < |a| :: a[x].occupied == b[x].occupied
    ensures OccupiedAt(a, physicalIds, p) == OccupiedAt(b, physicalIds, p)
  {
    if a != [] {
      var n := |a| - 1;
      OccupiedAtSame(a[..n], b[..n], physicalIds[..n], p);
    }
  }

  /** What a holder's step leaves alone: every other slot, and every other ticket's release. */
  ghost predicate TouchesOnly(t: Table, t': Table, k: Ticket)
    requires Layout(t) && InTable(t, k)
  {
    && t'.resources == t.resources && t'.physicalIds == t.physicalIds && t'.issued == t.issued
    && Layout(t')
    && |t'.slots| == |t.slots|
    && var x := Logical(t, k.resource, k.slot);
    && t'.slots[x].generation == t.slots[x].generation
    && (forall y | 0 <= y < |t.slots| && y != x ::
          t'.slots[y] == t.slots[y] && t'.constructions[y] == t.constructions[y] && t'.destructions[y] == t.destructions[y])
    && (t'.releasing - {k}) == (t.releasing - {k})
  }

  lemma OtherReleasesAgree(t: Table, t': Table, k: Ticket, other: Ticket)
    requires t'.releasing - {k} == t.releasing - {k} && other != k
    ensures other in t'.releasing <==> other in t.releasing
    ensures other in t.releasing ==> t'.releasing[other] == t.releasing[other]
  {
    assert other in t.releasing <==> other in t.releasing - {k};
    assert other in t'.releasing <==> other in t'.releasing - {k};
  }

  lemma TouchesOnlyKeepsOtherObjects(t: Table, t': Table, k: Ticket, r: nat, s: nat)
    requires Layout(t) && InTable(t, k) && TouchesOnly(t, t', k)
    requires r < |t.resources| && s < t.resources[r].slotCount && (r != k.resource || s != k.slot)
    requires ObjectsAccounted(t, r, s)
    ensures ObjectsAccounted(t', r, s)
  {
    LogicalIsInjective(t, r, s, k.resource, k.slot);
    OtherReleasesAgree(t, t', k, Occupant(t, r, s));
  }

  lemma TouchesOnlyKeepsOtherReleases(t: Table, t': Table, k: Ticket, other: Ticket)
    requires Layout(t) && Validates(t, k) && TouchesOnly(t, t', k)
    requires other in t.releasing && ReleaseHolds(t, other) && other != k
    ensures other in t'.releasing && ReleaseHolds(t', other)
  {
    OtherReleasesAgree(t, t', k, other);
    LogicalIsInjective(t, other.resource, other.slot, k.resource, k.slot);
  }

  predicate IsHolderStep(a: Action) {
    a.MarkConstructed? || a.BeginRelease? || a.Destroy? || a.EndRelease?
  }

  lemma HolderStepTouchesOnly(t: Table, a: Action)
    requires Layout(t) && Enabled(t, a) && IsHolderStep(a)
    ensures TouchesOnly(t, Apply(t, a), a.ticket)
  {
    var k := a.ticket;
    assert Logical(t, k.resource, k.slot) < |t.slots|;
    assert Apply(t, a).releasing - {k} == t.releasing - {k};
  }

  lemma HolderStepKeepsOwnObject(t: Table, a: Action)
    requires Layout(t) && Enabled(t, a) && IsHolderStep(a)
    requires ObjectsAccounted(t, a.ticket.resource, a.ticket.slot)
    requires a.ticket in t.releasing ==> ReleaseHolds(t, a.ticket)
    ensures Layout(Apply(t, a)) && ObjectsAccounted(Apply(t, a), a.ticket.resource, a.ticket.slot)
  {
    var k := a.ticket;
    assert Occupant(t, k.resource, k.slot) == k;
  }

  lemma HolderStepKeepsOwnRelease(t: Table, a: Action)
    requires Layout(t) && Enabled(t, a) && IsHolderStep(a)
    requires a.ticket in t.releasing ==> ReleaseHolds(t, a.ticket)
    ensures Layout(Apply(t, a)) && (a.ticket in Apply(t, a).releasing ==> ReleaseHolds(Apply(t, a), a.ticket))
  {
  }

  /** Marking, and each phase of a release, touch the ticket's own slot only. */
  lemma HolderStepKeepsObjects(t: Table, a: Action)
    requires Layout(t) && Enabled(t, a) && IsHolderStep(a)
    requires ObjectInvariant(t) && ReleaseInvariant(t)
    ensures Layout(Apply(t, a)) && ObjectInvariant(Apply(t, a)) && ReleaseInvariant(Apply(t, a))
  {
    var t' := Apply(t, a);
    var k := a.ticket;
    HolderStepTouchesOnly(t, a);
    HolderStepKeepsOwnObject(t, a);
    HolderStepKeepsOwnRelease(t, a);
    forall r: nat, s: nat | r < |t.resources| && s < t.resources[r].slotCount
      ensures ObjectsAccounted(t', r, s)
    {
      if r != k.resource || s != k.slot {
        TouchesOnlyKeepsOtherObjects(t, t', k, r, s);
      }
    }
    forall other | other in t'.releasing
      ensures ReleaseHolds(t', other)
    {
      if other != k {
        OtherReleasesAgree(t, t', k, other);
        TouchesOnlyKeepsOtherReleases(t, t', k, other);
      }
    }
  }

  lemma EndReleaseKeepsCounts(t: Table, k: Ticket)
    requires Layout(t) && OccupancyInvariant(t) && GenerationInvariant(t) && Validates(t, k)
    requires PhysicallyOccupied(t, Logical(t, k.resource, k.slot))
    ensures Layout(ReleaseEnded(t, k)) && OccupancyInvariant(ReleaseEnded(t, k)) && GenerationInvariant(ReleaseEnded(t, k))
  {
    var t' := ReleaseEnded(t, k);
    var x := Logical(t, k.resource, k.slot);
    forall p: nat | p < |t'.occupancy|
      ensures t'.occupancy[p] == OccupiedAt(t'.slots, t'.physicalIds, p) <= 1
    {
      OccupiedAtUpdate(t.slots, t.physicalIds, p, x, t'.slots[x]);
    }
    forall q: nat, u: nat | q < |t.resources| && u < t.resources[q].slotCount
      ensures t'.slots[Logical(t', q, u)].generation == t.slots[Logical(t, q, u)].generation
    {
    }
  }

  /** A slot that its holder still occupies keeps its physical slot occupied. */
  lemma HolderOccupiesPhysicalSlot(t: Table, k: Ticket)
    requires Layout(t) && OccupancyInvariant(t) && Validates(t, k)
    ensures PhysicallyOccupied(t, Logical(t, k.resource, k.slot))
  {
    var x := Logical(t, k.resource, k.slot);
    OccupiedAtPositive(t.slots, t.physicalIds, t.physicalIds[x], x);
  }

  /** Every step of every thread keeps the invariant. */
  lemma StepKeepsInvariant(t: Table, a: Action)
    requires Invariant(t) && Enabled(t, a)
    ensures Invariant(Apply(t, a))
  {
    match a
    case AcquireAny(r, s) =>
      assert ObjectsAccounted(t, r, s);
      OccupyKeepsInvariant(t, r, s, t.slots[Logical(t, r, s)].constructed);
    case AcquirePreferred(r, s) =>
      assert ObjectsAccounted(t, r, s);
      OccupyKeepsInvariant(t, r, s, t.slots[Logical(t, r, s)].constructed);
    case AcquireUnconstructed(r, s) =>
      OccupyKeepsInvariant(t, r, s, t.slots[Logical(t, r, s)].constructed);
    case EndRelease(k) =>
      EndReleaseKeepsCounts(t, k);
      HolderStepKeepsObjects(t, a);
    case _ =>
      SameOccupancyKeepsCounts(t, Apply(t, a));
      HolderStepKeepsObjects(t, a);
  }

  /** Nothing but the steps of a release happens to the ticket between its phases. */
  lemma ReleaseProceeds(t: Table, k: Ticket)
    requires Layout(t) && Validates(t, k) && PhysicallyOccupied(t, Logical(t, k.resource, k.slot))
    ensures var begun := ReleaseBegun(t, k);
      && Layout(begun) && Validates(begun, k) && k in begun.releasing && PhysicallyOccupied(begun, Logical(begun, k.resource, k.slot))
      && (begun.releasing[k] ==>
            var destroyed := Destroyed(begun, k);
            && Layout(destroyed) && Validates(destroyed, k) && k in destroyed.releasing && !destroyed.releasing[k]
            && PhysicallyOccupied(destroyed, Logical(destroyed, k.resource, k.slot)))
  {
  }

  /** A whole release leaves the slot free, and the object in it alive exactly if its resource is preconstructed; else it is destroyed, once. */
  lemma WhatReleaseLeaves(t: Table, k: Ticket)
    requires Layout(t) && Validates(t, k) && PhysicallyOccupied(t, Logical(t, k.resource, k.slot))
    ensures var x := Logical(t, k.resource, k.slot);
      var resource, slot := t.resources[k.resource], t.slots[x];
      && Released(t, k).slots == t.slots[x := Slot(slot.generation, false, slot.constructed && resource.preconstructed)]
      && Released(t, k).destructions ==
           t.destructions[x := t.destructions[x] + Bit(slot.constructed && !resource.preconstructed && resource.hasDestroy)]
  {
    ReleaseProceeds(t, k);
    var begun := ReleaseBegun(t, k);
    if !begun.releasing[k] {
      assert t.destructions == t.destructions[Logical(t, k.resource, k.slot) := t.destructions[Logical(t, k.resource, k.slot)]];
    }
  }

  /** A whole release consists of steps. */
  lemma ReleaseKeepsInvariant(t: Table, k: Ticket)
    requires Invariant(t) && Validates(t, k) && k !in t.releasing && PhysicallyOccupied(t, Logical(t, k.resource, k.slot))
    ensures Invariant(Released(t, k))
  {
    ReleaseProceeds(t, k);
    var begun := ReleaseBegun(t, k);
    StepKeepsInvariant(t, BeginRelease(k));
    if begun.releasing[k] {
      StepKeepsInvariant(begun, Destroy(k));
      StepKeepsInvariant(Destroyed(begun, k), EndRelease(k));
    } else {
      StepKeepsInvariant(begun, EndRelease(k));
    }
  }

  // ---------------------------------------------------------------------
  // Preconstruction

  /** The net effect of acquiring, constructing, marking and releasing one slot. */
  function PreconstructedAt(t: Table, r: nat, s: nat): Table
    requires Layout(t) && r < |t.resources| && s < t.resources[r].slotCount
  {
    var x := Logical(t, r, s);
    t.(slots := t.slots[x := Slot(t.resources[r].nextGeneration, false, true)],
       resources := t.resources[r := t.resources[r].(nextGeneration := Successor(t.resources[r].nextGeneration))],
       issued := t.issued[r := t.issued[r] + 1],
       constructions := t.constructions[x := t.constructions[x] + 1])
  }

  lemma PreconstructionRound(t: Table, r: nat, s: nat, k: Ticket)
    requires Layout(t) && r < |t.resources| && s < t.resources[r].slotCount && t.resources[r].preconstructed
    requires k == TicketFor(t, r, s) && k !in t.releasing && Layout(AcquiredUnconstructed(t, r, s))
    ensures Validates(AcquiredUnconstructed(t, r, s), k)
    ensures var marked := Marked(AcquiredUnconstructed(t, r, s), k);
      && Layout(marked) && Validates(marked, k) && PhysicallyOccupied(marked, Logical(marked, r, s))
      && Released(marked, k) == PreconstructedAt(t, r, s)
  {
    var acquired := AcquiredUnconstructed(t, r, s);
    var marked := Marked(acquired, k);
    var p := t.physicalIds[Logical(t, r, s)];
    assert t.occupancy[p := t.occupancy[p] + 1][p := t.occupancy[p]] == t.occupancy;
    assert t.releasing[k := false] - {k} == t.releasing;
  }

  /** The slots below `n` are constructed and free, the others unconstructed and free. */
  predicate PreconstructedBelow(t: Table, r: nat, n: nat) {
    && Layout(t) && r < |t.resources| && t.resources[r].preconstructed
    && forall s: nat | s < t.resources[r].slotCount :: if s < n then Available(t, r, s) else AvailableUnconstructed(t, r, s)
  }

  lemma NextIsLowestUnconstructed(t: Table, r: nat, n: nat, s: nat)
    requires PreconstructedBelow(t, r, n) && n < t.resources[r].slotCount && Enabled(t, AcquireUnconstructed(r, s))
    ensures s == n
  {
    assert AvailableUnconstructed(t, r, n);
    forall u: nat | u < n
      ensures !AvailableUnconstructed(t, r, u)
    {
      assert Available(t, r, u);
    }
  }

  lemma PreconstructedNext(t: Table, r: nat, n: nat)
    requires PreconstructedBelow(t, r, n) && n < t.resources[r].slotCount
    ensures PreconstructedBelow(PreconstructedAt(t, r, n), r, n + 1)
  {
    var t' := PreconstructedAt(t, r, n);
    forall s: nat | s < t'.resources[r].slotCount
      ensures if s < n + 1 then Available(t', r, s) else AvailableUnconstructed(t', r, s)
    {
      LogicalIsInjective(t, r, n, r, s);
      assert if s < n then Available(t, r, s) else AvailableUnconstructed(t, r, s);
    }
  }

  // ---------------------------------------------------------------------
  // Runs

  ghost predicate IsRun(tables: seq<Table>, actions: seq<Action>) {
    && |tables| == |actions| + 1
    && Init(tables[0])
    && forall i | 0 <= i < |actions| ::
      Layout(tables[i]) && Enabled(tables[i], actions[i]) && tables[i + 1] == Apply(tables[i], actions[i])
  }

  lemma {:induction false} RunKeepsInvariant(tables: seq<Table>, actions: seq<Action>, i: nat)
    requires IsRun(tables, actions) && i < |tables|
    ensures Invariant(tables[i])
  {
    if i == 0 {
      InitEstablishesInvariant(tables[0]);
    } else {
      RunKeepsInvariant(tables, actions, i - 1);
      StepKeepsInvariant(tables[i - 1], actions[i - 1]);
      assert tables[i - 1 + 1] == Apply(tables[i - 1], actions[i - 1]);
    }
  }

  /** The next generation follows from how many were issued: the counter runs through 1 to its greatest value and starts again. */
  predicate CounterRuns(t: Table, r: nat) {
    r < |t.resources| && r < |t.issued| && t.resources[r].nextGeneration == 1 + t.issued[r] % (GENERATIONS - 1)
  }

  lemma SuccessorRuns(issued: nat)
    ensures Successor(1 + issued % (GENERATIONS - 1)) == 1 + (issued + 1) % (GENERATIONS - 1)
  {
  }

  lemma OccupyKeepsCounter(t: Table, q: nat, u: nat, construct: bool, r: nat)
    requires Layout(t) && q < |t.resources| && u < t.resources[q].slotCount && CounterRuns(t, r)
    ensures CounterRuns(Occupy(t, q, u, construct), r)
  {
    SuccessorRuns(t.issued[r]);
  }

  lemma StepKeepsCounter(t: Table, a: Action, r: nat)
    requires Layout(t) && Enabled(t, a) && CounterRuns(t, r)
    ensures CounterRuns(Apply(t, a), r)
  {
    match a
    case AcquireAny(q, u) => OccupyKeepsCounter(t, q, u, t.resources[q].preconstructed && t.slots[Logical(t, q, u)].constructed, r);
    case AcquirePreferred(q, u) => OccupyKeepsCounter(t, q, u, t.resources[q].preconstructed && t.slots[Logical(t, q, u)].constructed, r);
    case AcquireUnconstructed(q, u) => OccupyKeepsCounter(t, q, u, t.slots[Logical(t, q, u)].constructed, r);
    case _ =>
  }

  /** In every run generations fit the counter, never are zero, and repeat only after all others were issued. */
  lemma {:induction false} NextGenerationExactly(tables: seq<Table>, actions: seq<Action>, i: nat, r: nat)
    requires IsRun(tables, actions) && i < |tables| && r < |tables[0].resources|
    ensures CounterRuns(tables[i], r) && 1 <= tables[i].resources[r].nextGeneration < GENERATIONS
  {
    if i > 0 {
      NextGenerationExactly(tables, actions, i - 1, r);
      StepKeepsCounter(tables[i - 1], actions[i - 1], r);
      assert tables[i - 1 + 1] == Apply(tables[i - 1], actions[i - 1]);
    }
  }

  /** A ticket that nothing can make valid again while its counter has not wrapped. */
  predicate Stale(t: Table, k: Ticket)
    requires Layout(t)
  {
    InTable(t, k) && k.generation <= t.issued[k.resource] && !Validates(t, k)
  }

  lemma OccupyKeepsStale(t: Table, r: nat, s: nat, construct: bool, k: Ticket)
    requires Layout(t) && GenerationInvariant(t) && Stale(t, k) && t.issued[k.resource] < GENERATIONS - 1
    requires r < |t.resources| && s < t.resources[r].slotCount
    ensures Layout(Occupy(t, r, s, construct)) && Stale(Occupy(t, r, s, construct), k)
    ensures Occupy(t, r, s, construct).issued[k.resource] >= t.issued[k.resource]
  {
    LogicalIsInjective(t, r, s, k.resource, k.slot);
  }

  lemma HolderStepKeepsStale(t: Table, a: Action, k: Ticket)
    requires Layout(t) && Enabled(t, a) && IsHolderStep(a) && Stale(t, k)
    ensures Layout(Apply(t, a)) && Stale(Apply(t, a), k) && Apply(t, a).issued == t.issued
  {
    HolderStepTouchesOnly(t, a);
    HolderNeverOccupies(t, a);
  }

  lemma HolderNeverOccupies(t: Table, a: Action)
    requires Layout(t) && Enabled(t, a) && IsHolderStep(a)
    ensures var x := Logical(t, a.ticket.resource, a.ticket.slot);
      x < |t.slots| && x < |Apply(t, a).slots| && (Apply(t, a).slots[x].occupied ==> t.slots[x].occupied)
  {
  }

  lemma StepKeepsStale(t: Table, a: Action, k: Ticket)
    requires Invariant(t) && Enabled(t, a) && Stale(t, k)
    requires t.issued[k.resource] < GENERATIONS - 1
    ensures Layout(Apply(t, a)) && Stale(Apply(t, a), k)
    ensures Apply(t, a).issued[k.resource] >= t.issued[k.resource]
  {
    match a
    case AcquireAny(r, s) => OccupyKeepsStale(t, r, s, t.resources[r].preconstructed && t.slots[Logical(t, r, s)].constructed, k);
    case AcquirePreferred(r, s) => OccupyKeepsStale(t, r, s, t.resources[r].preconstructed && t.slots[Logical(t, r, s)].constructed, k);
    case AcquireUnconstructed(r, s) => OccupyKeepsStale(t, r, s, t.slots[Logical(t, r, s)].constructed, k);
    case _ => HolderStepKeepsStale(t, a, k);
  }

  /** The resource has issued fewer generations than its counter can hold. */
  predicate NotWrapped(t: Table, r: nat) {
    Layout(t) && r < |t.issued| && t.issued[r] < GENERATIONS - 1
  }

  lemma NextKeepsStale(tables: seq<Table>, actions: seq<Action>, k: Ticket, m: nat)
    requires IsRun(tables, actions) && m < |actions|
    requires NotWrapped(tables[m], k.resource) && Stale(tables[m], k)
    ensures Layout(tables[m + 1]) && Stale(tables[m + 1], k)
  {
    RunKeepsInvariant(tables, actions, m);
    StepKeepsStale(tables[m], actions[m], k);
  }

  lemma {:induction false} StaleForever(tables: seq<Table>, actions: seq<Action>, k: Ticket, i: nat, n: nat)
    requires IsRun(tables, actions) && i <= n < |tables|
    requires Layout(tables[i]) && Stale(tables[i], k)
    requires forall m | i <= m < n :: NotWrapped(tables[m], k.resource)
    ensures Layout(tables[n]) && Stale(tables[n], k)
    decreases n
  {
    if i < n {
      StaleForever(tables, actions, k, i, n - 1);
      NextKeepsStale(tables, actions, k, n - 1);
    }
  }

  /**
   * In every run, a ticket whose release has ended never passes the check again
   * while the generation counter of its resource has not wrapped around.
   */
  lemma ReleasedTicketNeverValidates(tables: seq<Table>, actions: seq<Action>, k: Ticket, i: nat, n: nat)
    requires IsRun(tables, actions) && i < n < |tables| && actions[i] == EndRelease(k)
    requires forall m | i <= m < n :: NotWrapped(tables[m], k.resource)
    ensures Layout(tables[n]) && !Validates(tables[n], k)
  {
    RunKeepsInvariant(tables, actions, i);
    assert Enabled(tables[i], actions[i]) && tables[i + 1] == Apply(tables[i], actions[i]);
    assert Stale(tables[i + 1], k);
    StaleForever(tables, actions, k, i + 1, n);
  }

  /** In every run a physical slot is held by at most one logical slot. */
  lemma PhysicalSlotsAreExclusive(tables: seq<Table>, actions: seq<Action>, i: nat, r: nat, s: nat, q: nat, u: nat)
    requires IsRun(tables, actions) && i < |tables|
    requires Layout(tables[i])
    requires r < |tables[i].resources| && s < tables[i].resources[r].slotCount
    requires q < |tables[i].resources| && u < tables[i].resources[q].slotCount && (r != q || s != u)
    requires tables[i].physicalIds[Logical(tables[i], r, s)] == tables[i].physicalIds[Logical(tables[i], q, u)]
    ensures !(tables[i].slots[Logical(tables[i], r, s)].occupied && tables[i].slots[Logical(tables[i], q, u)].occupied)
  {
    var t := tables[i];
    RunKeepsInvariant(tables, actions, i);
    LogicalIsInjective(t, r, s, q, u);
    var x, y := Logical(t, r, s), Logical(t, q, u);
    if t.slots[x].occupied && t.slots[y].occupied {
      var cleared := t.slots[x := t.slots[x].(occupied := false)];
      OccupiedAtUpdate(t.slots, t.physicalIds, t.physicalIds[x], x, cleared[x]);
      OccupiedAtPositive(cleared, t.physicalIds, t.physicalIds[x], y);
    }
  }

  /** No slot that shares the physical slot of x is held. */
  predicate Unshared(t: Table, x: nat)
    requires Layout(t) && x < |t.slots|
  {
    forall y | 0 <= y < |t.slots| && t.physicalIds[y] == t.physicalIds[x] :: !t.slots[y].occupied
  }

  lemma {:induction false} OccupiedAtZero(slots: seq<Slot>, physicalIds: seq<nat>, p: nat)
    requires |slots| == |physicalIds| && forall x | 0 <= x < |slots| && physicalIds[x] == p :: !slots[x].occupied
    ensures OccupiedAt(slots, physicalIds, p) == 0
  {
    if slots != [] {
      var n := |slots| - 1;
      OccupiedAtZero(slots[..n], physicalIds[..n], p);
    }
  }

  lemma OccupiedMeansShared(t: Table, x: nat)
    requires Layout(t) && OccupancyInvariant(t) && x < |t.slots|
    ensures PhysicallyOccupied(t, x) <==> !Unshared(t, x)
  {
    if Unshared(t, x) {
      OccupiedAtZero(t.slots, t.physicalIds, t.physicalIds[x]);
    } else {
      var y: nat :| y < |t.slots| && t.physicalIds[y] == t.physicalIds[x] && t.slots[y].occupied;
      OccupiedAtPositive(t.slots, t.physicalIds, t.physicalIds[x], y);
    }
  }

  /**
   * In every run a slot can be acquired exactly when no slot on the same physical slot
   * is held and, if its resource is preconstructed, it is constructed.
   */
  lemma AcquirableExactly(tables: seq<Table>, actions: seq<Action>, i: nat, r: nat, s: nat)
    requires IsRun(tables, actions) && i < |tables| && Layout(tables[i])
    requires r < |tables[i].resources| && s < tables[i].resources[r].slotCount
    ensures var t := tables[i];
      var x := Logical(t, r, s);
      Enabled(t, AcquirePreferred(r, s)) <==> Unshared(t, x) && (t.resources[r].preconstructed ==> t.slots[x].constructed)
  {
    RunKeepsInvariant(tables, actions, i);
    OccupiedMeansShared(tables[i], Logical(tables[i], r, s));
  }

  /** Whether a resource has a slot to acquire at all: some slot is acquirable, and the gate of a preconstructed resource is open. */
  lemma SomeSlotAcquirableExactly(t: Table, r: nat)
    requires Layout(t) && r < |t.resources|
    ensures (exists s: nat :: Enabled(t, AcquireAny(r, s))) <==>
      && (exists s: nat :: s < t.resources[r].slotCount && Enabled(t, AcquirePreferred(r, s)))
      && (t.resources[r].preconstructed ==> forall s: nat | s < t.resources[r].slotCount :: t.slots[Logical(t, r, s)].constructed)
    ensures forall s: nat, e: nat | Enabled(t, AcquireAny(r, s)) && e < t.resources[r].slotCount && Enabled(t, AcquirePreferred(r, e)) :: s <= e
  {
    if s: nat :| Enabled(t, AcquireAny(r, s)) {
      assert s < t.resources[r].slotCount && Enabled(t, AcquirePreferred(r, s));
    }
    if AllConstructed(t, r) || !t.resources[r].preconstructed {
      if s: nat :| s < t.resources[r].slotCount && Enabled(t, AcquirePreferred(r, s)) {
        var lowest := LowestAvailable(t, r, s);
        assert Enabled(t, AcquireAny(r, lowest));
      }
    }
  }

  lemma {:induction false} LowestAvailable(t: Table, r: nat, s: nat) returns (lowest: nat)
    requires Layout(t) && r < |t.resources| && s < t.resources[r].slotCount && Available(t, r, s)
    ensures lowest < t.resources[r].slotCount && Available(t, r, lowest)
    ensures forall earlier | 0 <= earlier < lowest :: !Available(t, r, earlier)
    decreases s
  {
    if earlier: nat :| earlier < s && Available(t, r, earlier) {
      lowest := LowestAvailable(t, r, earlier);
    } else {
      lowest := s;
    }
  }

  lemma EndReleaseFrees(t: Table, k: Ticket)
    requires Invariant(t) && Enabled(t, EndRelease(k))
    ensures Layout(ReleaseEnded(t, k)) && InTable(ReleaseEnded(t, k), k)
    ensures Available(ReleaseEnded(t, k), k.resource, k.slot) <==>
      (t.resources[k.resource].preconstructed ==> t.slots[Logical(t, k.resource, k.slot)].constructed)
  {
  }

  lemma NewTicketValidates(t: Table, r: nat, s: nat)
    requires Invariant(t) && Enabled(t, AcquirePreferred(r, s))
    ensures Layout(Acquired(t, r, s)) && Validates(Acquired(t, r, s), TicketFor(t, r, s))
  {
    LogicalIsInjective(t, r, s, r, s);
  }

  /** Whoever has acquired a slot can construct an object in it, unless the resource is preconstructed, and release it in any case. */
  lemma NewHolderGoesOn(t: Table, r: nat, s: nat)
    requires Invariant(t) && Enabled(t, AcquirePreferred(r, s))
    ensures var k, after := TicketFor(t, r, s), Acquired(t, r, s);
      && Layout(after)
      && (Enabled(after, MarkConstructed(k)) <==> !t.resources[r].preconstructed)
      && Enabled(after, BeginRelease(k))
  {
    FreeIsNotReleasing(t, r, s, t.resources[r].nextGeneration);
    NewTicketValidates(t, r, s);
  }

  /** In every run a released slot of a resource that is not preconstructed can be acquired at once, with a ticket that validates. */
  lemma ReleasedSlotIsAcquirable(tables: seq<Table>, actions: seq<Action>, i: nat, k: Ticket)
    requires IsRun(tables, actions) && i < |actions| && actions[i] == EndRelease(k)
    requires k.resource < |tables[i].resources| && !tables[i].resources[k.resource].preconstructed
    ensures var t := tables[i + 1];
      && Layout(t) && Enabled(t, AcquirePreferred(k.resource, k.slot))
      && var after := Apply(t, AcquirePreferred(k.resource, k.slot));
      Layout(after) && Validates(after, TicketFor(t, k.resource, k.slot))
  {
    RunKeepsInvariant(tables, actions, i);
    RunKeepsInvariant(tables, actions, i + 1);
    EndReleaseFrees(tables[i], k);
    NewTicketValidates(tables[i + 1], k.resource, k.slot);
  }

  /** Tearing the runtime down destroys every object that is still constructed. */
  function TornDown(t: Table, r: nat, s: nat): nat
    requires Layout(t) && r < |t.resources| && s < t.resources[r].slotCount
  {
    t.destructions[Logical(t, r, s)] + Bit(t.slots[Logical(t, r, s)].constructed && t.resources[r].hasDestroy)
  }

  /**
   * In every run no object is destroyed twice, and once no release is between its
   * phases, tearing down the runtime completes exactly one destruction for every
   * construction.
   */
  lemma ObjectsAreDestroyedOnce(tables: seq<Table>, actions: seq<Action>, i: nat, r: nat, s: nat)
    requires IsRun(tables, actions) && i < |tables| && Layout(tables[i])
    requires r < |tables[i].resources| && s < tables[i].resources[r].slotCount && tables[i].resources[r].hasDestroy
    ensures tables[i].destructions[Logical(tables[i], r, s)] <= tables[i].constructions[Logical(tables[i], r, s)]
    ensures tables[i].releasing == map[] ==> TornDown(tables[i], r, s) == tables[i].constructions[Logical(tables[i], r, s)]
  {
    RunKeepsInvariant(tables, actions, i);
    assert ObjectsAccounted(tables[i], r, s);
  }

  predicate GateOpen(t: Table, r: nat)
    requires Layout(t)
  {
    r < |t.resources| && t.resources[r].preconstructed && AllConstructed(t, r)
  }

  lemma OccupyKeepsGateOpen(t: Table, q: nat, u: nat, construct: bool, r: nat)
    requires Layout(t) && q < |t.resources| && u < t.resources[q].slotCount && GateOpen(t, r)
    requires t.resources[q].preconstructed ==> construct == t.slots[Logical(t, q, u)].constructed
    ensures Layout(Occupy(t, q, u, construct)) && GateOpen(Occupy(t, q, u, construct), r)
  {
    var t' := Occupy(t, q, u, construct);
    forall s: nat | s < t'.resources[r].slotCount
      ensures t'.slots[Logical(t', r, s)].constructed
    {
      LogicalIsInjective(t, r, s, q, u);
      assert t.slots[Logical(t, r, s)].constructed;
    }
  }

  lemma HolderStepKeepsConstructed(t: Table, a: Action)
    requires Layout(t) && Enabled(t, a) && IsHolderStep(a) && t.resources[a.ticket.resource].preconstructed
    ensures var x := Logical(t, a.ticket.resource, a.ticket.slot);
      x < |t.slots| && x < |Apply(t, a).slots| && (t.slots[x].constructed ==> Apply(t, a).slots[x].constructed)
  {
  }

  lemma HolderStepKeepsGateOpen(t: Table, a: Action, r: nat)
    requires Layout(t) && Enabled(t, a) && IsHolderStep(a) && GateOpen(t, r)
    ensures Layout(Apply(t, a)) && GateOpen(Apply(t, a), r)
  {
    var t' := Apply(t, a);
    var k := a.ticket;
    HolderStepTouchesOnly(t, a);
    if k.resource == r {
      HolderStepKeepsConstructed(t, a);
    }
    forall s: nat | s < t'.resources[r].slotCount
      ensures t'.slots[Logical(t', r, s)].constructed
    {
      LogicalIsInjective(t, r, s, k.resource, k.slot);
      assert t.slots[Logical(t, r, s)].constructed;
    }
  }

  /** Once all slots of a preconstructed resource are constructed, they stay so. */
  lemma StepKeepsGateOpen(t: Table, a: Action, r: nat)
    requires Layout(t) && Enabled(t, a) && GateOpen(t, r)
    ensures Layout(Apply(t, a)) && GateOpen(Apply(t, a), r)
  {
    match a
    case AcquireAny(q, u) => OccupyKeepsGateOpen(t, q, u, t.resources[q].preconstructed && t.slots[Logical(t, q, u)].constructed, r);
    case AcquirePreferred(q, u) => OccupyKeepsGateOpen(t, q, u, t.resources[q].preconstructed && t.slots[Logical(t, q, u)].constructed, r);
    case AcquireUnconstructed(q, u) => OccupyKeepsGateOpen(t, q, u, t.slots[Logical(t, q, u)].constructed, r);
    case _ => HolderStepKeepsGateOpen(t, a, r);
  }

  lemma NextKeepsGateOpen(tables: seq<Table>, actions: seq<Action>, r: nat, m: nat, next: nat)
    requires IsRun(tables, actions) && m < |actions| && next == m + 1
    requires Layout(tables[m]) && GateOpen(tables[m], r)
    ensures Layout(tables[next]) && GateOpen(tables[next], r)
  {
    StepKeepsGateOpen(tables[m], actions[m], r);
  }

  lemma {:induction false} GateStaysOpen(tables: seq<Table>, actions: seq<Action>, r: nat, i: nat, n: nat)
    requires IsRun(tables, actions) && i <= n < |tables|
    requires Layout(tables[i]) && GateOpen(tables[i], r)
    ensures Layout(tables[n]) && GateOpen(tables[n], r)
    decreases n
  {
    if i < n {
      GateStaysOpen(tables, actions, r, i, n - 1);
      NextKeepsGateOpen(tables, actions, r, n - 1, n);
    }
  }
}
