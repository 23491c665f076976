/**
 * The slot operations of the program runtime as it performs them: loops over the
 * slots of a resource and in-place updates of the tables. Every method is tied to
 * a step of the slot table, so what holds of every run of the table holds here.
 */
module ProgramRuntime {
  import opened SlotTable
  import opened Wrappers

  class ProgramRuntime {
    var resources: seq<Resource>
    var slots: seq<Slot>
    var slotPhysicalIds: seq<nat>
    var physicalOccupancy: seq<nat>

    ghost var releasing: map<Ticket, bool>
    ghost var issued: seq<nat>
    ghost var constructions: seq<nat>
    ghost var destructions: seq<nat>

    ghost function View(): Table
      reads this
    {
      Table(resources, slots, slotPhysicalIds, physicalOccupancy, releasing, issued, constructions, destructions)
    }

    ghost predicate Valid()
      reads this
    {
      Invariant(View())
    }

    ghost predicate IsResource(r: nat)
      reads this
    {
      Valid() && r < |resources|
    }

    method PhysicalRangeOccupied(r: nat, slot: nat) returns (taken: bool)
      requires IsResource(r) && slot < resources[r].slotCount
      ensures taken <==> PhysicallyOccupied(View(), Logical(View(), r, slot))
    {
      var logicalSlot := resources[r].firstSlot + slot;
      taken := physicalOccupancy[slotPhysicalIds[logicalSlot]] != 0;
    }

    /** Takes the slot: counts its physical slot and stamps it with the next generation. */
    method Claim(r: nat, slot: nat) returns (ticket: Ticket)
      requires IsResource(r) && slot < resources[r].slotCount
      requires !slots[Logical(View(), r, slot)].occupied && !PhysicallyOccupied(View(), Logical(View(), r, slot))
      modifies this
      ensures View() == Occupy(old(View()), r, slot, old(slots[Logical(View(), r, slot)].constructed))
      ensures ticket == TicketFor(old(View()), r, slot)
      ensures Valid()
    {
      OccupyKeepsInvariant(View(), r, slot, slots[Logical(View(), r, slot)].constructed);
      var x := resources[r].firstSlot + slot;
      var p := slotPhysicalIds[x];
      ticket := Ticket(r, slot, resources[r].nextGeneration);
      slots := slots[x := slots[x].(occupied := true, generation := resources[r].nextGeneration)];
      physicalOccupancy := physicalOccupancy[p := physicalOccupancy[p] + 1];
      resources := resources[r := resources[r].(nextGeneration := Successor(resources[r].nextGeneration))];
      issued := issued[r := issued[r] + 1];
    }

    method ClearConstructed(r: nat, slot: nat)
      requires IsResource(r) && slot < resources[r].slotCount
      requires !resources[r].preconstructed ==> !slots[Logical(View(), r, slot)].constructed
      modifies this
      ensures View() == old(View())
    {
      if !resources[r].preconstructed {
        var x := resources[r].firstSlot + slot;
        slots := slots[x := slots[x].(constructed := false)];
      }
    }

    /**
     * Acquires the lowest slot available, or nothing if a slot of a preconstructed
     * resource still waits for its construction or no slot is available.
     */
    method TryAcquire(r: nat) returns (ticket: Option<Ticket>)
      requires IsResource(r)
      modifies this
      ensures Valid()
      ensures ticket.Some? ==>
        var a := AcquireAny(r, ticket.value.slot);
        Enabled(old(View()), a) && View() == Apply(old(View()), a) && ticket.value == TicketFor(old(View()), r, ticket.value.slot)
      ensures ticket.None? ==>
        && View() == old(View())
        && forall s: nat | s < resources[r].slotCount :: !Enabled(View(), AcquireAny(r, s))
    {
      if resources[r].preconstructed {
        var slot := 0;
        while slot < resources[r].slotCount
          invariant slot <= resources[r].slotCount
          invariant forall s: nat | s < slot :: slots[Logical(View(), r, s)].constructed
        {
          if !slots[resources[r].firstSlot + slot].constructed {
            assert !AllConstructed(View(), r) by {
              assert !slots[Logical(View(), r, slot)].constructed;
            }
            return None;
          }
          slot := slot + 1;
        }
      }
      var slot := 0;
      while slot < resources[r].slotCount
        invariant View() == old(View()) && slot <= resources[r].slotCount
        invariant forall s: nat | s < slot :: !Available(View(), r, s)
      {
        var x := resources[r].firstSlot + slot;
        var taken := PhysicalRangeOccupied(r, slot);
        if !(slots[x].occupied || (resources[r].preconstructed && !slots[x].constructed) || taken) {
          assert Available(View(), r, slot);
          assert ObjectsAccounted(View(), r, slot);
          ClearConstructed(r, slot);
          var claimed := Claim(r, slot);
          return Some(claimed);
        }
        slot := slot + 1;
      }
      return None;
    }

    /** Acquires the preferred slot or nothing. */
    method TryAcquirePreferred(r: nat, slot: nat) returns (ticket: Option<Ticket>)
      requires IsResource(r) && slot < resources[r].slotCount
      modifies this
      ensures Valid()
      ensures ticket.Some? <==> old(Enabled(View(), AcquirePreferred(r, slot)))
      ensures ticket.Some? ==>
        View() == Apply(old(View()), AcquirePreferred(r, slot)) && ticket.value == TicketFor(old(View()), r, slot)
      ensures ticket.None? ==> View() == old(View())
    {
      var x := resources[r].firstSlot + slot;
      var taken := PhysicalRangeOccupied(r, slot);
      if slots[x].occupied || (resources[r].preconstructed && !slots[x].constructed) || taken {
        return None;
      }
      assert ObjectsAccounted(View(), r, slot);
      ClearConstructed(r, slot);
      var claimed := Claim(r, slot);
      return Some(claimed);
    }

    /** One pass of the wait loop that acquires the lowest unconstructed slot; nothing means it waits. */
    method AcquireUnconstructed(r: nat) returns (ticket: Option<Ticket>)
      requires IsResource(r) && resources[r].preconstructed
      modifies this
      ensures Valid()
      ensures ticket.Some? ==>
        Enabled(old(View()), SlotTable.AcquireUnconstructed(r, ticket.value.slot))
        && View() == AcquiredUnconstructed(old(View()), r, ticket.value.slot) && ticket.value == TicketFor(old(View()), r, ticket.value.slot)
      ensures ticket.None? ==>
        && View() == old(View())
        && forall s: nat | s < resources[r].slotCount :: !AvailableUnconstructed(View(), r, s)
    {
      var slot := 0;
      while slot < resources[r].slotCount
        invariant View() == old(View()) && slot <= resources[r].slotCount
        invariant forall s: nat | s < slot :: !AvailableUnconstructed(View(), r, s)
      {
        var x := resources[r].firstSlot + slot;
        var taken := PhysicalRangeOccupied(r, slot);
        if !(slots[x].occupied || slots[x].constructed || taken) {
          var claimed := Claim(r, slot);
          return Some(claimed);
        }
        slot := slot + 1;
      }
      return None;
    }

    method MarkConstructed(k: Ticket)
      requires Valid() && Enabled(View(), SlotTable.MarkConstructed(k))
      modifies this
      ensures Valid() && View() == Marked(old(View()), k)
    {
      StepKeepsInvariant(View(), SlotTable.MarkConstructed(k));
      ghost var next := Marked(View(), k);
      var x := resources[k.resource].firstSlot + k.slot;
      slots := slots[x := slots[x].(constructed := true)];
      constructions := constructions[x := constructions[x] + 1];
      assert View() == next;
    }

    /** The first locked phase of a release; `destroy` says whether a destructor runs after it. */
    method BeginRelease(k: Ticket) returns (destroy: bool)
      requires Valid() && Enabled(View(), SlotTable.BeginRelease(k))
      modifies this
      ensures Valid() && View() == ReleaseBegun(old(View()), k)
      ensures destroy == View().releasing[k]
    {
      StepKeepsInvariant(View(), SlotTable.BeginRelease(k));
      ghost var next := ReleaseBegun(View(), k);
      var x := resources[k.resource].firstSlot + k.slot;
      destroy := false;
      if slots[x].constructed && !resources[k.resource].preconstructed {
        destroy := resources[k.resource].hasDestroy;
        slots := slots[x := slots[x].(constructed := false)];
      }
      releasing := releasing[k := destroy];
      assert View() == next;
    }

    /** The destructor call, outside the lock, while the ticket still holds the slot. */
    ghost method RunDestructor(k: Ticket)
      requires Valid() && Enabled(View(), Destroy(k))
      modifies this`releasing, this`destructions
      ensures Valid() && View() == Destroyed(old(View()), k)
    {
      StepKeepsInvariant(View(), Destroy(k));
      var x := Logical(View(), k.resource, k.slot);
      releasing := releasing[k := false];
      destructions := destructions[x := destructions[x] + 1];
    }

    /** The second locked phase of a release: only now is the slot free. */
    method EndRelease(k: Ticket)
      requires Valid() && Validates(View(), k) && k in releasing && !releasing[k]
      modifies this
      ensures Valid() && old(Enabled(View(), SlotTable.EndRelease(k)))
      ensures View() == ReleaseEnded(old(View()), k)
    {
      HolderOccupiesPhysicalSlot(View(), k);
      StepKeepsInvariant(View(), SlotTable.EndRelease(k));
      var x := resources[k.resource].firstSlot + k.slot;
      var p := slotPhysicalIds[x];
      physicalOccupancy := physicalOccupancy[p := physicalOccupancy[p] - 1];
      slots := slots[x := slots[x].(occupied := false)];
      releasing := releasing - {k};
    }

    /** A whole release with no other thread between its phases. */
    method Release(k: Ticket)
      requires Valid() && Enabled(View(), SlotTable.BeginRelease(k))
      modifies this
      ensures Valid()
      ensures old(PhysicallyOccupied(View(), Logical(View(), k.resource, k.slot))) && View() == Released(old(View()), k)
    {
      HolderOccupiesPhysicalSlot(View(), k);
      ReleaseProceeds(View(), k);
      var destroy := BeginRelease(k);
      if destroy {
        RunDestructor(k);
      }
      EndRelease(k);
    }

    /**
     * Constructs every slot of a preconstructed resource in turn, given that nothing
     * of it is constructed or held and its physical slots are free. No round has to
     * wait, and afterwards the resource is fully constructed and entirely free.
     */
    method Preconstruct(r: nat)
      requires Valid() && PreconstructedBelow(View(), r, 0)
      modifies this
      ensures Valid() && r < |resources| && resources[r].preconstructed && resources[r].slotCount == old(resources[r].slotCount)
      ensures AllConstructed(View(), r)
      ensures forall s: nat | s < resources[r].slotCount :: Available(View(), r, s)
      ensures physicalOccupancy == old(physicalOccupancy) && releasing == old(releasing) && slotPhysicalIds == old(slotPhysicalIds)
      ensures issued[r] == old(issued[r]) + resources[r].slotCount
    {
      var slot := 0;
      while slot < resources[r].slotCount
        invariant Valid() && PreconstructedBelow(View(), r, slot) && resources[r].slotCount == old(resources[r].slotCount)
        invariant slot <= resources[r].slotCount && issued[r] == old(issued[r]) + slot
        invariant physicalOccupancy == old(physicalOccupancy) && releasing == old(releasing)
        invariant slotPhysicalIds == old(slotPhysicalIds)
      {
        PreconstructOne(r, slot);
        slot := slot + 1;
      }
      forall s: nat | s < resources[r].slotCount
        ensures slots[Logical(View(), r, s)].constructed
      {
        assert Available(View(), r, s);
      }
    }

    /** One round: acquire, construct, mark and release. */
    method PreconstructOne(r: nat, ghost next: nat)
      requires Valid() && PreconstructedBelow(View(), r, next) && next < resources[r].slotCount
      modifies this
      ensures Valid() && View() == PreconstructedAt(old(View()), r, next) && PreconstructedBelow(View(), r, next + 1)
    {
      ghost var before := View();
      assert AvailableUnconstructed(before, r, next);
      var acquired := AcquireUnconstructed(r);
      var k := acquired.value;
      NextIsLowestUnconstructed(before, r, next, k.slot);
      PreconstructionRound(before, r, next, k);
      MarkConstructed(k);
      Release(k);
      PreconstructedNext(before, r, next);
    }
  }
}
