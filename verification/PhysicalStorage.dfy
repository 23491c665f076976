/**
 * Which physical slot a resource takes next, and the jobs that whoever takes a
 * physical slot next has to wait for: its frontier, kept in one array with a
 * fixed capacity per slot.
 */
module PhysicalStorage {
  import opened Wrappers

  type JobId = nat

  /** The frontiers of all physical slots. */
  type Frontiers = seq<seq<JobId>>

  function Replaced(f: Frontiers, p: nat, job: JobId): Frontiers
    requires p < |f|
  {
    f[p := [job]]
  }

  function Cleared(f: Frontiers, p: nat): Frontiers
    requires p < |f|
  {
    f[p := []]
  }

  /** A frontier is a set: a job that is in it already is not added again. */
  function Appended(f: Frontiers, p: nat, job: JobId): Frontiers
    requires p < |f|
  {
    if job in f[p] then f else f[p := f[p] + [job]]
  }

  predicate Offsets(s: seq<nat>) {
    |s| > 0 && forall i, j | 0 <= i <= j < |s| :: s[i] <= s[j]
  }

  class PhysicalStorageState {
    const resourceAcquisitionCounts: array<nat>
    const frontierCounts: array<nat>
    const frontierJobs: array<JobId>
    const resourceSlotOffsets: seq<nat>
    const physicalSlotIds: seq<nat>
    const frontierOffsets: seq<nat>

    /** The planned tables: every physical slot has room for at least one job. */
    predicate Planned() {
      && Offsets(resourceSlotOffsets) && Offsets(frontierOffsets)
      && resourceAcquisitionCounts.Length == |resourceSlotOffsets| - 1
      && frontierCounts.Length == |frontierOffsets| - 1
      && frontierJobs.Length == frontierOffsets[|frontierOffsets| - 1]
      && resourceAcquisitionCounts != frontierCounts && resourceAcquisitionCounts != frontierJobs && frontierCounts != frontierJobs
      && (forall p: nat | p < frontierCounts.Length :: frontierOffsets[p] < frontierOffsets[p + 1])
      && (forall i | 0 <= i < |physicalSlotIds| :: physicalSlotIds[i] < frontierCounts.Length)
      && resourceSlotOffsets[|resourceSlotOffsets| - 1] == |physicalSlotIds|
    }

    ghost predicate Valid()
      reads this, frontierCounts
    {
      && Planned()
      && forall p: nat | p < frontierCounts.Length :: frontierOffsets[p] + frontierCounts[p] <= frontierOffsets[p + 1]
    }

    lemma OffsetsInRange(p: nat)
      requires Planned() && p < frontierCounts.Length
      ensures frontierOffsets[p] < frontierOffsets[p + 1] <= frontierJobs.Length
    {
    }

    ghost function FrontierOf(p: nat): seq<JobId>
      requires Valid() && p < frontierCounts.Length
      reads this, frontierCounts, frontierJobs
    {
      OffsetsInRange(p);
      frontierJobs[frontierOffsets[p]..frontierOffsets[p] + frontierCounts[p]]
    }

    ghost function View(): Frontiers
      requires Valid()
      reads this, frontierCounts, frontierJobs
    {
      seq(frontierCounts.Length, p requires 0 <= p < frontierCounts.Length && Valid() reads this, frontierCounts, frontierJobs => FrontierOf(p))
    }

    function Capacity(p: nat): nat
      requires Planned() && p < frontierCounts.Length
    {
      frontierOffsets[p + 1] - frontierOffsets[p]
    }

    /** The slot the resource takes next, round robin; none for a resource without slots. */
    method Acquire(r: nat) returns (slot: Option<nat>)
      requires Valid() && r < resourceAcquisitionCounts.Length
      ensures slot.None? <==> resourceSlotOffsets[r] == resourceSlotOffsets[r + 1]
      ensures slot.Some? ==>
        var n := resourceSlotOffsets[r + 1] - resourceSlotOffsets[r];
        slot.value == resourceAcquisitionCounts[r] % n
    {
      var first := resourceSlotOffsets[r];
      var end := resourceSlotOffsets[r + 1];
      if first == end {
        return None;
      }
      return Some(resourceAcquisitionCounts[r] % (end - first));
    }

    method PhysicalSlot(r: nat, slot: nat) returns (p: Result<nat>)
      requires Valid() && r < resourceAcquisitionCounts.Length
      ensures p.Success? <==> slot < resourceSlotOffsets[r + 1] - resourceSlotOffsets[r]
      ensures p.Success? ==> p.value < frontierCounts.Length && p.value == physicalSlotIds[resourceSlotOffsets[r] + slot]
    {
      var first := resourceSlotOffsets[r];
      var end := resourceSlotOffsets[r + 1];
      if slot >= end - first {
        return Failure("physical storage slot is out of range");
      }
      assert end <= |physicalSlotIds|;
      return Success(physicalSlotIds[first + slot]);
    }

    method Frontier(p: nat) returns (jobs: seq<JobId>)
      requires Valid() && p < frontierCounts.Length
      ensures jobs == View()[p]
    {
      OffsetsInRange(p);
      var offset := frontierOffsets[p];
      jobs := frontierJobs[offset..offset + frontierCounts[p]];
    }

    method ClearFrontier(p: nat)
      requires Valid() && p < frontierCounts.Length
      modifies frontierCounts
      ensures Valid() && View() == Cleared(old(View()), p)
    {
      frontierCounts[p] := 0;
      assert View()[p] == [];
      forall q: nat | q < frontierCounts.Length && q != p
        ensures View()[q] == old(View())[q]
      {
      }
    }

    /** Slots do not share positions of the job array. */
    lemma SlotsAreDisjoint(p: nat, q: nat)
      requires Planned() && p < frontierCounts.Length && q < frontierCounts.Length && p != q
      ensures frontierOffsets[p + 1] <= frontierOffsets[q] || frontierOffsets[q + 1] <= frontierOffsets[p]
    {
      if p < q {
        assert frontierOffsets[p + 1] <= frontierOffsets[q];
      } else {
        assert frontierOffsets[q + 1] <= frontierOffsets[p];
      }
    }

    method ReplaceFrontier(p: nat, job: JobId)
      requires Valid() && p < frontierCounts.Length
      modifies frontierCounts, frontierJobs
      ensures Valid() && View() == Replaced(old(View()), p, job)
    {
      OffsetsInRange(p);
      frontierJobs[frontierOffsets[p]] := job;
      frontierCounts[p] := 1;
      forall q: nat | q < frontierCounts.Length && q != p
        ensures View()[q] == old(View())[q]
      {
        SlotsAreDisjoint(p, q);
        OffsetsInRange(q);
      }
      assert View()[p] == [job];
    }

    /** Whether the job is in the frontier already. */
    method Contains(p: nat, job: JobId) returns (found: bool)
      requires Valid() && p < frontierCounts.Length
      ensures found <==> job in View()[p]
    {
      OffsetsInRange(p);
      var offset := frontierOffsets[p];
      for index := 0 to frontierCounts[p]
        invariant job !in frontierJobs[offset..offset + index]
      {
        assert frontierJobs[offset..offset + index + 1] == frontierJobs[offset..offset + index] + [frontierJobs[offset + index]];
        if frontierJobs[offset + index] == job {
          assert View()[p][index] == job;
          return true;
        }
      }
      assert View()[p] == frontierJobs[offset..offset + frontierCounts[p]];
      return false;
    }

    method AddJob(p: nat, job: JobId)
      requires Valid() && p < frontierCounts.Length && |View()[p]| < Capacity(p)
      modifies frontierCounts, frontierJobs
      ensures Valid() && View() == old(View())[p := old(View())[p] + [job]]
    {
      OffsetsInRange(p);
      var count := frontierCounts[p];
      frontierJobs[frontierOffsets[p] + count] := job;
      frontierCounts[p] := count + 1;
      forall q: nat | q < frontierCounts.Length && q != p
        ensures View()[q] == old(View())[q]
      {
        SlotsAreDisjoint(p, q);
        OffsetsInRange(q);
      }
      assert View()[p] == old(View())[p] + [job];
    }

    /** Adds a job to the frontier unless it is there; fails only when a new job finds no room. */
    method AppendFrontier(p: nat, job: JobId) returns (r: Result<()>)
      requires Valid() && p < frontierCounts.Length
      modifies frontierCounts, frontierJobs
      ensures Valid()
      ensures r.Success? <==> job in old(View())[p] || |old(View())[p]| < Capacity(p)
      ensures View() == if r.Success? then Appended(old(View()), p, job) else old(View())
    {
      OffsetsInRange(p);
      var found := Contains(p, job);
      if found {
        return Success(());
      }
      if frontierOffsets[p] + frontierCounts[p] >= frontierOffsets[p + 1] {
        return Failure("physical storage frontier is exhausted");
      }
      AddJob(p, job);
      return Success(());
    }

    method Advance(r: nat)
      requires Valid() && r < resourceAcquisitionCounts.Length
      modifies resourceAcquisitionCounts
      ensures Valid() && View() == old(View())
      ensures resourceAcquisitionCounts[..] == old(resourceAcquisitionCounts[..])[r := old(resourceAcquisitionCounts[r]) + 1]
    {
      resourceAcquisitionCounts[r] := resourceAcquisitionCounts[r] + 1;
    }
  }
}
