/** Recording operations: the predecessors of an operation are the earlier operations it conflicts with. */
module OpStream {
  import opened ProgramData

  datatype Operation = Operation(accesses: seq<Access>, predecessors: seq<nat>)

  predicate AccessesConflict(earlier: Access, later: Access) {
    earlier.resource == later.resource && (earlier.mode != Read || later.mode != Read)
  }

  predicate Conflict(earlier: seq<Access>, later: seq<Access>) {
    exists a, b | a in earlier && b in later :: AccessesConflict(a, b)
  }

  /** Every operation lists exactly the earlier operations it conflicts with, in ascending order. */
  ghost predicate Recorded(ops: seq<Operation>) {
    forall i: nat | i < |ops| ::
      && (forall a, b | 0 <= a < b < |ops[i].predecessors| :: ops[i].predecessors[a] < ops[i].predecessors[b])
      && (forall j: nat :: j in ops[i].predecessors <==> j < i && Conflict(ops[j].accesses, ops[i].accesses))
  }

  /** The check that an operation accesses each resource once. */
  method ValidateUniqueAccesses(accesses: seq<Access>) returns (valid: bool)
    ensures valid <==> forall i, j | 0 <= i < j < |accesses| :: accesses[i].resource != accesses[j].resource
  {
    for left := 0 to |accesses|
      invariant forall i, j | 0 <= i < left && i < j < |accesses| :: accesses[i].resource != accesses[j].resource
    {
      for right := left + 1 to |accesses|
        invariant forall j | left < j < right :: accesses[left].resource != accesses[j].resource
      {
        if accesses[left].resource == accesses[right].resource {
          return false;
        }
      }
    }
    return true;
  }

  /** The check of a recorded predecessor list: below the operation, and ascending. */
  method ValidatePredecessors(index: nat, predecessors: seq<nat>) returns (valid: bool)
    ensures valid <==>
      && (forall i | 0 <= i < |predecessors| :: predecessors[i] < index)
      && (forall i | 0 < i < |predecessors| :: predecessors[i - 1] < predecessors[i])
  {
    var previous := 0;
    var first := true;
    for i := 0 to |predecessors|
      invariant first <==> i == 0
      invariant i > 0 ==> previous == predecessors[i - 1]
      invariant forall k | 0 <= k < i :: predecessors[k] < index
      invariant forall k | 0 < k < i :: predecessors[k - 1] < predecessors[k]
    {
      var predecessor := predecessors[i];
      if predecessor >= index || (!first && predecessor <= previous) {
        return false;
      }
      previous := predecessor;
      first := false;
    }
    return true;
  }

  class Stream {
    var ops: seq<Operation>

    constructor ()
      ensures ops == [] && Recorded(ops)
    {
      ops := [];
    }

    /** Records an operation. Its predecessors are the conflicting operations recorded before it. */
    method Append(operation: Operation) returns (index: nat)
      requires Recorded(ops) && operation.predecessors == []
      modifies this
      ensures index == |old(ops)| && |ops| == index + 1
      ensures ops[..index] == old(ops)
      ensures ops[index].accesses == operation.accesses
      ensures Recorded(ops)
    {
      var predecessors: seq<nat> := [];
      index := 0;
      while index < |ops|
        invariant index <= |ops|
        invariant forall a, b | 0 <= a < b < |predecessors| :: predecessors[a] < predecessors[b]
        invariant forall j: nat :: j in predecessors <==> j < index && Conflict(ops[j].accesses, operation.accesses)
      {
        if Conflict(ops[index].accesses, operation.accesses) {
          assert forall a | 0 <= a < |predecessors| :: predecessors[a] in predecessors;
          predecessors := predecessors + [index];
        }
        index := index + 1;
      }
      index := |ops|;
      ops := ops + [operation.(predecessors := predecessors)];
    }
  }

  /** Whatever is recorded passes the check of its predecessor lists. */
  lemma RecordedPassesValidation(ops: seq<Operation>, i: nat)
    requires Recorded(ops) && i < |ops|
    ensures var predecessors := ops[i].predecessors;
      && (forall a | 0 <= a < |predecessors| :: predecessors[a] < i)
      && (forall a | 0 < a < |predecessors| :: predecessors[a - 1] < predecessors[a])
  {
    assert forall a | 0 <= a < |ops[i].predecessors| :: ops[i].predecessors[a] in ops[i].predecessors;
  }
}
