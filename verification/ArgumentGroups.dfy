/**
 * Recording the arguments of an external operation: single and grouped accesses,
 * some of them null, flattened into one argument list and an element table, and
 * read back through argument spans.
 */
module ArgumentGroups {
  import opened Wrappers
  import opened ProgramData

  datatype Group = Group(offset: nat, count: nat, elementOffset: nat, elementCount: nat)

  /** The recorded operation: `argumentModes` has one entry per argument; an absent element is None. */
  datatype Recording = Recording(
    accesses: seq<Access>,
    argumentModes: seq<AccessMode>,
    elements: seq<Option<nat>>,
    groups: seq<Group>)

  const EMPTY := Recording([], [], [], [])

  // ---------------------------------------------------------------------
  // Appending accesses

  function ElementAppended(b: Recording, resource: Option<nat>, mode: AccessMode): Recording {
    match resource
    case None => b.(elements := b.elements + [None])
    case Some(r) => Recording(b.accesses + [Access(r, mode, Argument)], b.argumentModes + [mode], b.elements + [Some(|b.argumentModes|)], b.groups)
  }

  function ElementsAppended(b: Recording, resources: seq<Option<nat>>, mode: AccessMode): Recording {
    if resources == [] then b
    else ElementAppended(ElementsAppended(b, resources[..|resources| - 1], mode), resources[|resources| - 1], mode)
  }

  /** One group for all resources of a grouped access; a single access is a group of one. */
  function GroupAppended(b: Recording, resources: seq<Option<nat>>, mode: AccessMode): Recording {
    var c := ElementsAppended(b, resources, mode);
    var count := if |c.argumentModes| < |b.argumentModes| then 0 else |c.argumentModes| - |b.argumentModes|;
    c.(groups := b.groups + [Group(|b.argumentModes|, count, |b.elements|, |resources|)])
  }

  function SerializationAppended(b: Recording, resource: Option<nat>): Recording {
    match resource
    case None => b
    case Some(r) => b.(accesses := b.accesses + [Access(r, ReadWrite, Serialization)])
  }

  // ---------------------------------------------------------------------
  // The partition check

  /** How many elements are present. */
  function Present(elements: seq<Option<nat>>): nat {
    if elements == [] then 0
    else Present(elements[..|elements| - 1]) + (if elements[|elements| - 1].Some? then 1 else 0)
  }

  function GroupedArguments(groups: seq<Group>): nat {
    if groups == [] then 0 else GroupedArguments(groups[..|groups| - 1]) + groups[|groups| - 1].count
  }

  function GroupedElements(groups: seq<Group>): nat {
    if groups == [] then 0 else GroupedElements(groups[..|groups| - 1]) + groups[|groups| - 1].elementCount
  }

  /** The present elements are numbered consecutively from `offset`. */
  predicate Numbered(elements: seq<Option<nat>>, offset: nat) {
    forall i | 0 <= i < |elements| && elements[i].Some? :: elements[i].value == offset + Present(elements[..i])
  }

  predicate GroupFits(groups: seq<Group>, k: nat, elements: seq<Option<nat>>, arguments: nat)
    requires k < |groups|
  {
    var g := groups[k];
    && g.offset == GroupedArguments(groups[..k]) && g.offset + g.count <= arguments
    && g.elementOffset == GroupedElements(groups[..k]) && g.elementOffset + g.elementCount <= |elements|
    && var own := elements[g.elementOffset..g.elementOffset + g.elementCount];
       Numbered(own, g.offset) && Present(own) == g.count
  }

  /** The groups divide the arguments and the element table among them, in order and completely. */
  predicate Partition(groups: seq<Group>, elements: seq<Option<nat>>, arguments: nat) {
    && (forall k: nat | k < |groups| :: GroupFits(groups, k, elements, arguments))
    && GroupedArguments(groups) == arguments
    && GroupedElements(groups) == |elements|
  }

  /** The check of an operation's groups; it accepts exactly the partitions. */
  method ValidateGroups(groups: seq<Group>, elements: seq<Option<nat>>, arguments: nat) returns (valid: bool)
    ensures valid <==> Partition(groups, elements, arguments)
  {
    var groupedArguments, groupedElements := 0, 0;
    for k := 0 to |groups|
      invariant groupedArguments == GroupedArguments(groups[..k]) && groupedElements == GroupedElements(groups[..k])
      invariant forall j: nat | j < k :: GroupFits(groups, j, elements, arguments)
    {
      var group := groups[k];
      if group.offset != groupedArguments || groupedArguments > arguments || group.count > arguments - groupedArguments
        || group.elementOffset != groupedElements || groupedElements > |elements| || group.elementCount > |elements| - groupedElements {
        assert !GroupFits(groups, k, elements, arguments);
        return false;
      }
      var fits := ValidateElements(elements[groupedElements..groupedElements + group.elementCount], group.offset, group.count);
      if !fits {
        assert !GroupFits(groups, k, elements, arguments);
        return false;
      }
      assert groups[..k + 1][..k] == groups[..k];
      groupedArguments := groupedArguments + group.count;
      groupedElements := groupedElements + group.elementCount;
    }
    assert groups[..|groups|] == groups;
    return groupedArguments == arguments && groupedElements == |elements|;
  }

  method ValidateElements(own: seq<Option<nat>>, offset: nat, count: nat) returns (valid: bool)
    ensures valid <==> Numbered(own, offset) && Present(own) == count
  {
    var present := 0;
    for i := 0 to |own|
      invariant present == Present(own[..i])
      invariant forall j | 0 <= j < i && own[j].Some? :: own[j].value == offset + Present(own[..j])
    {
      assert own[..i + 1][..i] == own[..i];
      if own[i].Some? {
        if own[i].value != offset + present {
          return false;
        }
        present := present + 1;
      }
    }
    assert own[..|own|] == own;
    return present == count;
  }

  /** Group k takes its arguments and elements up where the group before left off. */
  predicate TakesUp(groups: seq<Group>, k: nat)
    requires k < |groups|
  {
    if k == 0 then groups[k].offset == 0 && groups[k].elementOffset == 0
    else
      && groups[k].offset == groups[k - 1].offset + groups[k - 1].count
      && groups[k].elementOffset == groups[k - 1].elementOffset + groups[k - 1].elementCount
  }

  /** The elements of group k, as far as they are present, name its arguments one after the other. */
  predicate NamesItsArguments(groups: seq<Group>, k: nat, elements: seq<Option<nat>>)
    requires k < |groups|
  {
    var g := groups[k];
    && g.elementOffset + g.elementCount <= |elements|
    && var own := elements[g.elementOffset..g.elementOffset + g.elementCount];
       && (forall i: nat | i < |own| && own[i].Some? :: own[i].value == g.offset + Present(own[..i]))
       && Present(own) == g.count
  }

  /** The last group ends where the arguments and the elements end. */
  predicate EndsWith(groups: seq<Group>, elements: seq<Option<nat>>, arguments: nat) {
    if groups == [] then arguments == 0 && elements == []
    else
      var last := groups[|groups| - 1];
      last.offset + last.count == arguments && last.elementOffset + last.elementCount == |elements|
  }

  lemma {:induction false} TakingUpSums(groups: seq<Group>, n: nat)
    requires n <= |groups| && forall k: nat | k < n :: TakesUp(groups, k)
    ensures n < |groups| && TakesUp(groups, n) ==>
      groups[n].offset == GroupedArguments(groups[..n]) && groups[n].elementOffset == GroupedElements(groups[..n])
    ensures n > 0 ==>
      && groups[n - 1].offset + groups[n - 1].count == GroupedArguments(groups[..n])
      && groups[n - 1].elementOffset + groups[n - 1].elementCount == GroupedElements(groups[..n])
  {
    if n > 0 {
      TakingUpSums(groups, n - 1);
      assert groups[..n][..n - 1] == groups[..n - 1];
    }
  }

  lemma NextSum(groups: seq<Group>, k: nat)
    requires k < |groups|
    ensures GroupedArguments(groups[..k + 1]) == GroupedArguments(groups[..k]) + groups[k].count
    ensures GroupedElements(groups[..k + 1]) == GroupedElements(groups[..k]) + groups[k].elementCount
  {
    assert groups[..k + 1][..k] == groups[..k];
  }

  lemma {:induction false} SumsGrow(groups: seq<Group>, n: nat)
    requires n <= |groups|
    ensures GroupedArguments(groups[..n]) <= GroupedArguments(groups) && GroupedElements(groups[..n]) <= GroupedElements(groups)
    decreases |groups| - n
  {
    if n == |groups| {
      assert groups[..n] == groups;
    } else {
      SumsGrow(groups, n + 1);
      NextSum(groups, n);
    }
  }

  lemma PartitionTakesUp(groups: seq<Group>, elements: seq<Option<nat>>, arguments: nat, k: nat)
    requires Partition(groups, elements, arguments) && k < |groups|
    ensures TakesUp(groups, k) && NamesItsArguments(groups, k, elements)
  {
    assert GroupFits(groups, k, elements, arguments);
    if k > 0 {
      assert GroupFits(groups, k - 1, elements, arguments);
      assert groups[..k][..k - 1] == groups[..k - 1];
    }
  }

  lemma TakingUpFits(groups: seq<Group>, elements: seq<Option<nat>>, arguments: nat, k: nat)
    requires k < |groups| && NamesItsArguments(groups, k, elements)
    requires groups[k].offset == GroupedArguments(groups[..k]) && groups[k].elementOffset == GroupedElements(groups[..k])
    requires GroupedArguments(groups) == arguments && GroupedElements(groups) == |elements|
    ensures GroupFits(groups, k, elements, arguments)
  {
    NextSum(groups, k);
    SumsGrow(groups, k + 1);
  }

  /**
   * The check accepts exactly groups that follow one another from the first argument and
   * element to the last, each naming its own arguments in order.
   */
  lemma PartitionsFollowOneAnother(groups: seq<Group>, elements: seq<Option<nat>>, arguments: nat)
    ensures Partition(groups, elements, arguments) <==>
      && (forall k: nat | k < |groups| :: TakesUp(groups, k) && NamesItsArguments(groups, k, elements))
      && EndsWith(groups, elements, arguments)
  {
    if Partition(groups, elements, arguments) {
      forall k: nat | k < |groups|
        ensures TakesUp(groups, k) && NamesItsArguments(groups, k, elements)
      {
        PartitionTakesUp(groups, elements, arguments, k);
      }
    }
    if forall k: nat | k < |groups| :: TakesUp(groups, k) && NamesItsArguments(groups, k, elements) {
      TakingUpSums(groups, |groups|);
      assert groups[..|groups|] == groups;
      if EndsWith(groups, elements, arguments) {
        forall k: nat | k < |groups|
          ensures GroupFits(groups, k, elements, arguments)
        {
          TakingUpSums(groups, k);
          TakingUpFits(groups, elements, arguments, k);
        }
      }
    }
  }

  // ---------------------------------------------------------------------
  // What is recorded passes the check

  /** What appending elements does: nothing already recorded changes, and the new elements are numbered on. */
  lemma {:induction false} ElementsExtend(b: Recording, resources: seq<Option<nat>>, mode: AccessMode)
    ensures var c := ElementsAppended(b, resources, mode);
      && |c.elements| == |b.elements| + |resources| && c.elements[..|b.elements|] == b.elements
      && b.accesses <= c.accesses && b.argumentModes <= c.argumentModes && c.groups == b.groups
      && |c.accesses| - |b.accesses| == |c.argumentModes| - |b.argumentModes| == Present(c.elements[|b.elements|..])
      && Numbered(c.elements[|b.elements|..], |b.argumentModes|)
  {
    if resources != [] {
      var n := |resources| - 1;
      ElementsExtend(b, resources[..n], mode);
      var d := ElementsAppended(b, resources[..n], mode);
      var c := ElementsAppended(b, resources, mode);
      assert c.elements[|b.elements|..][..n] == d.elements[|b.elements|..];
      NumberedNext(c.elements[|b.elements|..], |b.argumentModes|);
    }
  }

  lemma NumberedNext(elements: seq<Option<nat>>, offset: nat)
    requires elements != []
    requires Numbered(elements[..|elements| - 1], offset)
    requires elements[|elements| - 1].Some? ==> elements[|elements| - 1].value == offset + Present(elements[..|elements| - 1])
    ensures Numbered(elements, offset)
  {
    forall i: nat | i < |elements| && elements[i].Some?
      ensures elements[i].value == offset + Present(elements[..i])
    {
      if i < |elements| - 1 {
        assert elements[..|elements| - 1][..i] == elements[..i];
        assert elements[..|elements| - 1][i] == elements[i];
      }
    }
  }

  /** A group that fits goes on fitting when more is recorded after it. */
  lemma EarlierGroupFits(b: Recording, c: Recording, k: nat)
    requires k < |b.groups| && GroupFits(b.groups, k, b.elements, |b.argumentModes|)
    requires b.groups <= c.groups && b.elements <= c.elements && |b.argumentModes| <= |c.argumentModes|
    ensures GroupFits(c.groups, k, c.elements, |c.argumentModes|)
  {
    var g := b.groups[k];
    assert c.groups[..k] == b.groups[..k];
    assert c.elements[g.elementOffset..g.elementOffset + g.elementCount] == b.elements[g.elementOffset..g.elementOffset + g.elementCount];
  }

  lemma NewGroupFits(b: Recording, resources: seq<Option<nat>>, mode: AccessMode)
    requires GroupedArguments(b.groups) == |b.argumentModes| && GroupedElements(b.groups) == |b.elements|
    ensures var c := GroupAppended(b, resources, mode); GroupFits(c.groups, |b.groups|, c.elements, |c.argumentModes|)
  {
    var c := GroupAppended(b, resources, mode);
    ElementsExtend(b, resources, mode);
    assert c.groups[|b.groups|] == Group(|b.argumentModes|, |c.argumentModes| - |b.argumentModes|, |b.elements|, |resources|);
    assert c.groups[..|b.groups|] == b.groups;
    assert c.elements[|b.elements|..|b.elements| + |resources|] == c.elements[|b.elements|..];
  }

  lemma GroupKeepsPartition(b: Recording, resources: seq<Option<nat>>, mode: AccessMode)
    requires Partition(b.groups, b.elements, |b.argumentModes|)
    ensures var c := GroupAppended(b, resources, mode); Partition(c.groups, c.elements, |c.argumentModes|)
  {
    var c := GroupAppended(b, resources, mode);
    ElementsExtend(b, resources, mode);
    NewGroupFits(b, resources, mode);
    forall k: nat | k < |b.groups|
      ensures GroupFits(c.groups, k, c.elements, |c.argumentModes|)
    {
      EarlierGroupFits(b, c, k);
    }
    assert c.groups[..|b.groups|] == b.groups;
  }

  // ---------------------------------------------------------------------
  // Whole operations

  /** An argument of an external operation: a single access is a group of one. */
  datatype Item = Single(resource: Option<nat>, mode: AccessMode) | Range(resources: seq<Option<nat>>, mode: AccessMode)

  function ResourcesOf(item: Item): seq<Option<nat>> {
    match item
    case Single(resource, _) => [resource]
    case Range(resources, _) => resources
  }

  function Recorded(items: seq<Item>): Recording {
    if items == [] then EMPTY
    else
      var last := items[|items| - 1];
      GroupAppended(Recorded(items[..|items| - 1]), ResourcesOf(last), last.mode)
  }

  function Serialized(b: Recording, resources: seq<Option<nat>>): Recording {
    if resources == [] then b
    else SerializationAppended(Serialized(b, resources[..|resources| - 1]), resources[|resources| - 1])
  }

  /** The recorded operation: arguments first, serialization accesses trailing. */
  function RecordedOperation(items: seq<Item>, serializations: seq<Option<nat>>): Recording {
    Serialized(Recorded(items), serializations)
  }

  /** Element e stands for the resource in the mode: none for a null one, else an argument that accesses it so. */
  predicate Represents(b: Recording, e: Option<nat>, resource: Option<nat>, mode: AccessMode) {
    match resource
    case None => e == None
    case Some(r) =>
      && e.Some? && e.value < |b.argumentModes| && b.argumentModes[e.value] == mode
      && e.value < |b.accesses| && b.accesses[e.value] == Access(r, mode, Argument)
  }

  predicate GroupRepresents(b: Recording, k: nat, resources: seq<Option<nat>>, mode: AccessMode)
    requires k < |b.groups|
  {
    var g := b.groups[k];
    && g.elementCount == |resources| && g.elementOffset + g.elementCount <= |b.elements|
    && forall i: nat | i < |resources| :: Represents(b, b.elements[g.elementOffset + i], resources[i], mode)
  }

  predicate RepresentsAll(b: Recording, items: seq<Item>) {
    |b.groups| == |items| && forall k: nat | k < |items| :: GroupRepresents(b, k, ResourcesOf(items[k]), items[k].mode)
  }

  lemma ExtensionRepresents(b: Recording, c: Recording, k: nat, resources: seq<Option<nat>>, mode: AccessMode)
    requires k < |b.groups| && GroupRepresents(b, k, resources, mode)
    requires b.groups <= c.groups && b.elements <= c.elements && b.argumentModes <= c.argumentModes && b.accesses <= c.accesses
    ensures GroupRepresents(c, k, resources, mode)
  {
    forall i: nat | i < |resources|
      ensures Represents(c, c.elements[c.groups[k].elementOffset + i], resources[i], mode)
    {
      assert Represents(b, b.elements[b.groups[k].elementOffset + i], resources[i], mode);
    }
  }

  /** While only arguments were recorded, an access has the number of its argument. */
  lemma {:induction false} ElementsRepresent(b: Recording, resources: seq<Option<nat>>, mode: AccessMode, i: nat)
    requires |b.accesses| == |b.argumentModes| && i < |resources|
    ensures var c := ElementsAppended(b, resources, mode);
      |b.elements| + i < |c.elements| && Represents(c, c.elements[|b.elements| + i], resources[i], mode)
  {
    var n := |resources| - 1;
    var d := ElementsAppended(b, resources[..n], mode);
    ElementsExtend(b, resources[..n], mode);
    assert ElementsAppended(b, resources, mode) == ElementAppended(d, resources[n], mode);
    if i < n {
      ElementsRepresent(b, resources[..n], mode, i);
      assert d.elements[|b.elements| + i] == ElementAppended(d, resources[n], mode).elements[|b.elements| + i];
      ElementKeepsRepresented(d, resources[n], mode, d.elements[|b.elements| + i], resources[i]);
    } else {
      ElementIsRepresented(d, resources[n], mode);
    }
  }

  lemma ElementIsRepresented(d: Recording, resource: Option<nat>, mode: AccessMode)
    requires |d.accesses| == |d.argumentModes|
    ensures Represents(ElementAppended(d, resource, mode), ElementAppended(d, resource, mode).elements[|d.elements|], resource, mode)
  {
  }

  lemma ElementKeepsRepresented(d: Recording, next: Option<nat>, mode: AccessMode, e: Option<nat>, resource: Option<nat>)
    requires Represents(d, e, resource, mode)
    ensures Represents(ElementAppended(d, next, mode), e, resource, mode)
  {
  }

  lemma NewGroupRepresents(b: Recording, resources: seq<Option<nat>>, mode: AccessMode, c: Recording)
    requires |b.accesses| == |b.argumentModes| && c == GroupAppended(b, resources, mode)
    ensures |c.groups| == |b.groups| + 1 && GroupRepresents(c, |b.groups|, resources, mode)
  {
    ElementsExtend(b, resources, mode);
    assert c.groups[|b.groups|].elementOffset == |b.elements| && c.groups[|b.groups|].elementCount == |resources|;
    forall i: nat | i < |resources|
      ensures Represents(c, c.elements[|b.elements| + i], resources[i], mode)
    {
      ElementsRepresent(b, resources, mode, i);
    }
  }

  lemma GroupKeepsRepresentation(b: Recording, items: seq<Item>, item: Item, c: Recording, next: seq<Item>)
    requires |b.accesses| == |b.argumentModes| && RepresentsAll(b, items)
    requires c == GroupAppended(b, ResourcesOf(item), item.mode) && next == items + [item]
    ensures RepresentsAll(c, next)
  {
    ElementsExtend(b, ResourcesOf(item), item.mode);
    NewGroupRepresents(b, ResourcesOf(item), item.mode, c);
    forall k: nat | k < |items|
      ensures GroupRepresents(c, k, ResourcesOf(items[k]), items[k].mode)
    {
      ExtensionRepresents(b, c, k, ResourcesOf(items[k]), items[k].mode);
    }
  }

  /** The groups are a partition, and stand for the items. */
  ghost predicate RecordsItems(b: Recording, items: seq<Item>) {
    Partition(b.groups, b.elements, |b.argumentModes|) && |b.accesses| == |b.argumentModes| && RepresentsAll(b, items)
  }

  lemma NextItemIsRecorded(b: Recording, items: seq<Item>, item: Item, c: Recording, next: seq<Item>)
    requires RecordsItems(b, items) && c == GroupAppended(b, ResourcesOf(item), item.mode) && next == items + [item]
    ensures RecordsItems(c, next)
  {
    ElementsExtend(b, ResourcesOf(item), item.mode);
    GroupKeepsPartition(b, ResourcesOf(item), item.mode);
    GroupKeepsRepresentation(b, items, item, c, next);
  }

  lemma NothingIsRecorded()
    ensures RecordsItems(EMPTY, [])
  {
  }

  lemma LastItem(items: seq<Item>, before: seq<Item>, last: Item)
    requires items != [] && before == items[..|items| - 1] && last == items[|items| - 1]
    ensures Recorded(items) == GroupAppended(Recorded(before), ResourcesOf(last), last.mode) && items == before + [last]
  {
  }

  lemma {:induction false} RecordedFacts(items: seq<Item>, b: Recording)
    requires b == Recorded(items)
    ensures RecordsItems(b, items)
    decreases |items|
  {
    if items == [] {
      NothingIsRecorded();
    } else {
      var before, last := items[..|items| - 1], items[|items| - 1];
      var a := Recorded(before);
      LastItem(items, before, last);
      RecordedFacts(before, a);
      NextItemIsRecorded(a, before, last, b, items);
    }
  }

  /** The k-th resource that is not null, if there is one, is accessed by the k-th access from `offset` on; there are no others. */
  predicate ListsSerializations(accesses: seq<Access>, offset: nat, resources: seq<Option<nat>>) {
    && |accesses| == offset + Present(resources)
    && forall i: nat | i < |resources| && resources[i].Some? :: SerializesAt(accesses, offset + Present(resources[..i]), resources[i].value)
  }

  predicate SerializesAt(accesses: seq<Access>, a: nat, r: nat) {
    a < |accesses| && accesses[a] == Access(r, ReadWrite, Serialization)
  }

  lemma {:induction false} SerializationTrails(b: Recording, resources: seq<Option<nat>>)
    ensures var c := Serialized(b, resources);
      && c.groups == b.groups && c.elements == b.elements && c.argumentModes == b.argumentModes && b.accesses <= c.accesses
      && ListsSerializations(c.accesses, |b.accesses|, resources)
  {
    if resources != [] {
      var n := |resources| - 1;
      var d := Serialized(b, resources[..n]);
      var c := Serialized(b, resources);
      SerializationTrails(b, resources[..n]);
      forall i: nat | i < |resources| && resources[i].Some?
        ensures SerializesAt(c.accesses, |b.accesses| + Present(resources[..i]), resources[i].value)
      {
        if i < n {
          assert resources[..n][..i] == resources[..i];
          assert SerializesAt(d.accesses, |b.accesses| + Present(resources[..n][..i]), resources[..n][i].value);
        }
      }
    }
  }

  /**
   * Every recorded operation passes the partition check. Its groups stand for its items,
   * resource by resource and in the item's mode, and its other accesses trail its
   * arguments: one for each resource to serialize that is not null, in order.
   */
  lemma RecordedOperationPassesCheck(items: seq<Item>, serializations: seq<Option<nat>>)
    ensures var op := RecordedOperation(items, serializations);
      && Partition(op.groups, op.elements, |op.argumentModes|)
      && RepresentsAll(op, items)
      && ListsSerializations(op.accesses, |op.argumentModes|, serializations)
  {
    var b := Recorded(items);
    var op := RecordedOperation(items, serializations);
    RecordedFacts(items, b);
    SerializationTrails(b, serializations);
    forall k: nat | k < |items|
      ensures GroupRepresents(op, k, ResourcesOf(items[k]), items[k].mode)
    {
      ExtensionRepresents(b, op, k, ResourcesOf(items[k]), items[k].mode);
    }
  }

  // ---------------------------------------------------------------------
  // Reading back

  /** The pointers of the arguments: where the resource of each one is stored. */
  function ArgumentPointers<P>(op: Recording, storage: nat -> P): (pointers: seq<P>)
    requires |op.argumentModes| <= |op.accesses|
    ensures |pointers| == |op.argumentModes|
  {
    seq(|op.argumentModes|, a requires 0 <= a < |op.argumentModes| => storage(op.accesses[a].resource))
  }

  /** A span over one group: the pointers of all arguments, and the group's part of the element table. */
  datatype ArgumentSpan<P> = ArgumentSpan(pointers: seq<P>, elements: seq<Option<nat>>)
  {
    function Size(): nat { |elements| }

    /** The i-th grouped resource, or none if it was absent. */
    function Get(i: nat): Option<P>
      requires i < |elements| && (elements[i].Some? ==> elements[i].value < |pointers|)
    {
      match elements[i]
      case None => None
      case Some(e) => Some(pointers[e])
    }
  }

  function SpanOf<P>(op: Recording, pointers: seq<P>, k: nat): ArgumentSpan<P>
    requires k < |op.groups| && op.groups[k].elementOffset + op.groups[k].elementCount <= |op.elements|
  {
    ArgumentSpan(pointers, op.elements[op.groups[k].elementOffset..op.groups[k].elementOffset + op.groups[k].elementCount])
  }

  /**
   * Reading element i of the span of the k-th argument gives the storage of the
   * i-th resource recorded for it, and nothing exactly when that resource was null.
   */
  lemma SpansReadWhatWasRecorded<P>(items: seq<Item>, serializations: seq<Option<nat>>, storage: nat -> P, k: nat, i: nat)
    requires k < |items| && i < |ResourcesOf(items[k])|
    ensures var op := RecordedOperation(items, serializations);
      && |op.argumentModes| <= |op.accesses| && k < |op.groups|
      && op.groups[k].elementOffset + op.groups[k].elementCount <= |op.elements|
      && var span := SpanOf(op, ArgumentPointers(op, storage), k);
      && span.Size() == |ResourcesOf(items[k])|
      && (span.elements[i].Some? ==> span.elements[i].value < |span.pointers|)
      && span.Get(i) == match ResourcesOf(items[k])[i] case None => None case Some(r) => Some(storage(r))
  {
    var b := Recorded(items);
    var op := RecordedOperation(items, serializations);
    RecordedFacts(items, b);
    SerializationTrails(b, serializations);
    assert GroupRepresents(b, k, ResourcesOf(items[k]), items[k].mode);
    ExtensionRepresents(b, op, k, ResourcesOf(items[k]), items[k].mode);
    RepresentedIsRead(op, storage, k, ResourcesOf(items[k]), items[k].mode, i);
  }

  lemma RepresentedIsRead<P>(op: Recording, storage: nat -> P, k: nat, resources: seq<Option<nat>>, mode: AccessMode, i: nat)
    requires |op.argumentModes| <= |op.accesses| && k < |op.groups| && i < |resources| && GroupRepresents(op, k, resources, mode)
    ensures var span := SpanOf(op, ArgumentPointers(op, storage), k);
      && span.Size() == |resources|
      && (span.elements[i].Some? ==> span.elements[i].value < |span.pointers|)
      && span.Get(i) == match resources[i] case None => None case Some(r) => Some(storage(r))
  {
    assert Represents(op, op.elements[op.groups[k].elementOffset + i], resources[i], mode);
  }

  // ---------------------------------------------------------------------
  // The stream that records

  class Recorder {
    // Which resources have a definition, and which hold a value at this point
    var known: seq<bool>
    var defined: seq<bool>
    // The operation being recorded
    var accesses: seq<Access>
    var argumentModes: seq<AccessMode>
    var elements: seq<Option<nat>>
    var groups: seq<Group>

    constructor (knownResources: seq<bool>, definedResources: seq<bool>)
      ensures View() == EMPTY && known == knownResources && defined == definedResources
    {
      known, defined := knownResources, definedResources;
      accesses, argumentModes, elements, groups := [], [], [], [];
    }

    function View(): Recording
      reads this
    {
      Recording(accesses, argumentModes, elements, groups)
    }

    /** Whether the resource may be accessed in the mode: only a write may meet an undefined value. */
    predicate Accessible(r: nat, mode: AccessMode)
      reads this
    {
      r < |known| && r < |defined| && known[r] && (mode != Write ==> defined[r])
    }

    method Describe(r: nat, mode: AccessMode) returns (d: Result<Access>)
      ensures d.Success? <==> Accessible(r, mode)
      ensures d.Success? <==> r < |known| && r < |defined| && known[r] && (mode == Write || defined[r])
      ensures d.Success? ==> d.value == Access(r, mode, Argument)
    {
      if r >= |known| || r >= |defined| {
        return Failure("resource does not belong to this stream");
      }
      if !known[r] {
        return Failure("resource must be defined before recording accesses");
      }
      if mode != Write && !defined[r] {
        return Failure("cannot read an undefined resource value");
      }
      return Success(Access(r, mode, Argument));
    }

    method AppendSingle(resource: Option<nat>, mode: AccessMode) returns (r: Result<()>)
      modifies this
      ensures known == old(known) && defined == old(defined)
      ensures r.Success? <==> (resource.Some? ==> old(Accessible(resource.value, mode)))
      ensures r.Success? ==> View() == GroupAppended(old(View()), [resource], mode)
    {
      var offset := |argumentModes|;
      var elementOffset := |elements|;
      ghost var before := View();
      assert ElementsAppended(before, [resource][..0], mode) == before;
      if resource.Some? {
        var described := Describe(resource.value, mode);
        if described.Failure? {
          return Failure(described.error);
        }
        accesses := accesses + [described.value];
        argumentModes := argumentModes + [mode];
        elements := elements + [Some(offset)];
        groups := groups + [Group(offset, 1, elementOffset, 1)];
      } else {
        elements := elements + [None];
        groups := groups + [Group(offset, 0, elementOffset, 1)];
      }
      return Success(());
    }

    /** One element of a group; an absent one keeps its place. */
    method AppendElement(resource: Option<nat>, mode: AccessMode) returns (r: Result<()>)
      modifies this
      ensures known == old(known) && defined == old(defined)
      ensures r.Success? <==> (resource.Some? ==> old(Accessible(resource.value, mode)))
      ensures r.Success? ==> View() == ElementAppended(old(View()), resource, mode)
    {
      if resource.Some? {
        var argument := |argumentModes|;
        var described := Describe(resource.value, mode);
        if described.Failure? {
          return Failure(described.error);
        }
        accesses := accesses + [described.value];
        argumentModes := argumentModes + [mode];
        elements := elements + [Some(argument)];
      } else {
        elements := elements + [None];
      }
      return Success(());
    }

    method AppendElements(resources: seq<Option<nat>>, mode: AccessMode) returns (r: Result<()>)
      modifies this
      ensures known == old(known) && defined == old(defined)
      ensures r.Success? <==> forall i | 0 <= i < |resources| && resources[i].Some? :: old(Accessible(resources[i].value, mode))
      ensures r.Success? ==> View() == ElementsAppended(old(View()), resources, mode)
    {
      for i := 0 to |resources|
        invariant known == old(known) && defined == old(defined)
        invariant View() == ElementsAppended(old(View()), resources[..i], mode)
        invariant forall j | 0 <= j < i && resources[j].Some? :: old(Accessible(resources[j].value, mode))
      {
        assert resources[..i + 1][..i] == resources[..i];
        var appended := AppendElement(resources[i], mode);
        if appended.Failure? {
          return appended;
        }
      }
      assert resources[..|resources|] == resources;
      return Success(());
    }

    method AppendRange(resources: seq<Option<nat>>, mode: AccessMode) returns (r: Result<()>)
      modifies this
      ensures known == old(known) && defined == old(defined)
      ensures r.Success? <==> forall i | 0 <= i < |resources| && resources[i].Some? :: old(Accessible(resources[i].value, mode))
      ensures r.Success? ==> View() == GroupAppended(old(View()), resources, mode)
    {
      var offset := |argumentModes|;
      var elementOffset := |elements|;
      ElementsExtend(View(), resources, mode);
      r := AppendElements(resources, mode);
      if r.Success? {
        groups := groups + [Group(offset, |argumentModes| - offset, elementOffset, |resources|)];
      }
    }

    method AppendSerialization(resource: Option<nat>) returns (r: Result<()>)
      modifies this
      ensures known == old(known) && defined == old(defined)
      ensures r.Success? <==> (resource.Some? ==> old(Accessible(resource.value, ReadWrite)))
      ensures View() == if r.Success? then SerializationAppended(old(View()), resource) else old(View())
    {
      if resource.Some? {
        var described := Describe(resource.value, ReadWrite);
        if described.Failure? {
          return Failure(described.error);
        }
        accesses := accesses + [Access(resource.value, ReadWrite, Serialization)];
      }
      return Success(());
    }

    /** After recording: a resource written as an argument holds a value, a consumed one does not. */
    method UpdateDefinedResources(ops: seq<Access>)
      requires forall i, j | 0 <= i < j < |ops| :: ops[i].resource != ops[j].resource
      requires forall i | 0 <= i < |ops| :: ops[i].resource < |defined|
      modifies this`defined
      ensures |defined| == |old(defined)|
      ensures forall i | 0 <= i < |ops| && ops[i].purpose == Argument && ops[i].mode != Read ::
        defined[ops[i].resource] <==> ops[i].mode != Consume
      ensures forall r: nat | r < |defined| && (forall i | 0 <= i < |ops| && ops[i].purpose == Argument && ops[i].mode != Read :: ops[i].resource != r) ::
        defined[r] == old(defined)[r]
    {
      for n := 0 to |ops|
        invariant |defined| == |old(defined)|
        invariant forall i | 0 <= i < n && ops[i].purpose == Argument && ops[i].mode != Read ::
          defined[ops[i].resource] <==> ops[i].mode != Consume
        invariant forall r: nat | r < |defined| && (forall i | 0 <= i < n && ops[i].purpose == Argument && ops[i].mode != Read :: ops[i].resource != r) ::
          defined[r] == old(defined)[r]
      {
        if ops[n].purpose != Argument || ops[n].mode == Read {
          continue;
        }
        defined := defined[ops[n].resource := ops[n].mode != Consume];
      }
    }
  }
}
