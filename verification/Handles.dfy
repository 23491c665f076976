/**
 * Reference counts at two levels: objects hold control blocks, and control blocks
 * and allocator handles hold the storage that the blocks are carved from.
 *
 * The counter updates of one operation are one step; destroying a block and
 * destroying a storage are steps of their own, which other threads' steps may
 * precede.
 */
module Handles {
  import opened Wrappers

  /** A variable that was destroyed, or what it holds (nothing if moved from). */
  datatype Variable = Gone | Holds(target: Option<nat>)

  /** Live while counted; condemned from the moment the count reaches zero until it is destroyed. */
  datatype Phase = Live | Condemned | Destroyed

  datatype Storage = Storage(refCount: nat, phase: Phase)

  datatype Block = Block(refCount: nat, phase: Phase, storage: nat)

  datatype State = State(objects: seq<Variable>, allocators: seq<Variable>, blocks: seq<Block>, storages: seq<Storage>)

  // ---------------------------------------------------------------------
  // Counting

  function Bit(b: bool): nat { if b then 1 else 0 }

  /** How many variables hold x. */
  function References(variables: seq<Variable>, x: nat): nat {
    if variables == [] then 0
    else References(variables[..|variables| - 1], x) + Bit(variables[|variables| - 1] == Holds(Some(x)))
  }

  /** How many blocks of the storage still exist. */
  function Carved(blocks: seq<Block>, s: nat): nat {
    if blocks == [] then 0
    else
      var last := blocks[|blocks| - 1];
      Carved(blocks[..|blocks| - 1], s) + Bit(!last.phase.Destroyed? && last.storage == s)
  }

  lemma {:induction false} ReferencesUpdate(variables: seq<Variable>, v: nat, to: Variable, x: nat)
    requires v < |variables|
    ensures References(variables[v := to], x) + Bit(variables[v] == Holds(Some(x))) == References(variables, x) + Bit(to == Holds(Some(x)))
  {
    var n := |variables| - 1;
    if v == n {
      assert variables[v := to][..n] == variables[..n];
    } else {
      assert variables[v := to][..n] == variables[..n][v := to];
      ReferencesUpdate(variables[..n], v, to, x);
    }
  }

  lemma ReferencesAppend(variables: seq<Variable>, to: Variable, x: nat)
    ensures References(variables + [to], x) == References(variables, x) + Bit(to == Holds(Some(x)))
  {
    assert (variables + [to])[..|variables|] == variables;
  }

  lemma {:induction false} ReferencesPositive(variables: seq<Variable>, v: nat, x: nat)
    requires v < |variables| && variables[v] == Holds(Some(x))
    ensures References(variables, x) > 0
  {
    var n := |variables| - 1;
    if v < n {
      ReferencesPositive(variables[..n], v, x);
    }
  }

  lemma {:induction false} NoReferences(variables: seq<Variable>, x: nat)
    requires forall v | 0 <= v < |variables| :: variables[v] != Holds(Some(x))
    ensures References(variables, x) == 0
  {
    if variables != [] {
      NoReferences(variables[..|variables| - 1], x);
    }
  }

  lemma {:induction false} CarvedUpdate(blocks: seq<Block>, b: nat, to: Block, s: nat)
    requires b < |blocks|
    ensures Carved(blocks[b := to], s) + Bit(!blocks[b].phase.Destroyed? && blocks[b].storage == s)
      == Carved(blocks, s) + Bit(!to.phase.Destroyed? && to.storage == s)
  {
    var n := |blocks| - 1;
    if b == n {
      assert blocks[b := to][..n] == blocks[..n];
    } else {
      assert blocks[b := to][..n] == blocks[..n][b := to];
      CarvedUpdate(blocks[..n], b, to, s);
    }
  }

  lemma CarvedAppend(blocks: seq<Block>, to: Block, s: nat)
    ensures Carved(blocks + [to], s) == Carved(blocks, s) + Bit(!to.phase.Destroyed? && to.storage == s)
  {
    assert (blocks + [to])[..|blocks|] == blocks;
  }

  lemma {:induction false} CarvedPositive(blocks: seq<Block>, b: nat)
    requires b < |blocks| && !blocks[b].phase.Destroyed?
    ensures Carved(blocks, blocks[b].storage) > 0
  {
    var n := |blocks| - 1;
    if b < n {
      CarvedPositive(blocks[..n], b);
    }
  }

  lemma {:induction false} NothingCarved(blocks: seq<Block>, s: nat)
    requires forall b | 0 <= b < |blocks| :: blocks[b].phase.Destroyed?
    ensures Carved(blocks, s) == 0
  {
    if blocks != [] {
      NothingCarved(blocks[..|blocks| - 1], s);
    }
  }

  // ---------------------------------------------------------------------
  // Pins

  /** A count that drops to zero condemns; an atomic decrement of zero wraps around and is never made. */
  function BlockPinned(blocks: seq<Block>, b: Option<nat>): seq<Block> {
    if b.None? || b.value >= |blocks| then blocks
    else blocks[b.value := blocks[b.value].(refCount := blocks[b.value].refCount + 1)]
  }

  function BlockUnpinned(blocks: seq<Block>, b: Option<nat>): seq<Block> {
    if b.None? || b.value >= |blocks| || blocks[b.value].refCount == 0 then blocks
    else
      var count := blocks[b.value].refCount - 1;
      blocks[b.value := blocks[b.value].(refCount := count, phase := if count == 0 then Condemned else blocks[b.value].phase)]
  }

  function StoragePinned(storages: seq<Storage>, s: Option<nat>): seq<Storage> {
    if s.None? || s.value >= |storages| then storages
    else storages[s.value := storages[s.value].(refCount := storages[s.value].refCount + 1)]
  }

  function StorageUnpinned(storages: seq<Storage>, s: Option<nat>): seq<Storage> {
    if s.None? || s.value >= |storages| || storages[s.value].refCount == 0 then storages
    else
      var count := storages[s.value].refCount - 1;
      storages[s.value := Storage(count, if count == 0 then Condemned else storages[s.value].phase)]
  }

  // ---------------------------------------------------------------------
  // Steps

  datatype Step =
    | NewAllocator
    | CopyAllocator(from: nat)
    | MoveAllocator(from: nat)
    | AssignAllocator(to: nat, from: nat)
    | MoveAssignAllocator(to: nat, from: nat)
    | DropAllocator(variable: nat)
    | DefaultObject
    | MakeObject(allocator: nat)
    | CopyObject(from: nat)
    | MoveObject(from: nat)
    | AssignObject(to: nat, from: nat)
    | MoveAssignObject(to: nat, from: nat)
    | DropObject(variable: nat)
    | DestroyBlock(block: nat)
    | DestroyStorage(storage: nat)

  predicate Usable(variables: seq<Variable>, v: nat) {
    v < |variables| && variables[v].Holds?
  }

  predicate Enabled(s: State, step: Step) {
    match step
    case NewAllocator => true
    case CopyAllocator(from) => Usable(s.allocators, from)
    case MoveAllocator(from) => Usable(s.allocators, from)
    case AssignAllocator(to, from) => Usable(s.allocators, to) && Usable(s.allocators, from)
    case MoveAssignAllocator(to, from) => Usable(s.allocators, to) && Usable(s.allocators, from)
    case DropAllocator(v) => Usable(s.allocators, v)
    case DefaultObject => true
    case MakeObject(allocator) => Usable(s.allocators, allocator) && s.allocators[allocator].target.Some?
    case CopyObject(from) => Usable(s.objects, from)
    case MoveObject(from) => Usable(s.objects, from)
    case AssignObject(to, from) => Usable(s.objects, to) && Usable(s.objects, from)
    case MoveAssignObject(to, from) => Usable(s.objects, to) && Usable(s.objects, from)
    case DropObject(v) => Usable(s.objects, v)
    case DestroyBlock(b) => b < |s.blocks| && s.blocks[b].phase.Condemned?
    case DestroyStorage(st) => st < |s.storages| && s.storages[st].phase.Condemned?
  }

  function Apply(s: State, step: Step): State
    requires Enabled(s, step)
  {
    match step
    case NewAllocator => s.(storages := s.storages + [Storage(1, Live)], allocators := s.allocators + [Holds(Some(|s.storages|))])
    case CopyAllocator(from) =>
      s.(allocators := s.allocators + [s.allocators[from]], storages := StoragePinned(s.storages, s.allocators[from].target))
    case MoveAllocator(from) => s.(allocators := s.allocators[from := Holds(None)] + [s.allocators[from]])
    case AssignAllocator(to, from) =>
      if to == from then s
      else s.(storages := StorageUnpinned(StoragePinned(s.storages, s.allocators[from].target), s.allocators[to].target),
              allocators := s.allocators[to := s.allocators[from]])
    case MoveAssignAllocator(to, from) =>
      if to == from then s
      else s.(storages := StorageUnpinned(s.storages, s.allocators[to].target),
              allocators := s.allocators[to := s.allocators[from]][from := Holds(None)])
    case DropAllocator(v) =>
      s.(storages := StorageUnpinned(s.storages, s.allocators[v].target), allocators := s.allocators[v := Gone])
    case DefaultObject => s.(objects := s.objects + [Holds(None)])
    case MakeObject(allocator) =>
      var storage := s.allocators[allocator].target;
      s.(blocks := s.blocks + [Block(1, Live, storage.value)], objects := s.objects + [Holds(Some(|s.blocks|))],
         storages := StoragePinned(s.storages, storage))
    case CopyObject(from) =>
      s.(objects := s.objects + [s.objects[from]], blocks := BlockPinned(s.blocks, s.objects[from].target))
    case MoveObject(from) => s.(objects := s.objects[from := Holds(None)] + [s.objects[from]])
    case AssignObject(to, from) =>
      if to == from then s
      else s.(blocks := BlockUnpinned(BlockPinned(s.blocks, s.objects[from].target), s.objects[to].target),
              objects := s.objects[to := s.objects[from]])
    case MoveAssignObject(to, from) =>
      if to == from then s
      else s.(blocks := BlockUnpinned(s.blocks, s.objects[to].target),
              objects := s.objects[to := s.objects[from]][from := Holds(None)])
    case DropObject(v) =>
      s.(blocks := BlockUnpinned(s.blocks, s.objects[v].target), objects := s.objects[v := Gone])
    case DestroyBlock(b) =>
      s.(blocks := s.blocks[b := s.blocks[b].(phase := Destroyed)], storages := StorageUnpinned(s.storages, Some(s.blocks[b].storage)))
    case DestroyStorage(st) => s.(storages := s.storages[st := s.storages[st].(phase := Destroyed)])
  }

  predicate Init(s: State) {
    s.objects == [] && s.allocators == [] && s.blocks == [] && s.storages == []
  }

  ghost predicate IsRun(states: seq<State>, steps: seq<Step>) {
    && |states| == |steps| + 1
    && Init(states[0])
    && forall i | 0 <= i < |steps| :: Enabled(states[i], steps[i]) && states[i + 1] == Apply(states[i], steps[i])
  }

  // ---------------------------------------------------------------------
  // The invariant

  /** A block counts the objects that hold it, and is live while that count is not zero. */
  predicate BlockCounted(objects: seq<Variable>, blocks: seq<Block>, b: nat)
    requires b < |blocks|
  {
    blocks[b].refCount == References(objects, b) && (blocks[b].phase.Live? <==> blocks[b].refCount > 0)
  }

  /** A storage counts its allocator handles and the blocks that exist, destroyed ones excepted. */
  predicate StorageCounted(s: State, st: nat)
    requires st < |s.storages|
  {
    && s.storages[st].refCount == References(s.allocators, st) + Carved(s.blocks, st)
    && (s.storages[st].phase.Live? <==> s.storages[st].refCount > 0)
  }

  predicate InRange(variables: seq<Variable>, n: nat) {
    forall v | 0 <= v < |variables| && variables[v].Holds? && variables[v].target.Some? :: variables[v].target.value < n
  }

  predicate BlockInvariant(objects: seq<Variable>, blocks: seq<Block>) {
    InRange(objects, |blocks|) && forall b: nat | b < |blocks| :: BlockCounted(objects, blocks, b)
  }

  predicate StorageInvariant(s: State) {
    && InRange(s.allocators, |s.storages|)
    && (forall b | 0 <= b < |s.blocks| :: s.blocks[b].storage < |s.storages|)
    && (forall st: nat | st < |s.storages| :: StorageCounted(s, st))
  }

  predicate Invariant(s: State) {
    BlockInvariant(s.objects, s.blocks) && StorageInvariant(s)
  }

  // ---------------------------------------------------------------------
  // Objects and blocks

  lemma HeldIsCounted(objects: seq<Variable>, blocks: seq<Block>, v: nat)
    requires BlockInvariant(objects, blocks) && Usable(objects, v) && objects[v].target.Some?
    ensures var b := objects[v].target.value; b < |blocks| && blocks[b].phase.Live? && blocks[b].refCount > 0
  {
    ReferencesPositive(objects, v, objects[v].target.value);
    assert BlockCounted(objects, blocks, objects[v].target.value);
  }

  lemma CopyKeepsBlocks(objects: seq<Variable>, blocks: seq<Block>, from: nat)
    requires BlockInvariant(objects, blocks) && Usable(objects, from)
    ensures BlockInvariant(objects + [objects[from]], BlockPinned(blocks, objects[from].target))
  {
    var objects' := objects + [objects[from]];
    var blocks' := BlockPinned(blocks, objects[from].target);
    if objects[from].target.Some? {
      HeldIsCounted(objects, blocks, from);
    }
    forall b: nat | b < |blocks'|
      ensures BlockCounted(objects', blocks', b)
    {
      assert BlockCounted(objects, blocks, b);
      ReferencesAppend(objects, objects[from], b);
    }
  }

  lemma MoveKeepsBlocks(objects: seq<Variable>, blocks: seq<Block>, from: nat)
    requires BlockInvariant(objects, blocks) && Usable(objects, from)
    ensures BlockInvariant(objects[from := Holds(None)] + [objects[from]], blocks)
  {
    var objects' := objects[from := Holds(None)] + [objects[from]];
    forall b: nat | b < |blocks|
      ensures BlockCounted(objects', blocks, b)
    {
      assert BlockCounted(objects, blocks, b);
      ReferencesUpdate(objects, from, Holds(None), b);
      ReferencesAppend(objects[from := Holds(None)], objects[from], b);
    }
  }

  lemma DropKeepsBlocks(objects: seq<Variable>, blocks: seq<Block>, v: nat)
    requires BlockInvariant(objects, blocks) && Usable(objects, v)
    ensures BlockInvariant(objects[v := Gone], BlockUnpinned(blocks, objects[v].target))
  {
    var objects' := objects[v := Gone];
    var blocks' := BlockUnpinned(blocks, objects[v].target);
    if objects[v].target.Some? {
      HeldIsCounted(objects, blocks, v);
    }
    forall b: nat | b < |blocks'|
      ensures BlockCounted(objects', blocks', b)
    {
      assert BlockCounted(objects, blocks, b);
      ReferencesUpdate(objects, v, Gone, b);
    }
  }

  lemma AssignKeepsBlocks(objects: seq<Variable>, blocks: seq<Block>, to: nat, from: nat)
    requires BlockInvariant(objects, blocks) && Usable(objects, to) && Usable(objects, from) && to != from
    ensures BlockInvariant(objects[to := objects[from]], BlockUnpinned(BlockPinned(blocks, objects[from].target), objects[to].target))
  {
    var objects' := objects[to := objects[from]];
    var blocks' := BlockUnpinned(BlockPinned(blocks, objects[from].target), objects[to].target);
    if objects[from].target.Some? {
      HeldIsCounted(objects, blocks, from);
    }
    if objects[to].target.Some? {
      HeldIsCounted(objects, blocks, to);
    }
    forall b: nat | b < |blocks'|
      ensures BlockCounted(objects', blocks', b)
    {
      assert BlockCounted(objects, blocks, b);
      ReferencesUpdate(objects, to, objects[from], b);
    }
  }

  lemma MoveAssignKeepsBlocks(objects: seq<Variable>, blocks: seq<Block>, to: nat, from: nat)
    requires BlockInvariant(objects, blocks) && Usable(objects, to) && Usable(objects, from) && to != from
    ensures BlockInvariant(objects[to := objects[from]][from := Holds(None)], BlockUnpinned(blocks, objects[to].target))
  {
    var objects' := objects[to := objects[from]][from := Holds(None)];
    var blocks' := BlockUnpinned(blocks, objects[to].target);
    if objects[to].target.Some? {
      HeldIsCounted(objects, blocks, to);
    }
    forall b: nat | b < |blocks'|
      ensures BlockCounted(objects', blocks', b)
    {
      assert BlockCounted(objects, blocks, b);
      ReferencesUpdate(objects, to, objects[from], b);
      ReferencesUpdate(objects[to := objects[from]], from, Holds(None), b);
    }
  }

  lemma MakeKeepsBlocks(objects: seq<Variable>, blocks: seq<Block>, storage: nat)
    requires BlockInvariant(objects, blocks)
    ensures BlockInvariant(objects + [Holds(Some(|blocks|))], blocks + [Block(1, Live, storage)])
  {
    var objects' := objects + [Holds(Some(|blocks|))];
    var blocks' := blocks + [Block(1, Live, storage)];
    forall b: nat | b < |blocks'|
      ensures BlockCounted(objects', blocks', b)
    {
      ReferencesAppend(objects, Holds(Some(|blocks|)), b);
      if b < |blocks| {
        assert BlockCounted(objects, blocks, b);
      } else {
        NoReferences(objects, b);
      }
    }
  }

  lemma DefaultKeepsBlocks(objects: seq<Variable>, blocks: seq<Block>)
    requires BlockInvariant(objects, blocks)
    ensures BlockInvariant(objects + [Holds(None)], blocks)
  {
    var objects' := objects + [Holds(None)];
    forall b: nat | b < |blocks|
      ensures BlockCounted(objects', blocks, b)
    {
      assert BlockCounted(objects, blocks, b);
      ReferencesAppend(objects, Holds(None), b);
    }
  }

  lemma DestroyKeepsBlocks(objects: seq<Variable>, blocks: seq<Block>, b: nat)
    requires BlockInvariant(objects, blocks) && b < |blocks| && blocks[b].phase.Condemned?
    ensures BlockInvariant(objects, blocks[b := blocks[b].(phase := Destroyed)])
  {
    var blocks' := blocks[b := blocks[b].(phase := Destroyed)];
    forall c: nat | c < |blocks|
      ensures BlockCounted(objects, blocks', c)
    {
      assert BlockCounted(objects, blocks, c);
    }
  }

  // ---------------------------------------------------------------------
  // Allocators and storages

  lemma HandleIsCounted(s: State, v: nat)
    requires StorageInvariant(s) && Usable(s.allocators, v) && s.allocators[v].target.Some?
    ensures var st := s.allocators[v].target.value; st < |s.storages| && s.storages[st].phase.Live? && s.storages[st].refCount > 0
  {
    ReferencesPositive(s.allocators, v, s.allocators[v].target.value);
    assert StorageCounted(s, s.allocators[v].target.value);
  }

  /** Storage counts do not depend on the objects, nor on the counts of blocks. */
  lemma SameBlocksKeepStorages(s: State, s': State)
    requires StorageInvariant(s) && s'.allocators == s.allocators && s'.storages == s.storages && |s'.blocks| == |s.blocks|
    requires forall b | 0 <= b < |s.blocks| ::
      s'.blocks[b].storage == s.blocks[b].storage && (s'.blocks[b].phase.Destroyed? <==> s.blocks[b].phase.Destroyed?)
    ensures StorageInvariant(s')
  {
    forall st: nat | st < |s.storages|
      ensures StorageCounted(s', st)
    {
      assert StorageCounted(s, st);
      CarvedSame(s.blocks, s'.blocks, st);
    }
  }

  lemma {:induction false} CarvedSame(a: seq<Block>, b: seq<Block>, st: nat)
    requires |a| == |b| && forall i | 0 <= i < |a| :: a[i].storage == b[i].storage && (a[i].phase.Destroyed? <==> b[i].phase.Destroyed?)
    ensures Carved(a, st) == Carved(b, st)
  {
    if a != [] {
      CarvedSame(a[..|a| - 1], b[..|b| - 1], st);
    }
  }

  /** An unpinned live block is not destroyed by that: someone does it in a later step. */
  lemma ObjectStepKeepsStorages(s: State, step: Step)
    requires Invariant(s) && Enabled(s, step)
    requires step.CopyObject? || step.MoveObject? || step.AssignObject? || step.MoveAssignObject? || step.DropObject? || step.DefaultObject?
    ensures StorageInvariant(Apply(s, step))
  {
    forall v: nat | Usable(s.objects, v) && s.objects[v].target.Some?
      ensures s.objects[v].target.value < |s.blocks| && s.blocks[s.objects[v].target.value].phase.Live?
    {
      HeldIsCounted(s.objects, s.blocks, v);
    }
    SameBlocksKeepStorages(s, Apply(s, step));
  }

  /** The storages after one handle was pinned or unpinned while the variables changed to match. */
  lemma HandlesKeepStorages(s: State, s': State)
    requires StorageInvariant(s) && s'.blocks == s.blocks && |s'.storages| == |s.storages| && InRange(s'.allocators, |s.storages|)
    requires forall st: nat | st < |s.storages| ::
      s'.storages[st].refCount + References(s.allocators, st) == s.storages[st].refCount + References(s'.allocators, st)
    requires forall st: nat | st < |s.storages| && s'.storages[st] != s.storages[st] ::
      s'.storages[st].phase.Live? <==> s'.storages[st].refCount > 0
    ensures StorageInvariant(s')
  {
    forall st: nat | st < |s'.storages|
      ensures StorageCounted(s', st)
    {
      assert StorageCounted(s, st);
    }
  }

  lemma CopyAllocatorKeepsStorages(s: State, from: nat)
    requires StorageInvariant(s) && Enabled(s, CopyAllocator(from))
    ensures StorageInvariant(Apply(s, CopyAllocator(from)))
  {
    var s' := Apply(s, CopyAllocator(from));
    if s.allocators[from].target.Some? {
      HandleIsCounted(s, from);
    }
    forall st: nat | st < |s.storages|
      ensures s'.storages[st].refCount + References(s.allocators, st) == s.storages[st].refCount + References(s'.allocators, st)
    {
      ReferencesAppend(s.allocators, s.allocators[from], st);
    }
    HandlesKeepStorages(s, s');
  }

  lemma MoveAllocatorKeepsStorages(s: State, from: nat)
    requires StorageInvariant(s) && Enabled(s, MoveAllocator(from))
    ensures StorageInvariant(Apply(s, MoveAllocator(from)))
  {
    var s' := Apply(s, MoveAllocator(from));
    forall st: nat | st < |s.storages|
      ensures s'.storages[st].refCount + References(s.allocators, st) == s.storages[st].refCount + References(s'.allocators, st)
    {
      ReferencesUpdate(s.allocators, from, Holds(None), st);
      ReferencesAppend(s.allocators[from := Holds(None)], s.allocators[from], st);
    }
    HandlesKeepStorages(s, s');
  }

  lemma DropAllocatorKeepsStorages(s: State, v: nat)
    requires StorageInvariant(s) && Enabled(s, DropAllocator(v))
    ensures StorageInvariant(Apply(s, DropAllocator(v)))
  {
    var s' := Apply(s, DropAllocator(v));
    if s.allocators[v].target.Some? {
      HandleIsCounted(s, v);
    }
    forall st: nat | st < |s.storages|
      ensures s'.storages[st].refCount + References(s.allocators, st) == s.storages[st].refCount + References(s'.allocators, st)
    {
      ReferencesUpdate(s.allocators, v, Gone, st);
    }
    HandlesKeepStorages(s, s');
  }

  lemma AssignAllocatorKeepsStorages(s: State, to: nat, from: nat)
    requires StorageInvariant(s) && Enabled(s, AssignAllocator(to, from)) && to != from
    ensures StorageInvariant(Apply(s, AssignAllocator(to, from)))
  {
    var s' := Apply(s, AssignAllocator(to, from));
    if s.allocators[from].target.Some? {
      HandleIsCounted(s, from);
    }
    if s.allocators[to].target.Some? {
      HandleIsCounted(s, to);
    }
    forall st: nat | st < |s.storages|
      ensures s'.storages[st].refCount + References(s.allocators, st) == s.storages[st].refCount + References(s'.allocators, st)
    {
      ReferencesUpdate(s.allocators, to, s.allocators[from], st);
    }
    HandlesKeepStorages(s, s');
  }

  lemma MoveAssignAllocatorKeepsStorages(s: State, to: nat, from: nat)
    requires StorageInvariant(s) && Enabled(s, MoveAssignAllocator(to, from)) && to != from
    ensures StorageInvariant(Apply(s, MoveAssignAllocator(to, from)))
  {
    var s' := Apply(s, MoveAssignAllocator(to, from));
    if s.allocators[to].target.Some? {
      HandleIsCounted(s, to);
    }
    forall st: nat | st < |s.storages|
      ensures s'.storages[st].refCount + References(s.allocators, st) == s.storages[st].refCount + References(s'.allocators, st)
    {
      ReferencesUpdate(s.allocators, to, s.allocators[from], st);
      ReferencesUpdate(s.allocators[to := s.allocators[from]], from, Holds(None), st);
    }
    HandlesKeepStorages(s, s');
  }

  lemma NewAllocatorKeepsStorages(s: State)
    requires StorageInvariant(s)
    ensures StorageInvariant(Apply(s, NewAllocator))
  {
    var s' := Apply(s, NewAllocator);
    forall st: nat | st < |s'.storages|
      ensures StorageCounted(s', st)
    {
      ReferencesAppend(s.allocators, Holds(Some(|s.storages|)), st);
      if st < |s.storages| {
        assert StorageCounted(s, st);
      } else {
        NoReferences(s.allocators, st);
        NoBlockYet(s.blocks, st);
      }
    }
  }

  lemma {:induction false} NoBlockYet(blocks: seq<Block>, st: nat)
    requires forall b | 0 <= b < |blocks| :: blocks[b].storage < st
    ensures Carved(blocks, st) == 0
  {
    if blocks != [] {
      NoBlockYet(blocks[..|blocks| - 1], st);
    }
  }

  lemma MakeKeepsStorages(s: State, allocator: nat)
    requires StorageInvariant(s) && Enabled(s, MakeObject(allocator))
    ensures StorageInvariant(Apply(s, MakeObject(allocator)))
  {
    var s' := Apply(s, MakeObject(allocator));
    HandleIsCounted(s, allocator);
    forall st: nat | st < |s'.storages|
      ensures StorageCounted(s', st)
    {
      assert StorageCounted(s, st);
      CarvedAppend(s.blocks, Block(1, Live, s.allocators[allocator].target.value), st);
    }
  }

  lemma DestroyBlockKeepsStorages(s: State, b: nat)
    requires StorageInvariant(s) && Enabled(s, DestroyBlock(b))
    ensures StorageInvariant(Apply(s, DestroyBlock(b)))
  {
    var s' := Apply(s, DestroyBlock(b));
    CarvedPositive(s.blocks, b);
    assert StorageCounted(s, s.blocks[b].storage);
    forall st: nat | st < |s'.storages|
      ensures StorageCounted(s', st)
    {
      assert StorageCounted(s, st);
      CarvedUpdate(s.blocks, b, s'.blocks[b], st);
    }
  }

  lemma DestroyStorageKeepsStorages(s: State, storage: nat)
    requires StorageInvariant(s) && Enabled(s, DestroyStorage(storage))
    ensures StorageInvariant(Apply(s, DestroyStorage(storage)))
  {
    var s' := Apply(s, DestroyStorage(storage));
    forall st: nat | st < |s'.storages|
      ensures StorageCounted(s', st)
    {
      assert StorageCounted(s, st);
    }
  }

  lemma StepKeepsBlocks(s: State, step: Step)
    requires Invariant(s) && Enabled(s, step)
    ensures BlockInvariant(Apply(s, step).objects, Apply(s, step).blocks)
  {
    match step
    case CopyObject(from) => CopyKeepsBlocks(s.objects, s.blocks, from);
    case MoveObject(from) => MoveKeepsBlocks(s.objects, s.blocks, from);
    case DropObject(v) => DropKeepsBlocks(s.objects, s.blocks, v);
    case AssignObject(to, from) =>
      if to != from {
        AssignKeepsBlocks(s.objects, s.blocks, to, from);
      }
    case MoveAssignObject(to, from) =>
      if to != from {
        MoveAssignKeepsBlocks(s.objects, s.blocks, to, from);
      }
    case MakeObject(allocator) => MakeKeepsBlocks(s.objects, s.blocks, s.allocators[allocator].target.value);
    case DefaultObject => DefaultKeepsBlocks(s.objects, s.blocks);
    case DestroyBlock(b) => DestroyKeepsBlocks(s.objects, s.blocks, b);
    case _ =>
  }

  lemma StepKeepsStorages(s: State, step: Step)
    requires Invariant(s) && Enabled(s, step)
    ensures StorageInvariant(Apply(s, step))
  {
    match step
    case NewAllocator => NewAllocatorKeepsStorages(s);
    case CopyAllocator(from) => CopyAllocatorKeepsStorages(s, from);
    case MoveAllocator(from) => MoveAllocatorKeepsStorages(s, from);
    case DropAllocator(v) => DropAllocatorKeepsStorages(s, v);
    case AssignAllocator(to, from) =>
      if to != from {
        AssignAllocatorKeepsStorages(s, to, from);
      }
    case MoveAssignAllocator(to, from) =>
      if to != from {
        MoveAssignAllocatorKeepsStorages(s, to, from);
      }
    case MakeObject(allocator) => MakeKeepsStorages(s, allocator);
    case DestroyBlock(b) => DestroyBlockKeepsStorages(s, b);
    case DestroyStorage(st) => DestroyStorageKeepsStorages(s, st);
    case _ => ObjectStepKeepsStorages(s, step);
  }

  // ---------------------------------------------------------------------
  // Runs

  lemma {:induction false} RunKeepsInvariant(states: seq<State>, steps: seq<Step>, i: nat)
    requires IsRun(states, steps) && i < |states|
    ensures Invariant(states[i])
  {
    if i > 0 {
      RunKeepsInvariant(states, steps, i - 1);
      StepKeepsBlocks(states[i - 1], steps[i - 1]);
      StepKeepsStorages(states[i - 1], steps[i - 1]);
      assert states[i - 1 + 1] == Apply(states[i - 1], steps[i - 1]);
    }
  }

  /**
   * In every run, the count of a block is the number of objects that hold it, and
   * the count of a storage the number of its allocator handles and existing blocks.
   */
  lemma CountsAreExact(states: seq<State>, steps: seq<Step>, i: nat)
    requires IsRun(states, steps) && i < |states|
    ensures forall b: nat | b < |states[i].blocks| :: states[i].blocks[b].refCount == References(states[i].objects, b)
    ensures forall st: nat | st < |states[i].storages| ::
      states[i].storages[st].refCount == References(states[i].allocators, st) + Carved(states[i].blocks, st)
  {
    RunKeepsInvariant(states, steps, i);
    forall b: nat | b < |states[i].blocks|
      ensures states[i].blocks[b].refCount == References(states[i].objects, b)
    {
      assert BlockCounted(states[i].objects, states[i].blocks, b);
    }
    forall st: nat | st < |states[i].storages|
      ensures states[i].storages[st].refCount == References(states[i].allocators, st) + Carved(states[i].blocks, st)
    {
      assert StorageCounted(states[i], st);
    }
  }

  /** In every run, what an object holds is live, and the storage of a block that still exists is live. */
  lemma HeldIsLive(states: seq<State>, steps: seq<Step>, i: nat)
    requires IsRun(states, steps) && i < |states|
    ensures forall v: nat | Usable(states[i].objects, v) && states[i].objects[v].target.Some? ::
      states[i].objects[v].target.value < |states[i].blocks| && states[i].blocks[states[i].objects[v].target.value].phase.Live?
    ensures forall b: nat | b < |states[i].blocks| && !states[i].blocks[b].phase.Destroyed? ::
      states[i].blocks[b].storage < |states[i].storages| && states[i].storages[states[i].blocks[b].storage].phase.Live?
  {
    var s := states[i];
    RunKeepsInvariant(states, steps, i);
    forall v: nat | Usable(s.objects, v) && s.objects[v].target.Some?
      ensures s.objects[v].target.value < |s.blocks| && s.blocks[s.objects[v].target.value].phase.Live?
    {
      HeldIsCounted(s.objects, s.blocks, v);
    }
    forall b: nat | b < |s.blocks| && !s.blocks[b].phase.Destroyed?
      ensures s.blocks[b].storage < |s.storages| && s.storages[s.blocks[b].storage].phase.Live?
    {
      CarvedPositive(s.blocks, b);
      assert StorageCounted(s, s.blocks[b].storage);
    }
  }

  /** A phase only moves on: destruction happens at most once, and after the count reached zero. */
  predicate MovesOn(before: Phase, after: Phase) {
    before == after || (before.Live? && after.Condemned?) || (before.Condemned? && after.Destroyed?)
  }

  lemma PhasesMoveOn(states: seq<State>, steps: seq<Step>, i: nat)
    requires IsRun(states, steps) && i < |steps|
    ensures |states[i].blocks| <= |states[i + 1].blocks| && |states[i].storages| <= |states[i + 1].storages|
    ensures forall b: nat | b < |states[i].blocks| :: MovesOn(states[i].blocks[b].phase, states[i + 1].blocks[b].phase)
    ensures forall st: nat | st < |states[i].storages| :: MovesOn(states[i].storages[st].phase, states[i + 1].storages[st].phase)
  {
    RunKeepsInvariant(states, steps, i);
    BlockPhasesMoveOn(states[i], steps[i]);
    StoragePhasesMoveOn(states[i], steps[i]);
  }

  lemma BlockPhasesMoveOn(s: State, step: Step)
    requires Invariant(s) && Enabled(s, step)
    ensures |s.blocks| <= |Apply(s, step).blocks|
    ensures forall b: nat | b < |s.blocks| :: MovesOn(s.blocks[b].phase, Apply(s, step).blocks[b].phase)
  {
    forall b: nat | b < |s.blocks|
      ensures s.blocks[b].phase.Live? <==> s.blocks[b].refCount > 0
    {
      assert BlockCounted(s.objects, s.blocks, b);
    }
    forall v: nat | Usable(s.objects, v) && s.objects[v].target.Some?
      ensures s.objects[v].target.value < |s.blocks| && s.blocks[s.objects[v].target.value].phase.Live?
    {
      HeldIsCounted(s.objects, s.blocks, v);
    }
  }

  lemma StoragePhasesMoveOn(s: State, step: Step)
    requires Invariant(s) && Enabled(s, step)
    ensures |s.storages| <= |Apply(s, step).storages|
    ensures forall st: nat | st < |s.storages| :: MovesOn(s.storages[st].phase, Apply(s, step).storages[st].phase)
  {
    forall st: nat | st < |s.storages|
      ensures s.storages[st].phase.Live? <==> s.storages[st].refCount > 0
    {
      assert StorageCounted(s, st);
    }
    forall v: nat | Usable(s.allocators, v) && s.allocators[v].target.Some?
      ensures s.allocators[v].target.value < |s.storages| && s.storages[s.allocators[v].target.value].phase.Live?
    {
      HandleIsCounted(s, v);
    }
  }

  /** The variables not named are as they were; there may be one new one. */
  predicate OthersKept(before: seq<Variable>, after: seq<Variable>, named: set<nat>) {
    |before| <= |after| <= |before| + 1 && forall v: nat | v < |before| && v !in named :: after[v] == before[v]
  }

  /** Variables that are assigned, dropped or moved from; what a new one holds, if there is one. */
  predicate VariablesMean(before: seq<Variable>, after: seq<Variable>, named: set<nat>, added: Option<Option<nat>>) {
    OthersKept(before, after, named) && (if added.None? then |after| == |before| else after == after[..|before|] + [Holds(added.value)])
  }

  /**
   * What the objects hold after a step, whatever is counted: a copy and an assigned
   * object share the source's block, a moved-from object holds nothing, a made object
   * holds a block of the allocator's storage that no other object holds.
   */
  lemma WhatObjectsHold(s: State, step: Step)
    requires Invariant(s) && Enabled(s, step)
    ensures var o := s.objects;
      var o' := Apply(s, step).objects;
      match step
      case DefaultObject => VariablesMean(o, o', {}, Some(None))
      case MakeObject(a) => VariablesMean(o, o', {}, Some(Some(|s.blocks|))) && IsNewBlock(s, Apply(s, step), s.allocators[a].target)
      case CopyObject(from) => VariablesMean(o, o', {}, Some(o[from].target))
      case MoveObject(from) => VariablesMean(o, o', {from}, Some(o[from].target)) && o'[from] == Holds(None)
      case AssignObject(to, from) => VariablesMean(o, o', {to}, None) && o'[to] == o[from]
      case MoveAssignObject(to, from) =>
        VariablesMean(o, o', {to, from}, None) && o'[to] == o[from] && (to != from ==> o'[from] == Holds(None))
      case DropObject(v) => VariablesMean(o, o', {v}, None) && o'[v] == Gone
      case _ => o' == o
  {
  }

  /** The step carved a block, which no object held, out of the storage. */
  predicate IsNewBlock(s: State, s': State, storage: Option<nat>) {
    && |s'.blocks| == |s.blocks| + 1 && s'.blocks[..|s.blocks|] == s.blocks
    && Some(s'.blocks[|s.blocks|].storage) == storage
    && forall v | 0 <= v < |s.objects| :: s.objects[v] != Holds(Some(|s.blocks|))
  }

  /** The same of allocator handles and the storages they hold. */
  lemma WhatAllocatorsHold(s: State, step: Step)
    requires Invariant(s) && Enabled(s, step)
    ensures var h := s.allocators;
      var h' := Apply(s, step).allocators;
      match step
      case NewAllocator => VariablesMean(h, h', {}, Some(Some(|s.storages|)))
      case CopyAllocator(from) => VariablesMean(h, h', {}, Some(h[from].target))
      case MoveAllocator(from) => VariablesMean(h, h', {from}, Some(h[from].target)) && h'[from] == Holds(None)
      case AssignAllocator(to, from) => VariablesMean(h, h', {to}, None) && h'[to] == h[from]
      case MoveAssignAllocator(to, from) =>
        VariablesMean(h, h', {to, from}, None) && h'[to] == h[from] && (to != from ==> h'[from] == Holds(None))
      case DropAllocator(v) => VariablesMean(h, h', {v}, None) && h'[v] == Gone
      case _ => h' == h
  {
  }

  predicate NothingHeld(variables: seq<Variable>) {
    forall v | 0 <= v < |variables| :: variables[v] == Gone || variables[v] == Holds(None)
  }

  predicate NothingCondemned(s: State) {
    && (forall b | 0 <= b < |s.blocks| :: !s.blocks[b].phase.Condemned?)
    && (forall st | 0 <= st < |s.storages| :: !s.storages[st].phase.Condemned?)
  }

  /**
   * Nothing leaks: when no object holds anything and no destruction is pending,
   * every block is destroyed; without allocator handles, every storage too.
   */
  lemma NothingLeaks(states: seq<State>, steps: seq<Step>, i: nat)
    requires IsRun(states, steps) && i < |states|
    requires NothingHeld(states[i].objects) && NothingCondemned(states[i])
    ensures forall b | 0 <= b < |states[i].blocks| :: states[i].blocks[b].phase.Destroyed?
    ensures NothingHeld(states[i].allocators) ==> forall st | 0 <= st < |states[i].storages| :: states[i].storages[st].phase.Destroyed?
  {
    var s := states[i];
    RunKeepsInvariant(states, steps, i);
    forall b: nat | b < |s.blocks|
      ensures s.blocks[b].phase.Destroyed?
    {
      NoReferences(s.objects, b);
      assert BlockCounted(s.objects, s.blocks, b);
    }
    if NothingHeld(s.allocators) {
      forall st: nat | st < |s.storages|
        ensures s.storages[st].phase.Destroyed?
      {
        NoReferences(s.allocators, st);
        NothingCarved(s.blocks, st);
        assert StorageCounted(s, st);
      }
    }
  }

  // ---------------------------------------------------------------------
  // The operations as one thread performs them

  predicate Tidy(s: State) {
    Invariant(s) && NothingCondemned(s)
  }

  /** Destroys the storage if its last pin is gone. */
  function StorageSettled(s: State, st: nat): State {
    if st < |s.storages| && s.storages[st].phase.Condemned? then Apply(s, DestroyStorage(st)) else s
  }

  /** Destroys the block if its last pin is gone, and then the storage if the block's was its last. */
  function BlockSettled(s: State, b: nat): State {
    if b < |s.blocks| && s.blocks[b].phase.Condemned? then StorageSettled(Apply(s, DestroyBlock(b)), s.blocks[b].storage) else s
  }

  predicate OnlyCondemned(s: State, b: Option<nat>, st: Option<nat>) {
    && (forall c: nat | c < |s.blocks| && s.blocks[c].phase.Condemned? :: b == Some(c))
    && (forall c: nat | c < |s.storages| && s.storages[c].phase.Condemned? :: st == Some(c))
  }

  lemma StorageSettles(s: State, st: nat)
    requires Invariant(s) && OnlyCondemned(s, None, Some(st))
    ensures Tidy(StorageSettled(s, st))
  {
    if st < |s.storages| && s.storages[st].phase.Condemned? {
      StepKeepsBlocks(s, DestroyStorage(st));
      StepKeepsStorages(s, DestroyStorage(st));
    }
  }

  lemma BlockSettles(s: State, b: nat)
    requires Invariant(s) && OnlyCondemned(s, Some(b), None)
    ensures Tidy(BlockSettled(s, b))
  {
    if b < |s.blocks| && s.blocks[b].phase.Condemned? {
      StepKeepsBlocks(s, DestroyBlock(b));
      StepKeepsStorages(s, DestroyBlock(b));
      StorageSettles(Apply(s, DestroyBlock(b)), s.blocks[b].storage);
    }
  }

  lemma TidyStep(s: State, step: Step)
    requires Tidy(s) && Enabled(s, step)
    ensures Invariant(Apply(s, step))
  {
    StepKeepsBlocks(s, step);
    StepKeepsStorages(s, step);
  }

  /** Settling the blocks before the variable is overwritten is settling them after it. */
  lemma SettlingCommutes(s: State, objects: seq<Variable>, b: nat)
    ensures BlockSettled(s.(objects := objects), b) == BlockSettled(s, b).(objects := objects)
  {
  }

  lemma AssignSettles(s: State, to: nat, from: nat)
    requires Tidy(s) && Usable(s.objects, to) && Usable(s.objects, from) && to != from
    ensures var after := Apply(s, AssignObject(to, from));
      match s.objects[to].target
      case None => Tidy(after)
      case Some(b) =>
        && Tidy(BlockSettled(after, b))
        && BlockSettled(after, b) == BlockSettled(s.(blocks := after.blocks), b).(objects := after.objects)
  {
    var after := Apply(s, AssignObject(to, from));
    TidyStep(s, AssignObject(to, from));
    assert OnlyCondemned(after, s.objects[to].target, None);
    match s.objects[to].target
    case None =>
    case Some(b) =>
      BlockSettles(after, b);
      SettlingCommutes(s.(blocks := after.blocks), after.objects, b);
  }

  lemma MoveAssignSettles(s: State, to: nat, from: nat)
    requires Tidy(s) && Enabled(s, MoveAssignObject(to, from))
    requires to != from
    ensures var after := Apply(s, MoveAssignObject(to, from));
      match s.objects[to].target
      case None => Tidy(after)
      case Some(b) =>
        && Tidy(BlockSettled(after, b))
        && BlockSettled(after, b) == BlockSettled(s.(blocks := after.blocks), b).(objects := after.objects)
  {
    var after := Apply(s, MoveAssignObject(to, from));
    TidyStep(s, MoveAssignObject(to, from));
    assert OnlyCondemned(after, s.objects[to].target, None);
    match s.objects[to].target
    case None =>
    case Some(b) =>
      BlockSettles(after, b);
      SettlingCommutes(s.(blocks := after.blocks), after.objects, b);
  }

  lemma DropSettles(s: State, v: nat)
    requires Tidy(s) && Enabled(s, DropObject(v))
    ensures var after := Apply(s, DropObject(v));
      match s.objects[v].target
      case None => Tidy(after)
      case Some(b) =>
        && Tidy(BlockSettled(after, b))
        && BlockSettled(after, b) == BlockSettled(s.(blocks := after.blocks), b).(objects := after.objects)
  {
    var after := Apply(s, DropObject(v));
    TidyStep(s, DropObject(v));
    assert OnlyCondemned(after, s.objects[v].target, None);
    match s.objects[v].target
    case None =>
    case Some(b) =>
      BlockSettles(after, b);
      SettlingCommutes(s.(blocks := after.blocks), after.objects, b);
  }

  /** The object and allocator variables of a program, and what they hold. */
  class Heap {
    var objects: seq<Variable>
    var allocators: seq<Variable>
    var blocks: seq<Block>
    var storages: seq<Storage>

    ghost function View(): State
      reads this
    {
      State(objects, allocators, blocks, storages)
    }

    constructor ()
      ensures Tidy(View()) && Init(View())
    {
      objects, allocators, blocks, storages := [], [], [], [];
    }

    method PinHandle(h: Option<nat>)
      requires h.Some? ==> h.value < |blocks|
      modifies this`blocks
      ensures blocks == BlockPinned(old(blocks), h)
    {
      if h.Some? {
        blocks := blocks[h.value := blocks[h.value].(refCount := blocks[h.value].refCount + 1)];
      }
    }

    method UnpinStorage(st: nat)
      requires st < |storages| && storages[st].refCount > 0
      modifies this`storages
      ensures View() == StorageSettled(old(View()).(storages := StorageUnpinned(old(storages), Some(st))), st)
      ensures old(storages[st].phase.Live?) ==> storages[st].phase == if old(storages[st].refCount) == 1 then Destroyed else Live
    {
      var before := storages[st].refCount;
      storages := storages[st := Storage(before - 1, if before == 1 then Condemned else storages[st].phase)];
      if storages[st].phase.Condemned? {
        storages := storages[st := storages[st].(phase := Destroyed)];
      }
    }

    /** Releases one pin; the last one destroys the block and gives up the block's own pin on its storage. */
    method UnpinHandle(h: Option<nat>)
      requires h.Some? ==> h.value < |blocks| && blocks[h.value].refCount > 0 && blocks[h.value].phase.Live?
      requires h.Some? ==> blocks[h.value].storage < |storages| && storages[blocks[h.value].storage].refCount > 0
      modifies this`blocks, this`storages
      ensures h.None? ==> View() == old(View())
      ensures h.Some? ==> View() == BlockSettled(old(View()).(blocks := BlockUnpinned(old(blocks), h)), h.value)
    {
      if h.None? {
        return;
      }
      var b := h.value;
      var count := blocks[b].refCount - 1;
      if count != 0 {
        blocks := blocks[b := blocks[b].(refCount := count)];
        return;
      }
      var st := blocks[b].storage;
      blocks := blocks[b := blocks[b].(refCount := 0, phase := Destroyed)];
      UnpinStorage(st);
    }

    lemma HeldBlock(v: nat)
      requires Tidy(View()) && Usable(objects, v) && objects[v].target.Some?
      ensures var b := objects[v].target.value;
        && b < |blocks| && blocks[b].refCount > 0 && blocks[b].phase.Live?
        && blocks[b].storage < |storages| && storages[blocks[b].storage].refCount > 0
    {
      HeldIsCounted(objects, blocks, v);
      CarvedPositive(blocks, objects[v].target.value);
      assert StorageCounted(View(), blocks[objects[v].target.value].storage);
    }

    /** A new object that holds nothing. */
    method Default()
      requires Tidy(View())
      modifies this
      ensures Tidy(View()) && View() == Apply(old(View()), DefaultObject)
    {
      TidyStep(View(), DefaultObject);
      objects := objects + [Holds(None)];
    }

    method Copy(from: nat)
      requires Tidy(View()) && Usable(objects, from)
      modifies this
      ensures Tidy(View()) && View() == Apply(old(View()), CopyObject(from))
    {
      if objects[from].target.Some? {
        HeldBlock(from);
      }
      TidyStep(View(), CopyObject(from));
      PinHandle(objects[from].target);
      objects := objects + [objects[from]];
    }

    method Move(from: nat)
      requires Tidy(View()) && Usable(objects, from)
      modifies this
      ensures Tidy(View()) && View() == Apply(old(View()), MoveObject(from))
    {
      TidyStep(View(), MoveObject(from));
      objects := objects[from := Holds(None)] + [objects[from]];
    }

    /** Pins before it unpins, so assigning an object to one that shares its block is safe. */
    method Assign(to: nat, from: nat)
      requires Tidy(View()) && Usable(objects, to) && Usable(objects, from)
      modifies this
      ensures Tidy(View()) && objects == old(objects)[to := old(objects)[from]] && allocators == old(allocators)
      ensures to != from && old(objects)[to].target.Some? ==>
        View() == BlockSettled(Apply(old(View()), AssignObject(to, from)), old(objects)[to].target.value)
      ensures to == from || old(objects)[to].target.None? ==> View() == Apply(old(View()), AssignObject(to, from))
    {
      if to == from {
        return;
      }
      var dropped := objects[to].target;
      if objects[from].target.Some? {
        HeldBlock(from);
      }
      if dropped.Some? {
        HeldBlock(to);
      }
      AssignSettles(View(), to, from);
      PinHandle(objects[from].target);
      UnpinHandle(dropped);
      objects := objects[to := objects[from]];
    }

    method MoveAssign(to: nat, from: nat)
      requires Tidy(View()) && Usable(objects, to) && Usable(objects, from)
      modifies this
      ensures Tidy(View()) && allocators == old(allocators)
      ensures objects == if to == from then old(objects) else old(objects)[to := old(objects)[from]][from := Holds(None)]
      ensures to != from && old(objects)[to].target.Some? ==>
        View() == BlockSettled(Apply(old(View()), MoveAssignObject(to, from)), old(objects)[to].target.value)
      ensures to == from || old(objects)[to].target.None? ==> View() == Apply(old(View()), MoveAssignObject(to, from))
    {
      if to == from {
        return;
      }
      var dropped := objects[to].target;
      if dropped.Some? {
        HeldBlock(to);
      }
      MoveAssignSettles(View(), to, from);
      UnpinHandle(dropped);
      objects := objects[to := objects[from]][from := Holds(None)];
    }

    method Drop(v: nat)
      requires Tidy(View()) && Usable(objects, v)
      modifies this
      ensures Tidy(View()) && objects == old(objects)[v := Gone] && allocators == old(allocators)
      ensures old(objects)[v].target.Some? ==>
        View() == BlockSettled(Apply(old(View()), DropObject(v)), old(objects)[v].target.value)
      ensures old(objects)[v].target.None? ==> View() == Apply(old(View()), DropObject(v))
    {
      var dropped := objects[v].target;
      if dropped.Some? {
        HeldBlock(v);
      }
      DropSettles(View(), v);
      UnpinHandle(dropped);
      objects := objects[v := Gone];
    }

    /** Carves a block out of the allocator's storage; the block pins the storage for as long as it exists. */
    method Make(allocator: nat)
      requires Tidy(View()) && Usable(allocators, allocator) && allocators[allocator].target.Some?
      modifies this
      ensures Tidy(View()) && View() == Apply(old(View()), MakeObject(allocator))
    {
      TidyStep(View(), MakeObject(allocator));
      HandleIsCounted(View(), allocator);
      var st := allocators[allocator].target.value;
      storages := storages[st := storages[st].(refCount := storages[st].refCount + 1)];
      objects := objects + [Holds(Some(|blocks|))];
      blocks := blocks + [Block(1, Live, st)];
    }

    method DropHandle(v: nat)
      requires Tidy(View()) && Usable(allocators, v)
      modifies this
      ensures Tidy(View()) && allocators == old(allocators)[v := Gone] && objects == old(objects) && blocks == old(blocks)
      ensures old(allocators)[v].target.Some? ==>
        View() == StorageSettled(Apply(old(View()), DropAllocator(v)), old(allocators)[v].target.value)
      ensures old(allocators)[v].target.None? ==> View() == Apply(old(View()), DropAllocator(v))
    {
      var dropped := allocators[v].target;
      TidyStep(View(), DropAllocator(v));
      ghost var after := Apply(View(), DropAllocator(v));
      if dropped.Some? {
        HandleIsCounted(View(), v);
        UnpinStorage(dropped.value);
      }
      allocators := allocators[v := Gone];
      if dropped.Some? {
        assert OnlyCondemned(after, None, dropped);
        StorageSettles(after, dropped.value);
        assert View() == StorageSettled(after, dropped.value);
      }
    }
  }
}
