/**
 * Incremental execution: cutoffs compare their input with a stored copy, and
 * memoised nodes run only when an input changed. The results have to agree with
 * evaluating the whole graph again on the current externals.
 *
 * The initialization nodes run once. An ordinary submission runs them inside its
 * first activation, which marks their outputs changed; before feedback regions are
 * submitted they have an activation of their own, whose marks no region sees. The
 * parameter `initialize` says which: whether the first activation runs them.
 */
module Incremental {
  import opened Wrappers

  /** Initialization nodes run once; the others in every activation, unless memoised and unchanged. */
  datatype Kind = Initial | Plain | Memoised | Cutoff

  datatype Source = External(index: nat) | Output(node: nat)

  datatype Node = Node(kind: Kind, inputs: seq<Source>)

  /** Nodes in execution order, one output each; `op` is what a node computes, `equal` the cutoffs' comparison. */
  datatype Program<!V> = Program(nodes: seq<Node>, externals: nat, op: (nat, seq<V>) -> V, equal: (V, V) -> bool)

  /** Inputs come from earlier nodes, of initialization nodes from initialization nodes; a cutoff has one input. */
  predicate WellFormed<V>(p: Program<V>) {
    && (forall n: nat | n < |p.nodes| && p.nodes[n].kind.Cutoff? :: |p.nodes[n].inputs| == 1)
    && (forall n: nat, i: nat | n < |p.nodes| && i < |p.nodes[n].inputs| :: InputFits(p, n, p.nodes[n].inputs[i]))
  }

  predicate InputFits<V>(p: Program<V>, n: nat, source: Source)
    requires n < |p.nodes|
  {
    match source
    case External(index) => index < p.externals && !p.nodes[n].kind.Initial?
    case Output(m) => m < n && (p.nodes[n].kind.Initial? ==> p.nodes[m].kind.Initial?)
  }

  ghost predicate EqualIsTrue<V(!new)>(p: Program<V>) {
    forall a: V, b: V :: p.equal(a, b) ==> a == b
  }

  // ---------------------------------------------------------------------
  // Evaluating from scratch

  function Scratch<V>(p: Program<V>, ext: seq<V>, n: nat): V
    requires WellFormed(p) && |ext| == p.externals && n < |p.nodes|
    decreases n, 1
  {
    var args := ScratchArgs(p, ext, n);
    if p.nodes[n].kind.Cutoff? then args[0] else p.op(n, args)
  }

  function ScratchArgs<V>(p: Program<V>, ext: seq<V>, n: nat): (args: seq<V>)
    requires WellFormed(p) && |ext| == p.externals && n < |p.nodes|
    ensures |args| == |p.nodes[n].inputs|
    decreases n, 0
  {
    seq(|p.nodes[n].inputs|, i requires 0 <= i < |p.nodes[n].inputs| =>
      assert InputFits(p, n, p.nodes[n].inputs[i]);
      match p.nodes[n].inputs[i]
      case External(index) => ext[index]
      case Output(m) => Scratch(p, ext, m))
  }

  // ---------------------------------------------------------------------
  // One activation

  /** What outlives an activation: the active generation of each value, and the cutoffs' copies. */
  datatype Runtime<V> = Runtime(values: seq<Option<V>>, storage: seq<Option<V>>)

  datatype Activation<V> = Activation(runtime: Runtime<V>, changed: seq<bool>)

  predicate Sized<V>(p: Program<V>, a: Activation<V>) {
    |a.runtime.values| == |a.runtime.storage| == |a.changed| == |p.nodes|
  }

  /** The value pointer of an input; none if it was never produced. */
  function Input<V>(p: Program<V>, ext: seq<V>, a: Activation<V>, source: Source): Option<V> {
    match source
    case External(index) => if index < |ext| then Some(ext[index]) else None
    case Output(m) => if m < |a.runtime.values| then a.runtime.values[m] else None
  }

  /** Externals count as changed in every activation. */
  predicate InputChanged<V>(a: Activation<V>, source: Source) {
    match source
    case External(_) => true
    case Output(m) => m < |a.changed| && a.changed[m]
  }

  predicate ShouldExecute<V>(p: Program<V>, a: Activation<V>, n: nat)
    requires n < |p.nodes|
  {
    var node := p.nodes[n];
    node.kind.Memoised? && node.inputs != [] ==> exists i: nat | i < |node.inputs| :: InputChanged(a, node.inputs[i])
  }

  predicate InputsReady<V>(p: Program<V>, ext: seq<V>, a: Activation<V>, n: nat)
    requires n < |p.nodes|
  {
    forall i: nat | i < |p.nodes[n].inputs| :: Input(p, ext, a, p.nodes[n].inputs[i]).Some?
  }

  function Args<V>(p: Program<V>, ext: seq<V>, a: Activation<V>, n: nat): seq<V>
    requires n < |p.nodes| && InputsReady(p, ext, a, n)
  {
    seq(|p.nodes[n].inputs|, i requires 0 <= i < |p.nodes[n].inputs| => Input(p, ext, a, p.nodes[n].inputs[i]).value)
  }

  /** The node's output is produced anew and marked changed; nothing comes of a missing input. */
  function Executed<V>(p: Program<V>, ext: seq<V>, a: Activation<V>, n: nat): Activation<V>
    requires Sized(p, a) && n < |p.nodes|
  {
    var output := if InputsReady(p, ext, a, n) then Some(p.op(n, Args(p, ext, a, n))) else None;
    Activation(a.runtime.(values := a.runtime.values[n := output]), a.changed[n := true])
  }

  /** A cutoff copies its input if it differs from the copy it has, and outputs the copy. */
  function CutoffEvaluated<V>(p: Program<V>, ext: seq<V>, a: Activation<V>, n: nat): Activation<V>
    requires Sized(p, a) && n < |p.nodes| && |p.nodes[n].inputs| == 1
  {
    match Input(p, ext, a, p.nodes[n].inputs[0])
    case None => a
    case Some(input) =>
      var storage := a.runtime.storage[n];
      var changed := storage.None? || !p.equal(storage.value, input);
      var copy := if changed then Some(input) else storage;
      Activation(Runtime(a.runtime.values[n := copy], a.runtime.storage[n := copy]), a.changed[n := changed])
  }

  function StepNode<V>(p: Program<V>, initialize: bool, ext: seq<V>, a: Activation<V>, n: nat): (b: Activation<V>)
    requires WellFormed(p) && Sized(p, a) && n < |p.nodes|
    ensures Sized(p, b)
  {
    match p.nodes[n].kind
    case Initial => if initialize then Executed(p, ext, a, n) else a
    case Cutoff => CutoffEvaluated(p, ext, a, n)
    case Plain => Executed(p, ext, a, n)
    case Memoised => if ShouldExecute(p, a, n) then Executed(p, ext, a, n) else a
  }

  function Begun<V>(p: Program<V>, r: Runtime<V>): Activation<V> {
    Activation(r, seq(|p.nodes|, _ => false))
  }

  function StepNodes<V>(p: Program<V>, initialize: bool, ext: seq<V>, r: Runtime<V>, n: nat): (a: Activation<V>)
    requires WellFormed(p) && n <= |p.nodes| && |r.values| == |r.storage| == |p.nodes|
    ensures Sized(p, a)
  {
    if n == 0 then Begun(p, r) else StepNode(p, initialize, ext, StepNodes(p, initialize, ext, r, n - 1), n - 1)
  }

  // ---------------------------------------------------------------------
  // Agreement with evaluating from scratch

  /** Before the first activation nothing has run, or else the initialization nodes and nothing more. */
  ghost predicate Prepared<V>(p: Program<V>, initialize: bool, r: Runtime<V>, ext: seq<V>)
    requires WellFormed(p) && |ext| == p.externals
  {
    && |r.values| == |r.storage| == |p.nodes|
    && forall n: nat | n < |p.nodes| ::
      && r.storage[n] == None
      && r.values[n] == (if p.nodes[n].kind.Initial? && !initialize then Some(Scratch(p, ext, n)) else None)
  }

  /** After an activation: every value is what evaluating from scratch on `last` gives. */
  ghost predicate Settled<V>(p: Program<V>, r: Runtime<V>, last: seq<V>)
    requires WellFormed(p) && |last| == p.externals
  {
    && |r.values| == |r.storage| == |p.nodes|
    && forall n: nat | n < |p.nodes| ::
      && r.values[n] == Some(Scratch(p, last, n))
      && (p.nodes[n].kind.Cutoff? ==> r.storage[n] == r.values[n])
  }

  /** The nodes below k have their values; those from k on are as the activation found them. */
  ghost predicate Agrees<V>(p: Program<V>, ext: seq<V>, r: Runtime<V>, a: Activation<V>, k: nat)
    requires WellFormed(p) && |ext| == p.externals
  {
    && Sized(p, a) && |r.values| == |r.storage| == |p.nodes|
    && (forall m: nat | m < k && m < |p.nodes| ::
          a.runtime.values[m] == Some(Scratch(p, ext, m)) && (p.nodes[m].kind.Cutoff? ==> a.runtime.storage[m] == a.runtime.values[m]))
    && (forall m: nat | k <= m < |p.nodes| :: a.runtime.values[m] == r.values[m] && a.runtime.storage[m] == r.storage[m])
  }

  /** Nodes that are not marked changed have the value of the activation before. */
  ghost predicate UnchangedKept<V>(p: Program<V>, last: seq<V>, ext: seq<V>, a: Activation<V>, k: nat)
    requires WellFormed(p) && |last| == |ext| == p.externals
  {
    && Sized(p, a)
    && forall m: nat | m < k && m < |p.nodes| && !a.changed[m] :: Scratch(p, ext, m) == Scratch(p, last, m)
  }

  lemma InputsAgree<V>(p: Program<V>, ext: seq<V>, r: Runtime<V>, a: Activation<V>, n: nat)
    requires WellFormed(p) && |ext| == p.externals && n < |p.nodes| && Agrees(p, ext, r, a, n)
    ensures InputsReady(p, ext, a, n) && Args(p, ext, a, n) == ScratchArgs(p, ext, n)
  {
    forall i: nat | i < |p.nodes[n].inputs|
      ensures Input(p, ext, a, p.nodes[n].inputs[i]) == Some(ScratchArgs(p, ext, n)[i])
    {
      assert InputFits(p, n, p.nodes[n].inputs[i]);
    }
  }

  /** A node all of whose inputs kept their values keeps its value. */
  lemma SkippedKeepsValue<V>(p: Program<V>, last: seq<V>, ext: seq<V>, a: Activation<V>, n: nat)
    requires WellFormed(p) && |last| == |ext| == p.externals && n < |p.nodes| && UnchangedKept(p, last, ext, a, n)
    requires forall i: nat | i < |p.nodes[n].inputs| :: !InputChanged(a, p.nodes[n].inputs[i])
    ensures Scratch(p, ext, n) == Scratch(p, last, n)
  {
    forall i: nat | i < |p.nodes[n].inputs|
      ensures ScratchArgs(p, ext, n)[i] == ScratchArgs(p, last, n)[i]
    {
      assert InputFits(p, n, p.nodes[n].inputs[i]);
      assert !InputChanged(a, p.nodes[n].inputs[i]);
    }
    assert ScratchArgs(p, ext, n) == ScratchArgs(p, last, n);
  }

  lemma {:induction false} InitialIgnoresExternals<V>(p: Program<V>, ext: seq<V>, last: seq<V>, n: nat)
    requires WellFormed(p) && |last| == |ext| == p.externals && n < |p.nodes| && p.nodes[n].kind.Initial?
    ensures Scratch(p, ext, n) == Scratch(p, last, n)
    decreases n
  {
    forall i: nat | i < |p.nodes[n].inputs|
      ensures ScratchArgs(p, ext, n)[i] == ScratchArgs(p, last, n)[i]
    {
      assert InputFits(p, n, p.nodes[n].inputs[i]);
      InitialIgnoresExternals(p, ext, last, p.nodes[n].inputs[i].node);
    }
    assert ScratchArgs(p, ext, n) == ScratchArgs(p, last, n);
  }

  /** One node of an activation after the first. */
  lemma LaterNodeAgrees<V(!new)>(p: Program<V>, last: seq<V>, ext: seq<V>, r: Runtime<V>, a: Activation<V>, n: nat, b: Activation<V>, next: nat)
    requires WellFormed(p) && EqualIsTrue(p) && |last| == |ext| == p.externals && n < |p.nodes|
    requires Settled(p, r, last) && Agrees(p, ext, r, a, n) && UnchangedKept(p, last, ext, a, n)
    requires b == StepNode(p, false, ext, a, n) && next == n + 1
    ensures Agrees(p, ext, r, b, next) && UnchangedKept(p, last, ext, b, next)
  {
    InputsAgree(p, ext, r, a, n);
    match p.nodes[n].kind
    case Initial => InitialIgnoresExternals(p, ext, last, n);
    case Cutoff =>
      assert Args(p, ext, a, n)[0] == Input(p, ext, a, p.nodes[n].inputs[0]).value;
    case Plain =>
    case Memoised =>
      if !ShouldExecute(p, a, n) {
        SkippedKeepsValue(p, last, ext, a, n);
      }
  }

  lemma NothingVisited<V>(p: Program<V>, last: seq<V>, ext: seq<V>, r: Runtime<V>)
    requires WellFormed(p) && |last| == |ext| == p.externals && |r.values| == |r.storage| == |p.nodes|
    ensures Agrees(p, ext, r, Begun(p, r), 0) && UnchangedKept(p, last, ext, Begun(p, r), 0)
  {
  }

  lemma {:induction false} LaterNodesAgree<V(!new)>(p: Program<V>, last: seq<V>, ext: seq<V>, r: Runtime<V>, n: nat, a: Activation<V>)
    requires WellFormed(p) && EqualIsTrue(p) && |last| == |ext| == p.externals && n <= |p.nodes| && Settled(p, r, last)
    requires a == StepNodes(p, false, ext, r, n)
    ensures Agrees(p, ext, r, a, n) && UnchangedKept(p, last, ext, a, n)
  {
    if n == 0 {
      NothingVisited(p, last, ext, r);
    } else {
      var before := StepNodes(p, false, ext, r, n - 1);
      LaterNodesAgree(p, last, ext, r, n - 1, before);
      LaterNodeAgrees(p, last, ext, r, before, n - 1, a, n);
    }
  }

  // ---------------------------------------------------------------------
  // The first activation

  /** Something that counts as changed in the first activation feeds the node. */
  predicate Driven<V>(p: Program<V>, initialize: bool, n: nat)
    requires WellFormed(p) && n < |p.nodes|
    decreases n
  {
    match p.nodes[n].kind
    case Initial => initialize
    case Plain => true
    case Cutoff => true
    case Memoised => p.nodes[n].inputs == [] || exists i: nat | i < |p.nodes[n].inputs| :: DrivenInput(p, initialize, n, i)
  }

  predicate DrivenInput<V>(p: Program<V>, initialize: bool, n: nat, i: nat)
    requires WellFormed(p) && n < |p.nodes| && i < |p.nodes[n].inputs|
    decreases n, 0
  {
    assert InputFits(p, n, p.nodes[n].inputs[i]);
    match p.nodes[n].inputs[i]
    case External(_) => true
    case Output(m) => Driven(p, initialize, m)
  }

  /** No memoised node is fed only by values that were initialized before. */
  predicate AllDriven<V>(p: Program<V>, initialize: bool)
    requires WellFormed(p)
  {
    forall n: nat | n < |p.nodes| && !p.nodes[n].kind.Initial? :: Driven(p, initialize, n)
  }

  /** If the first activation runs the initialization nodes, everything is driven. */
  lemma {:induction false} InitializingDrives<V>(p: Program<V>, n: nat)
    requires WellFormed(p) && n < |p.nodes|
    ensures Driven(p, true, n)
  {
    if p.nodes[n].kind.Memoised? && p.nodes[n].inputs != [] {
      assert InputFits(p, n, p.nodes[n].inputs[0]);
      if p.nodes[n].inputs[0].Output? {
        InitializingDrives(p, p.nodes[n].inputs[0].node);
      }
      assert DrivenInput(p, true, n, 0);
    }
  }

  ghost predicate FirstMarks<V>(p: Program<V>, initialize: bool, a: Activation<V>, k: nat)
    requires WellFormed(p) && Sized(p, a)
  {
    forall m: nat | m < k && m < |p.nodes| :: a.changed[m] <==> Driven(p, initialize, m)
  }

  /** In the first activation a node is marked changed exactly when it is driven, whether or not all are. */
  lemma FirstNodeMarks<V>(p: Program<V>, initialize: bool, ext: seq<V>, a: Activation<V>, n: nat)
    requires WellFormed(p) && Sized(p, a) && |ext| == p.externals && n < |p.nodes| && FirstMarks(p, initialize, a, n)
    requires p.nodes[n].kind.Cutoff? ==> a.runtime.storage[n] == None && Input(p, ext, a, p.nodes[n].inputs[0]).Some?
    requires !a.changed[n]
    ensures FirstMarks(p, initialize, StepNode(p, initialize, ext, a, n), n + 1)
  {
    if p.nodes[n].kind.Memoised? {
      forall i: nat | i < |p.nodes[n].inputs|
        ensures InputChanged(a, p.nodes[n].inputs[i]) <==> DrivenInput(p, initialize, n, i)
      {
        assert InputFits(p, n, p.nodes[n].inputs[i]);
      }
    }
  }

  lemma FirstNodeAgrees<V>(p: Program<V>, initialize: bool, ext: seq<V>, r: Runtime<V>, a: Activation<V>, n: nat, b: Activation<V>, next: nat)
    requires WellFormed(p) && |ext| == p.externals && n < |p.nodes|
    requires Prepared(p, initialize, r, ext) && Agrees(p, ext, r, a, n) && FirstMarks(p, initialize, a, n) && !a.changed[n]
    requires !p.nodes[n].kind.Initial? ==> Driven(p, initialize, n)
    requires b == StepNode(p, initialize, ext, a, n) && next == n + 1
    ensures Agrees(p, ext, r, b, next) && FirstMarks(p, initialize, b, next)
  {
    InputsAgree(p, ext, r, a, n);
    if p.nodes[n].kind.Cutoff? {
      assert Args(p, ext, a, n)[0] == Input(p, ext, a, p.nodes[n].inputs[0]).value;
    }
    FirstNodeMarks(p, initialize, ext, a, n);
    if p.nodes[n].kind.Memoised? {
      DrivenNodeExecutes(p, initialize, a, n);
    }
  }

  lemma DrivenNodeExecutes<V>(p: Program<V>, initialize: bool, a: Activation<V>, n: nat)
    requires WellFormed(p) && Sized(p, a) && n < |p.nodes| && FirstMarks(p, initialize, a, n)
    requires p.nodes[n].kind.Memoised? && Driven(p, initialize, n)
    ensures ShouldExecute(p, a, n)
  {
    if p.nodes[n].inputs != [] {
      var i: nat :| i < |p.nodes[n].inputs| && DrivenInput(p, initialize, n, i);
      assert InputFits(p, n, p.nodes[n].inputs[i]);
      assert InputChanged(a, p.nodes[n].inputs[i]);
    }
  }

  lemma {:induction false} UnvisitedAreUnmarked<V>(p: Program<V>, initialize: bool, ext: seq<V>, r: Runtime<V>, n: nat, m: nat)
    requires WellFormed(p) && n <= m < |p.nodes| && |r.values| == |r.storage| == |p.nodes|
    ensures !StepNodes(p, initialize, ext, r, n).changed[m]
  {
    if n > 0 {
      UnvisitedAreUnmarked(p, initialize, ext, r, n - 1, m);
    }
  }

  lemma {:induction false} FirstNodesAgree<V>(p: Program<V>, initialize: bool, ext: seq<V>, r: Runtime<V>, n: nat, a: Activation<V>)
    requires WellFormed(p) && |ext| == p.externals && n <= |p.nodes| && Prepared(p, initialize, r, ext) && AllDriven(p, initialize)
    requires a == StepNodes(p, initialize, ext, r, n)
    ensures Agrees(p, ext, r, a, n) && FirstMarks(p, initialize, a, n)
  {
    if n == 0 {
      NothingVisited(p, ext, ext, r);
    } else {
      var before := StepNodes(p, initialize, ext, r, n - 1);
      FirstNodesAgree(p, initialize, ext, r, n - 1, before);
      UnvisitedAreUnmarked(p, initialize, ext, r, n - 1, n - 1);
      FirstNodeAgrees(p, initialize, ext, r, before, n - 1, a, n);
    }
  }

  /** A node that is not driven is skipped in every activation, so its value stays what it was. */
  lemma {:induction false} UndrivenIsSkipped<V>(p: Program<V>, ext: seq<V>, r: Runtime<V>, n: nat, k: nat)
    requires WellFormed(p) && n < |p.nodes| && k <= |p.nodes| && |r.values| == |r.storage| == |p.nodes| && !Driven(p, false, n)
    ensures !StepNodes(p, false, ext, r, k).changed[n] && StepNodes(p, false, ext, r, k).runtime.values[n] == r.values[n]
    decreases n, k
  {
    if k > 0 {
      var a := StepNodes(p, false, ext, r, k - 1);
      UndrivenIsSkipped(p, ext, r, n, k - 1);
      if k - 1 == n && p.nodes[n].kind.Memoised? {
        forall i: nat | i < |p.nodes[n].inputs|
          ensures !InputChanged(a, p.nodes[n].inputs[i])
        {
          assert InputFits(p, n, p.nodes[n].inputs[i]) && !DrivenInput(p, false, n, i);
          UndrivenIsSkipped(p, ext, r, p.nodes[n].inputs[i].node, k - 1);
        }
      }
    }
  }

  // ---------------------------------------------------------------------
  // Any number of activations

  function Activated<V>(p: Program<V>, initialize: bool, ext: seq<V>, r: Runtime<V>): (a: Activation<V>)
    requires WellFormed(p) && |r.values| == |r.storage| == |p.nodes|
    ensures Sized(p, a)
  {
    StepNodes(p, initialize, ext, r, |p.nodes|)
  }

  /** The runtime after activations on each of the externals in turn; only the first may initialize. */
  function AfterActivations<V>(p: Program<V>, initialize: bool, exts: seq<seq<V>>, r: Runtime<V>): (s: Runtime<V>)
    requires WellFormed(p) && |r.values| == |r.storage| == |p.nodes|
    ensures |s.values| == |s.storage| == |p.nodes|
  {
    if exts == [] then r
    else
      var before := exts[..|exts| - 1];
      Activated(p, initialize && before == [], exts[|exts| - 1], AfterActivations(p, initialize, before, r)).runtime
  }

  lemma {:induction false} ActivationsSettle<V(!new)>(p: Program<V>, initialize: bool, exts: seq<seq<V>>, r: Runtime<V>)
    requires WellFormed(p) && EqualIsTrue(p) && AllDriven(p, initialize)
    requires exts != [] && (forall i | 0 <= i < |exts| :: |exts[i]| == p.externals) && Prepared(p, initialize, r, exts[0])
    ensures Settled(p, AfterActivations(p, initialize, exts, r), exts[|exts| - 1])
  {
    var ext := exts[|exts| - 1];
    var before := exts[..|exts| - 1];
    if |exts| == 1 {
      assert before == [] && AfterActivations(p, initialize, before, r) == r;
      FirstNodesAgree(p, initialize, ext, r, |p.nodes|, Activated(p, initialize, ext, r));
    } else {
      assert before[0] == exts[0] && forall i | 0 <= i < |before| :: before[i] == exts[i];
      ActivationsSettle(p, initialize, before, r);
      LaterNodesAgree(p, before[|before| - 1], ext, AfterActivations(p, initialize, before, r), |p.nodes|,
        Activated(p, false, ext, AfterActivations(p, initialize, before, r)));
    }
  }

  /** Every value is what evaluating the whole graph on the latest externals gives. */
  ghost predicate AgreesWithScratch<V>(p: Program<V>, r: Runtime<V>, last: seq<V>)
    requires WellFormed(p) && |last| == p.externals && |r.values| == |p.nodes|
  {
    forall n: nat | n < |p.nodes| :: r.values[n] == Some(Scratch(p, last, n))
  }

  /**
   * The ordinary path: from nothing, with the initialization nodes in the first
   * activation, any number of activations agrees with evaluating everything on the
   * latest externals, whatever is memoised.
   */
  lemma MemoisationAgrees<V(!new)>(p: Program<V>, exts: seq<seq<V>>, r: Runtime<V>)
    requires WellFormed(p) && EqualIsTrue(p)
    requires exts != [] && (forall i | 0 <= i < |exts| :: |exts[i]| == p.externals) && Prepared(p, true, r, exts[0])
    ensures AgreesWithScratch(p, AfterActivations(p, true, exts, r), exts[|exts| - 1])
  {
    forall n: nat | n < |p.nodes| && !p.nodes[n].kind.Initial?
      ensures Driven(p, true, n)
    {
      InitializingDrives(p, n);
    }
    ActivationsSettle(p, true, exts, r);
  }

  lemma {:induction false} UndrivenIsNeverProduced<V>(p: Program<V>, exts: seq<seq<V>>, r: Runtime<V>, n: nat)
    requires WellFormed(p) && n < |p.nodes| && |r.values| == |r.storage| == |p.nodes|
    requires !Driven(p, false, n)
    ensures AfterActivations(p, false, exts, r).values[n] == r.values[n]
  {
    if exts != [] {
      UndrivenIsNeverProduced(p, exts[..|exts| - 1], r, n);
      UndrivenIsSkipped(p, exts[|exts| - 1], AfterActivations(p, false, exts[..|exts| - 1], r), n, |p.nodes|);
    }
  }

  /**
   * Feedback regions: the initialization nodes have run in an activation of their
   * own. The values agree exactly when no memoised node is fed by initialization
   * values alone.
   */
  lemma MemoisationInRegionsAgreesExactly<V(!new)>(p: Program<V>, exts: seq<seq<V>>, r: Runtime<V>)
    requires WellFormed(p) && EqualIsTrue(p)
    requires exts != [] && (forall i | 0 <= i < |exts| :: |exts[i]| == p.externals) && Prepared(p, false, r, exts[0])
    ensures AllDriven(p, false) <==> AgreesWithScratch(p, AfterActivations(p, false, exts, r), exts[|exts| - 1])
  {
    if AllDriven(p, false) {
      ActivationsSettle(p, false, exts, r);
    } else {
      var n: nat :| n < |p.nodes| && !p.nodes[n].kind.Initial? && !Driven(p, false, n);
      UndrivenIsNeverProduced(p, exts, r, n);
      assert AfterActivations(p, false, exts, r).values[n] == None;
    }
  }

  /** In a feedback region, a memoised construction whose only input is an initialization value is never executed. */
  lemma MemoisedInitializationConsumer<V>(op: (nat, seq<V>) -> V, equal: (V, V) -> bool)
    ensures var p := Program([Node(Initial, []), Node(Memoised, [Output(0)])], 0, op, equal);
      WellFormed(p) && !AllDriven(p, false)
  {
    var p := Program([Node(Initial, []), Node(Memoised, [Output(0)])], 0, op, equal);
    assert !DrivenInput(p, false, 1, 0);
    assert !Driven(p, false, 1);
  }

  // ---------------------------------------------------------------------
  // What is not marked has not changed

  /** A cutoff that holds a copy has it as its value. */
  ghost predicate CopiesAreValues<V>(p: Program<V>, r: Runtime<V>)
    requires |r.values| == |r.storage| == |p.nodes|
  {
    forall n: nat | n < |p.nodes| && p.nodes[n].kind.Cutoff? && r.storage[n].Some? :: r.values[n] == r.storage[n]
  }

  /** Nodes not marked, and those not visited yet, are as the activation found them. */
  ghost predicate UnmarkedKept<V>(p: Program<V>, r: Runtime<V>, a: Activation<V>, k: nat) {
    && Sized(p, a) && |r.values| == |r.storage| == |p.nodes|
    && (forall m: nat | m < |p.nodes| && !a.changed[m] :: a.runtime.values[m] == r.values[m])
    && (forall m: nat | k <= m < |p.nodes| :: !a.changed[m] && a.runtime.storage[m] == r.storage[m])
  }

  lemma NodeKeepsUnmarked<V>(p: Program<V>, initialize: bool, ext: seq<V>, r: Runtime<V>, a: Activation<V>, n: nat, b: Activation<V>, next: nat)
    requires WellFormed(p) && n < |p.nodes| && UnmarkedKept(p, r, a, n) && CopiesAreValues(p, r) && CopiesAreValues(p, a.runtime)
    requires b == StepNode(p, initialize, ext, a, n) && next == n + 1
    ensures UnmarkedKept(p, r, b, next) && CopiesAreValues(p, b.runtime)
  {
    match p.nodes[n].kind
    case Cutoff =>
      assert !a.changed[n] && a.runtime.storage[n] == r.storage[n];
    case _ =>
  }

  lemma {:induction false} NodesKeepUnmarked<V>(p: Program<V>, initialize: bool, ext: seq<V>, r: Runtime<V>, n: nat, a: Activation<V>)
    requires WellFormed(p) && n <= |p.nodes| && |r.values| == |r.storage| == |p.nodes| && CopiesAreValues(p, r)
    requires a == StepNodes(p, initialize, ext, r, n)
    ensures UnmarkedKept(p, r, a, n) && CopiesAreValues(p, a.runtime)
  {
    if n > 0 {
      var before := StepNodes(p, initialize, ext, r, n - 1);
      NodesKeepUnmarked(p, initialize, ext, r, n - 1, before);
      NodeKeepsUnmarked(p, initialize, ext, r, before, n - 1, a, n);
    }
  }

  lemma {:induction false} ActivationsKeepCopies<V>(p: Program<V>, initialize: bool, exts: seq<seq<V>>, r: Runtime<V>)
    requires WellFormed(p) && |r.values| == |r.storage| == |p.nodes| && CopiesAreValues(p, r)
    ensures CopiesAreValues(p, AfterActivations(p, initialize, exts, r))
  {
    if exts != [] {
      var before := exts[..|exts| - 1];
      ActivationsKeepCopies(p, initialize, before, r);
      var found := AfterActivations(p, initialize, before, r);
      NodesKeepUnmarked(p, initialize && before == [], exts[|exts| - 1], found, |p.nodes|,
        Activated(p, initialize && before == [], exts[|exts| - 1], found));
    }
  }

  /** In every activation of either path a value that is not marked changed is the one it found. */
  lemma UnmarkedIsUnchanged<V>(p: Program<V>, initialize: bool, exts: seq<seq<V>>, r: Runtime<V>, first: seq<V>, ext: seq<V>, n: nat)
    requires WellFormed(p) && |first| == p.externals && Prepared(p, initialize, r, first) && n < |p.nodes|
    ensures var before := AfterActivations(p, initialize, exts, r);
      var after := Activated(p, initialize && exts == [], ext, before);
      !after.changed[n] ==> after.runtime.values[n] == before.values[n]
  {
    ActivationsKeepCopies(p, initialize, exts, r);
    var before := AfterActivations(p, initialize, exts, r);
    NodesKeepUnmarked(p, initialize && exts == [], ext, before, |p.nodes|, Activated(p, initialize && exts == [], ext, before));
  }

  lemma Settles<V(!new)>(p: Program<V>, initialize: bool, exts: seq<seq<V>>, r: Runtime<V>)
    requires WellFormed(p) && EqualIsTrue(p) && (initialize || AllDriven(p, false))
    requires exts != [] && (forall i | 0 <= i < |exts| :: |exts[i]| == p.externals) && Prepared(p, initialize, r, exts[0])
    ensures Settled(p, AfterActivations(p, initialize, exts, r), exts[|exts| - 1])
  {
    if initialize {
      forall m: nat | m < |p.nodes| && !p.nodes[m].kind.Initial?
        ensures Driven(p, true, m)
      {
        InitializingDrives(p, m);
      }
    }
    ActivationsSettle(p, initialize, exts, r);
  }

  /** If the cutoffs compare by equality, it is moreover what evaluating everything gives, on the new externals and on the old. */
  lemma UnmarkedIsCurrent<V(!new)>(p: Program<V>, initialize: bool, exts: seq<seq<V>>, r: Runtime<V>, ext: seq<V>, n: nat)
    requires WellFormed(p) && EqualIsTrue(p) && (initialize || AllDriven(p, false))
    requires exts != [] && (forall i | 0 <= i < |exts| :: |exts[i]| == p.externals) && Prepared(p, initialize, r, exts[0])
    requires |ext| == p.externals && n < |p.nodes|
    ensures var after := Activated(p, false, ext, AfterActivations(p, initialize, exts, r));
      !after.changed[n] ==>
        after.runtime.values[n] == Some(Scratch(p, ext, n)) && Scratch(p, ext, n) == Scratch(p, exts[|exts| - 1], n)
  {
    Settles(p, initialize, exts, r);
    LaterNodesAgree(p, exts[|exts| - 1], ext, AfterActivations(p, initialize, exts, r), |p.nodes|,
      Activated(p, false, ext, AfterActivations(p, initialize, exts, r)));
  }

  // ---------------------------------------------------------------------
  // What has not changed is not marked

  ghost predicate EqualIsExact<V(!new)>(p: Program<V>) {
    forall a: V, b: V :: p.equal(a, b) <==> a == b
  }

  /** An external, or the output of a node that is marked. */
  predicate FreshInput<V>(p: Program<V>, a: Activation<V>, n: nat, i: nat)
    requires WellFormed(p) && Sized(p, a) && n < |p.nodes| && i < |p.nodes[n].inputs|
  {
    assert InputFits(p, n, p.nodes[n].inputs[i]);
    p.nodes[n].inputs[i].External? || a.changed[p.nodes[n].inputs[i].node]
  }

  predicate HasFreshInput<V>(p: Program<V>, a: Activation<V>, n: nat)
    requires WellFormed(p) && Sized(p, a) && n < |p.nodes|
  {
    exists i: nat | i < |p.nodes[n].inputs| :: FreshInput(p, a, n, i)
  }

  /** The marks that an activation after the first owes its nodes. */
  ghost predicate MarkIsExact<V>(p: Program<V>, last: seq<V>, ext: seq<V>, a: Activation<V>, n: nat)
    requires WellFormed(p) && |last| == |ext| == p.externals && Sized(p, a) && n < |p.nodes|
  {
    match p.nodes[n].kind
    case Initial => !a.changed[n]
    case Plain => a.changed[n]
    case Cutoff => a.changed[n] <==> ScratchArgs(p, ext, n) != ScratchArgs(p, last, n)
    case Memoised => a.changed[n] <==> p.nodes[n].inputs == [] || HasFreshInput(p, a, n)
  }

  ghost predicate MarksAreExact<V>(p: Program<V>, last: seq<V>, ext: seq<V>, a: Activation<V>, k: nat)
    requires WellFormed(p) && |last| == |ext| == p.externals && Sized(p, a)
  {
    forall n: nat | n < k && n < |p.nodes| :: MarkIsExact(p, last, ext, a, n)
  }

  /** Marks of later nodes do not matter to a node. */
  lemma MarkStaysExact<V>(p: Program<V>, last: seq<V>, ext: seq<V>, a: Activation<V>, b: Activation<V>, n: nat)
    requires WellFormed(p) && |last| == |ext| == p.externals && Sized(p, a) && Sized(p, b) && n < |p.nodes|
    requires MarkIsExact(p, last, ext, a, n) && forall m: nat | m <= n :: b.changed[m] == a.changed[m]
    ensures MarkIsExact(p, last, ext, b, n)
  {
    forall i: nat | i < |p.nodes[n].inputs|
      ensures FreshInput(p, a, n, i) <==> FreshInput(p, b, n, i)
    {
      assert InputFits(p, n, p.nodes[n].inputs[i]);
    }
    assert HasFreshInput(p, a, n) <==> HasFreshInput(p, b, n);
  }

  lemma FreshMeansChanged<V>(p: Program<V>, a: Activation<V>, b: Activation<V>, n: nat)
    requires WellFormed(p) && Sized(p, a) && Sized(p, b) && n < |p.nodes|
    requires p.nodes[n].kind.Memoised? && p.nodes[n].inputs != [] && forall m: nat | m < n :: b.changed[m] == a.changed[m]
    ensures ShouldExecute(p, a, n) <==> HasFreshInput(p, b, n)
  {
    forall i: nat | i < |p.nodes[n].inputs|
      ensures InputChanged(a, p.nodes[n].inputs[i]) <==> FreshInput(p, b, n, i)
    {
      assert InputFits(p, n, p.nodes[n].inputs[i]);
    }
  }

  /** The stored copy is the input of the activation before. */
  lemma CutoffMarksExactly<V(!new)>(p: Program<V>, last: seq<V>, ext: seq<V>, r: Runtime<V>, a: Activation<V>, n: nat, b: Activation<V>)
    requires WellFormed(p) && EqualIsExact(p) && |last| == |ext| == p.externals && n < |p.nodes| && p.nodes[n].kind.Cutoff?
    requires Settled(p, r, last) && Agrees(p, ext, r, a, n) && b == StepNode(p, false, ext, a, n)
    ensures b.changed[n] <==> ScratchArgs(p, ext, n) != ScratchArgs(p, last, n)
  {
    InputsAgree(p, ext, r, a, n);
    assert Args(p, ext, a, n)[0] == Input(p, ext, a, p.nodes[n].inputs[0]).value;
    assert a.runtime.storage[n] == Some(Scratch(p, last, n)) == Some(ScratchArgs(p, last, n)[0]);
    assert ScratchArgs(p, ext, n) == [ScratchArgs(p, ext, n)[0]] && ScratchArgs(p, last, n) == [ScratchArgs(p, last, n)[0]];
  }

  lemma NodeMarksExactly<V(!new)>(p: Program<V>, last: seq<V>, ext: seq<V>, r: Runtime<V>, a: Activation<V>, n: nat, b: Activation<V>)
    requires WellFormed(p) && EqualIsExact(p) && |last| == |ext| == p.externals && n < |p.nodes| && Settled(p, r, last)
    requires Agrees(p, ext, r, a, n) && !a.changed[n] && b == StepNode(p, false, ext, a, n)
    ensures MarkIsExact(p, last, ext, b, n)
  {
    match p.nodes[n].kind
    case Cutoff => CutoffMarksExactly(p, last, ext, r, a, n, b);
    case Memoised =>
      if p.nodes[n].inputs != [] {
        FreshMeansChanged(p, a, b, n);
      }
    case _ =>
  }

  /** One node of an activation after the first; it touches no other mark. */
  lemma NextNodeMarksExactly<V(!new)>(p: Program<V>, last: seq<V>, ext: seq<V>, r: Runtime<V>, a: Activation<V>, n: nat, b: Activation<V>, next: nat)
    requires WellFormed(p) && EqualIsExact(p) && |last| == |ext| == p.externals && n < |p.nodes| && Settled(p, r, last)
    requires a == StepNodes(p, false, ext, r, n) && b == StepNode(p, false, ext, a, n) && next == n + 1
    requires MarksAreExact(p, last, ext, a, n)
    ensures MarksAreExact(p, last, ext, b, next)
  {
    LaterNodesAgree(p, last, ext, r, n, a);
    UnvisitedAreUnmarked(p, false, ext, r, n, n);
    NodeMarksExactly(p, last, ext, r, a, n, b);
    StepKeepsMarks(p, false, ext, a, n, b);
    forall m: nat | m < n
      ensures MarkIsExact(p, last, ext, b, m)
    {
      assert MarkIsExact(p, last, ext, a, m);
      MarkStaysExact(p, last, ext, a, b, m);
    }
  }

  lemma StepKeepsMarks<V>(p: Program<V>, initialize: bool, ext: seq<V>, a: Activation<V>, n: nat, b: Activation<V>)
    requires WellFormed(p) && Sized(p, a) && n < |p.nodes| && b == StepNode(p, initialize, ext, a, n)
    ensures forall m: nat | m < |p.nodes| && m != n :: b.changed[m] == a.changed[m]
  {
  }

  lemma {:induction false} NodesMarkExactly<V(!new)>(p: Program<V>, last: seq<V>, ext: seq<V>, r: Runtime<V>, k: nat, a: Activation<V>)
    requires WellFormed(p) && EqualIsExact(p) && |last| == |ext| == p.externals && k <= |p.nodes| && Settled(p, r, last)
    requires a == StepNodes(p, false, ext, r, k)
    ensures MarksAreExact(p, last, ext, a, k)
  {
    if k > 0 {
      var before := StepNodes(p, false, ext, r, k - 1);
      NodesMarkExactly(p, last, ext, r, k - 1, before);
      NextNodeMarksExactly(p, last, ext, r, before, k - 1, a, k);
    }
  }

  lemma ActivationMarksExactly<V(!new)>(p: Program<V>, initialize: bool, exts: seq<seq<V>>, r: Runtime<V>, ext: seq<V>, found: Runtime<V>, after: Activation<V>)
    requires WellFormed(p) && EqualIsExact(p) && (initialize || AllDriven(p, false))
    requires exts != [] && (forall i | 0 <= i < |exts| :: |exts[i]| == p.externals) && Prepared(p, initialize, r, exts[0])
    requires |ext| == p.externals && found == AfterActivations(p, initialize, exts, r) && after == Activated(p, false, ext, found)
    ensures MarksAreExact(p, exts[|exts| - 1], ext, after, |p.nodes|)
  {
    Settles(p, initialize, exts, r);
    NodesMarkExactly(p, exts[|exts| - 1], ext, found, |p.nodes|, after);
  }

  /**
   * Nor is too much marked, if the cutoffs compare by equality exactly: in every
   * activation after the first a cutoff is marked exactly when its input is not what it
   * was in the activation before, a memoised node with inputs exactly when one of them
   * is external or marked, initialization nodes never and all others always.
   */
  lemma MarkedExactly<V(!new)>(p: Program<V>, initialize: bool, exts: seq<seq<V>>, r: Runtime<V>, ext: seq<V>, n: nat)
    requires WellFormed(p) && EqualIsExact(p) && (initialize || AllDriven(p, false))
    requires exts != [] && (forall i | 0 <= i < |exts| :: |exts[i]| == p.externals) && Prepared(p, initialize, r, exts[0])
    requires |ext| == p.externals && n < |p.nodes|
    ensures var after := Activated(p, false, ext, AfterActivations(p, initialize, exts, r));
      match p.nodes[n].kind
      case Initial => !after.changed[n]
      case Plain => after.changed[n]
      case Cutoff => after.changed[n] <==> ScratchArgs(p, ext, n) != ScratchArgs(p, exts[|exts| - 1], n)
      case Memoised => after.changed[n] <==> p.nodes[n].inputs == [] || HasFreshInput(p, after, n)
  {
    var found := AfterActivations(p, initialize, exts, r);
    var after := Activated(p, false, ext, found);
    ActivationMarksExactly(p, initialize, exts, r, ext, found, after);
    assert MarkIsExact(p, exts[|exts| - 1], ext, after, n);
  }

  /** All inputs are cutoffs. */
  predicate FedByCutoffs<V>(p: Program<V>, n: nat)
    requires WellFormed(p) && n < |p.nodes|
  {
    forall i: nat | i < |p.nodes[n].inputs| :: FedByCutoff(p, p.nodes[n].inputs[i])
  }

  predicate FedByCutoff<V>(p: Program<V>, source: Source) {
    source.Output? && source.node < |p.nodes| && p.nodes[source.node].kind.Cutoff?
  }

  /** None of these cutoffs has another input than in the activation before. */
  ghost predicate CutoffInputsKept<V>(p: Program<V>, last: seq<V>, ext: seq<V>, n: nat)
    requires WellFormed(p) && |last| == |ext| == p.externals && n < |p.nodes| && FedByCutoffs(p, n)
  {
    forall i: nat | i < |p.nodes[n].inputs| :: CutoffInputKept(p, last, ext, p.nodes[n].inputs[i])
  }

  ghost predicate CutoffInputKept<V>(p: Program<V>, last: seq<V>, ext: seq<V>, source: Source)
    requires WellFormed(p) && |last| == |ext| == p.externals && FedByCutoff(p, source)
  {
    ScratchArgs(p, ext, source.node) == ScratchArgs(p, last, source.node)
  }

  lemma FreshMeansCutoffInputChanged<V>(p: Program<V>, last: seq<V>, ext: seq<V>, a: Activation<V>, n: nat)
    requires WellFormed(p) && |last| == |ext| == p.externals && Sized(p, a) && n < |p.nodes| && FedByCutoffs(p, n)
    requires MarksAreExact(p, last, ext, a, |p.nodes|)
    ensures HasFreshInput(p, a, n) <==> !CutoffInputsKept(p, last, ext, n)
  {
    forall i: nat | i < |p.nodes[n].inputs|
      ensures FreshInput(p, a, n, i) <==> !CutoffInputKept(p, last, ext, p.nodes[n].inputs[i])
    {
      assert FedByCutoff(p, p.nodes[n].inputs[i]);
      assert MarkIsExact(p, last, ext, a, p.nodes[n].inputs[i].node);
    }
  }

  /** A memoised node fed by cutoffs alone is skipped, its value kept, exactly when none of their inputs changed. */
  lemma CutoffsShieldMemoised<V(!new)>(p: Program<V>, initialize: bool, exts: seq<seq<V>>, r: Runtime<V>, ext: seq<V>, n: nat)
    requires WellFormed(p) && EqualIsExact(p) && (initialize || AllDriven(p, false))
    requires exts != [] && (forall i | 0 <= i < |exts| :: |exts[i]| == p.externals) && Prepared(p, initialize, r, exts[0])
    requires |ext| == p.externals && n < |p.nodes| && p.nodes[n].kind.Memoised? && p.nodes[n].inputs != [] && FedByCutoffs(p, n)
    ensures var found := AfterActivations(p, initialize, exts, r);
      var after := Activated(p, false, ext, found);
      && (!after.changed[n] <==> CutoffInputsKept(p, exts[|exts| - 1], ext, n))
      && (!after.changed[n] ==> after.runtime.values[n] == found.values[n])
  {
    var last := exts[|exts| - 1];
    var found := AfterActivations(p, initialize, exts, r);
    var after := Activated(p, false, ext, found);
    ActivationMarksExactly(p, initialize, exts, r, ext, found, after);
    assert MarkIsExact(p, last, ext, after, n);
    FreshMeansCutoffInputChanged(p, last, ext, after, n);
    ActivationsKeepCopies(p, initialize, exts, r);
    NodesKeepUnmarked(p, false, ext, found, |p.nodes|, after);
  }

  // ---------------------------------------------------------------------
  // The runtime

  lemma InitialArgs<V>(p: Program<V>, ext: seq<V>, a: Activation<V>, n: nat)
    requires WellFormed(p) && Sized(p, a) && |ext| == p.externals && n < |p.nodes| && p.nodes[n].kind.Initial?
    requires forall m: nat | m < n && p.nodes[m].kind.Initial? :: a.runtime.values[m] == Some(Scratch(p, ext, m))
    ensures InputsReady(p, [], a, n) && Args(p, [], a, n) == ScratchArgs(p, ext, n)
  {
    forall i: nat | i < |p.nodes[n].inputs|
      ensures Input(p, [], a, p.nodes[n].inputs[i]) == Some(ScratchArgs(p, ext, n)[i])
    {
      assert InputFits(p, n, p.nodes[n].inputs[i]);
    }
  }

  class IncrementalRuntime<V(!new)> {
    const program: Program<V>
    var values: seq<Option<V>>
    var storage: seq<Option<V>>
    var changed: seq<bool>
    var initialized: bool

    ghost function View(): Activation<V>
      reads this
    {
      Activation(Runtime(values, storage), changed)
    }

    ghost predicate Valid()
      reads this
    {
      WellFormed(program) && Sized(program, View())
    }

    constructor (p: Program<V>)
      requires WellFormed(p)
      ensures Valid() && program == p
      ensures !initialized && forall n: nat | n < |p.nodes| :: values[n] == None && storage[n] == None
      ensures forall ext: seq<V> | |ext| == p.externals :: Prepared(p, true, View().runtime, ext)
    {
      program := p;
      initialized := false;
      values := seq(|p.nodes|, _ => None);
      storage := seq(|p.nodes|, _ => None);
      changed := seq(|p.nodes|, _ => false);
    }

    /** Before feedback regions: an activation that runs the initialization nodes alone; no external is read. */
    method Initialize(ghost ext: seq<V>)
      requires Valid() && |ext| == program.externals && !initialized
      requires forall n: nat | n < |program.nodes| :: values[n] == None && storage[n] == None
      modifies this
      ensures Valid() && initialized && Prepared(program, false, View().runtime, ext)
    {
      for n := 0 to |program.nodes|
        invariant Valid()
        invariant forall m: nat | m < |program.nodes| :: storage[m] == None
        invariant forall m: nat | m < |program.nodes| ::
          values[m] == if m < n && program.nodes[m].kind.Initial? then Some(Scratch(program, ext, m)) else None
      {
        if program.nodes[n].kind.Initial? {
          InitialArgs(program, ext, View(), n);
          Execute([], n);
        }
      }
      initialized := true;
    }

    /** Whether the node has to run: not if it is memoised, has inputs, and none of them changed. */
    method ShouldRun(n: nat) returns (b: bool)
      requires Valid() && n < |program.nodes|
      ensures b == ShouldExecute(program, View(), n)
      ensures b <==> !program.nodes[n].kind.Memoised? || program.nodes[n].inputs == [] || HasFreshInput(program, View(), n)
    {
      var node := program.nodes[n];
      if node.kind.Memoised? && node.inputs != [] {
        FreshMeansChanged(program, View(), View(), n);
        for i := 0 to |node.inputs|
          invariant forall j: nat | j < i :: !InputChanged(View(), node.inputs[j])
        {
          if node.inputs[i].External? || (node.inputs[i].node < |changed| && changed[node.inputs[i].node]) {
            assert InputChanged(View(), node.inputs[i]);
            return true;
          }
        }
        return false;
      }
      return true;
    }

    method ReadInput(ext: seq<V>, source: Source) returns (value: Option<V>)
      requires Valid()
      ensures value == Input(program, ext, View(), source)
    {
      match source
      case External(index) =>
        value := if index < |ext| then Some(ext[index]) else None;
      case Output(m) =>
        value := if m < |values| then values[m] else None;
    }

    method EvaluateCutoff(ext: seq<V>, n: nat)
      requires Valid() && n < |program.nodes| && program.nodes[n].kind.Cutoff?
      modifies this
      ensures Valid() && View() == CutoffEvaluated(program, ext, old(View()), n) && initialized == old(initialized)
    {
      var input := ReadInput(ext, program.nodes[n].inputs[0]);
      if input.Some? {
        var differs := storage[n].None? || !program.equal(storage[n].value, input.value);
        if differs {
          storage := storage[n := input];
        }
        values := values[n := storage[n]];
        changed := changed[n := differs];
        assert storage == old(storage)[n := storage[n]];
      }
    }

    method Execute(ext: seq<V>, n: nat)
      requires Valid() && n < |program.nodes|
      modifies this
      ensures Valid() && View() == Executed(program, ext, old(View()), n) && initialized == old(initialized)
    {
      var inputs := program.nodes[n].inputs;
      var args: seq<V> := [];
      for i := 0 to |inputs|
        invariant View() == old(View()) && initialized == old(initialized) && |args| == i
        invariant forall j: nat | j < i :: Input(program, ext, View(), inputs[j]) == Some(args[j])
      {
        var input := ReadInput(ext, inputs[i]);
        if input.None? {
          assert !InputsReady(program, ext, View(), n);
          values := values[n := None];
          changed := changed[n := true];
          return;
        }
        args := args + [input.value];
      }
      assert args == Args(program, ext, View(), n);
      values := values[n := Some(program.op(n, args))];
      changed := changed[n := true];
    }

    /** One activation: every node in turn, but initialization nodes only once, and no unchanged memoised ones. */
    method RunActivation(ext: seq<V>)
      requires Valid() && |ext| == program.externals
      modifies this
      ensures Valid() && initialized && View() == Activated(program, !old(initialized), ext, old(View()).runtime)
    {
      changed := seq(|program.nodes|, _ => false);
      for n := 0 to |program.nodes|
        invariant Valid() && initialized == old(initialized)
        invariant View() == StepNodes(program, !old(initialized), ext, old(View()).runtime, n)
      {
        match program.nodes[n].kind {
          case Initial =>
            if !initialized {
              Execute(ext, n);
            }
          case Cutoff => EvaluateCutoff(ext, n);
          case Plain => Execute(ext, n);
          case Memoised =>
            var run := ShouldRun(n);
            if run {
              Execute(ext, n);
            }
        }
      }
      initialized := true;
    }
  }
}
