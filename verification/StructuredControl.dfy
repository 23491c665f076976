/**
 * The interpreter of structured control: flat tables of loops and branches, run by
 * counting invocations. It computes what a while language computes.
 */
module StructuredControl {
  import opened Wrappers

  datatype Step = NodeStep(node: nat) | ControlStep(control: nat)

  datatype ControlKind = Loop | Branch

  /** The primary steps are a loop's body or a branch's then-part, the secondary steps its else-part. */
  datatype Control = Control(kind: ControlKind, initialCondition: nat, repeatCondition: nat, primary: seq<Step>, secondary: seq<Step>)

  datatype Operation = Phi(initial: nat, feedback: nat, output: nat) | Callback

  /** `effect` is what executing a node does to the values, `truth` reads a condition. */
  datatype Program<!V> = Program(nodes: seq<Operation>, controls: seq<Control>, effect: (nat, seq<V>) -> seq<V>, truth: V -> bool)

  predicate StepFits<V>(p: Program<V>, depth: seq<nat>, c: nat, step: Step)
    requires |depth| == |p.controls| && c < |p.controls|
  {
    match step
    case NodeStep(node) => node < |p.nodes|
    case ControlStep(inner) => inner < |p.controls| && depth[inner] < depth[c]
  }

  predicate StepsFit<V>(p: Program<V>, depth: seq<nat>, c: nat, steps: seq<Step>)
    requires |depth| == |p.controls| && c < |p.controls|
  {
    forall i | 0 <= i < |steps| :: StepFits(p, depth, c, steps[i])
  }

  /** Controls are nested: a control runs only controls inside it. */
  predicate WellNested<V>(p: Program<V>, depth: seq<nat>) {
    && |depth| == |p.controls|
    && forall c: nat | c < |p.controls| ::
      StepsFit(p, depth, c, p.controls[c].primary) && StepsFit(p, depth, c, p.controls[c].secondary)
  }

  predicate Holds<V>(p: Program<V>, s: seq<V>, value: nat) {
    value < |s| && p.truth(s[value])
  }

  function Copied<V>(s: seq<V>, output: nat, from: nat): seq<V> {
    if output < |s| && from < |s| then s[output := s[from]] else s
  }

  // ---------------------------------------------------------------------
  // The interpreter

  /** A phi takes its initial value in the first invocation of its control, the feedback value later. */
  function NodeRan<V>(p: Program<V>, s: seq<V>, node: nat, invocation: nat): seq<V>
    requires node < |p.nodes|
  {
    match p.nodes[node]
    case Phi(initial, feedback, output) => Copied(s, output, if invocation != 0 then feedback else initial)
    case Callback => p.effect(node, s)
  }

  /** The steps in order; none if a loop inside repeats more than `fuel` times. */
  function StepsRan<V>(p: Program<V>, depth: seq<nat>, c: nat, steps: seq<Step>, s: seq<V>, invocation: nat, fuel: nat): Option<seq<V>>
    requires WellNested(p, depth) && c < |p.controls| && StepsFit(p, depth, c, steps)
    decreases depth[c], 0, |steps|
  {
    if steps == [] then Some(s)
    else
      assert StepFits(p, depth, c, steps[0]);
      var next := match steps[0]
        case NodeStep(node) => Some(NodeRan(p, s, node, invocation))
        case ControlStep(inner) => ControlRan(p, depth, inner, s, 0, fuel, fuel);
      match next
      case None => None
      case Some(t) => StepsRan(p, depth, c, steps[1..], t, invocation, fuel)
  }

  /** One invocation, and whether to invoke the control again. */
  function IterationRan<V>(p: Program<V>, depth: seq<nat>, c: nat, s: seq<V>, invocation: nat, fuel: nat): Option<(seq<V>, bool)>
    requires WellNested(p, depth) && c < |p.controls|
    decreases depth[c], 1
  {
    var control := p.controls[c];
    if control.kind.Loop? && invocation == 0 && !Holds(p, s, control.initialCondition) then Some((s, false))
    else
      var steps := if control.kind.Branch? && !Holds(p, s, control.initialCondition) then control.secondary else control.primary;
      match StepsRan(p, depth, c, steps, s, invocation, fuel)
      case None => None
      case Some(t) => Some((t, control.kind.Loop? && Holds(p, t, control.repeatCondition)))
  }

  /** Invocations until one does not repeat; none after more than `left` repetitions. */
  function ControlRan<V>(p: Program<V>, depth: seq<nat>, c: nat, s: seq<V>, invocation: nat, fuel: nat, left: nat): Option<seq<V>>
    requires WellNested(p, depth) && c < |p.controls|
    decreases depth[c], 2, left
  {
    match IterationRan(p, depth, c, s, invocation, fuel)
    case None => None
    case Some((t, repeated)) =>
      if !repeated then Some(t)
      else if left == 0 then None
      else ControlRan(p, depth, c, t, invocation + 1, fuel, left - 1)
  }

  // ---------------------------------------------------------------------
  // A while language

  datatype Stmt =
    | Skip
    | Run(node: nat)
    | Copy(output: nat, from: nat)
    | Seq(first: Stmt, second: Stmt)
    | If(condition: nat, thenBranch: Stmt, elseBranch: Stmt)
    | While(condition: nat, body: Stmt)

  /** The big-step rules, with the height of the derivation. */
  ghost predicate Derives<V(!new)>(p: Program<V>, st: Stmt, s: seq<V>, t: seq<V>, height: nat)
    decreases height
  {
    height > 0 &&
    var lower: nat := height - 1;
    match st
    case Skip => t == s
    case Run(node) => t == p.effect(node, s)
    case Copy(output, from) => t == Copied(s, output, from)
    case Seq(first, second) => exists m :: Derives(p, first, s, m, lower) && Derives(p, second, m, t, lower)
    case If(condition, thenBranch, elseBranch) =>
      Derives(p, if Holds(p, s, condition) then thenBranch else elseBranch, s, t, lower)
    case While(condition, body) =>
      if Holds(p, s, condition) then exists m :: Derives(p, body, s, m, lower) && Derives(p, st, m, t, lower)
      else t == s
  }

  /** Running `st` on `s` terminates with `t`. */
  ghost predicate BigStep<V(!new)>(p: Program<V>, st: Stmt, s: seq<V>, t: seq<V>) {
    exists height: nat :: Derives(p, st, s, t, height)
  }

  lemma {:induction false} DerivesHigher<V(!new)>(p: Program<V>, st: Stmt, s: seq<V>, t: seq<V>, height: nat, higher: nat)
    requires Derives(p, st, s, t, height) && height <= higher
    ensures Derives(p, st, s, t, higher)
    decreases height
  {
    match st
    case Skip =>
    case Run(_) =>
    case Copy(_, _) =>
    case Seq(first, second) =>
      var m :| Derives(p, first, s, m, height - 1) && Derives(p, second, m, t, height - 1);
      DerivesHigher(p, first, s, m, height - 1, higher - 1);
      DerivesHigher(p, second, m, t, height - 1, higher - 1);
    case If(condition, thenBranch, elseBranch) =>
      DerivesHigher(p, if Holds(p, s, condition) then thenBranch else elseBranch, s, t, height - 1, higher - 1);
    case While(condition, body) =>
      if Holds(p, s, condition) {
        var m :| Derives(p, body, s, m, height - 1) && Derives(p, st, m, t, height - 1);
        DerivesHigher(p, body, s, m, height - 1, higher - 1);
        DerivesHigher(p, st, m, t, height - 1, higher - 1);
      }
  }

  lemma BigStepSeq<V(!new)>(p: Program<V>, first: Stmt, second: Stmt, s: seq<V>, m: seq<V>, t: seq<V>)
    requires BigStep(p, first, s, m) && BigStep(p, second, m, t)
    ensures BigStep(p, Seq(first, second), s, t)
  {
    var h: nat :| Derives(p, first, s, m, h);
    var k: nat :| Derives(p, second, m, t, k);
    var n := if h < k then k else h;
    DerivesHigher(p, first, s, m, h, n);
    DerivesHigher(p, second, m, t, k, n);
    assert Derives(p, Seq(first, second), s, t, n + 1);
  }

  lemma BigStepWhile<V(!new)>(p: Program<V>, condition: nat, body: Stmt, s: seq<V>, m: seq<V>, t: seq<V>)
    requires Holds(p, s, condition) && BigStep(p, body, s, m) && BigStep(p, While(condition, body), m, t)
    ensures BigStep(p, While(condition, body), s, t)
  {
    var h: nat :| Derives(p, body, s, m, h);
    var k: nat :| Derives(p, While(condition, body), m, t, k);
    var n := if h < k then k else h;
    DerivesHigher(p, body, s, m, h, n);
    DerivesHigher(p, While(condition, body), m, t, k, n);
    assert Derives(p, While(condition, body), s, t, n + 1);
  }

  lemma BigStepIf<V(!new)>(p: Program<V>, condition: nat, thenBranch: Stmt, elseBranch: Stmt, s: seq<V>, t: seq<V>)
    requires BigStep(p, if Holds(p, s, condition) then thenBranch else elseBranch, s, t)
    ensures BigStep(p, If(condition, thenBranch, elseBranch), s, t)
  {
    var h: nat :| Derives(p, if Holds(p, s, condition) then thenBranch else elseBranch, s, t, h);
    assert Derives(p, If(condition, thenBranch, elseBranch), s, t, h + 1);
  }

  // ---------------------------------------------------------------------
  // What the tables mean

  /** The source of a step: phis become copies, in the first invocation of the initial value. */
  function StepSource<V>(p: Program<V>, depth: seq<nat>, c: nat, step: Step, first: bool): Stmt
    requires WellNested(p, depth) && c < |p.controls| && StepFits(p, depth, c, step)
    decreases depth[c], 0, 0
  {
    match step
    case NodeStep(node) =>
      (match p.nodes[node]
       case Phi(initial, feedback, output) => Copy(output, if first then initial else feedback)
       case Callback => Run(node))
    case ControlStep(inner) => Source(p, depth, inner)
  }

  function StepsSource<V>(p: Program<V>, depth: seq<nat>, c: nat, steps: seq<Step>, first: bool): Stmt
    requires WellNested(p, depth) && c < |p.controls| && StepsFit(p, depth, c, steps)
    decreases depth[c], 1, |steps|
  {
    if steps == [] then Skip
    else
      assert StepFits(p, depth, c, steps[0]);
      Seq(StepSource(p, depth, c, steps[0], first), StepsSource(p, depth, c, steps[1..], first))
  }

  /** A branch is an if; a loop is its first iteration and a while, under an if. */
  function Source<V>(p: Program<V>, depth: seq<nat>, c: nat): Stmt
    requires WellNested(p, depth) && c < |p.controls|
    decreases depth[c], 2
  {
    var control := p.controls[c];
    match control.kind
    case Branch =>
      If(control.initialCondition, StepsSource(p, depth, c, control.primary, true), StepsSource(p, depth, c, control.secondary, true))
    case Loop =>
      If(control.initialCondition, Seq(StepsSource(p, depth, c, control.primary, true), Repetition(p, depth, c)), Skip)
  }

  function Repetition<V>(p: Program<V>, depth: seq<nat>, c: nat): Stmt
    requires WellNested(p, depth) && c < |p.controls|
    decreases depth[c], 1, |p.controls[c].primary| + 1
  {
    While(p.controls[c].repeatCondition, StepsSource(p, depth, c, p.controls[c].primary, false))
  }

  // ---------------------------------------------------------------------
  // What the interpreter computes, the source computes

  lemma {:induction false} StepsAreSound<V(!new)>(p: Program<V>, depth: seq<nat>, c: nat, steps: seq<Step>, s: seq<V>, invocation: nat, fuel: nat)
    requires WellNested(p, depth) && c < |p.controls| && StepsFit(p, depth, c, steps)
    requires StepsRan(p, depth, c, steps, s, invocation, fuel).Some?
    ensures BigStep(p, StepsSource(p, depth, c, steps, invocation == 0), s, StepsRan(p, depth, c, steps, s, invocation, fuel).value)
    decreases depth[c], 0, |steps|
  {
    var t := StepsRan(p, depth, c, steps, s, invocation, fuel).value;
    if steps == [] {
      assert Derives(p, Skip, s, t, 1);
    } else {
      var first := StepSource(p, depth, c, steps[0], invocation == 0);
      assert StepFits(p, depth, c, steps[0]);
      match steps[0] {
        case NodeStep(node) =>
          var m := NodeRan(p, s, node, invocation);
          assert Derives(p, first, s, m, 1);
          StepsAreSound(p, depth, c, steps[1..], m, invocation, fuel);
          BigStepSeq(p, first, StepsSource(p, depth, c, steps[1..], invocation == 0), s, m, t);
        case ControlStep(inner) =>
          var m := ControlRan(p, depth, inner, s, 0, fuel, fuel).value;
          ControlIsSound(p, depth, inner, s, fuel, fuel);
          StepsAreSound(p, depth, c, steps[1..], m, invocation, fuel);
          BigStepSeq(p, first, StepsSource(p, depth, c, steps[1..], invocation == 0), s, m, t);
      }
    }
  }

  lemma {:induction false} RepetitionIsSound<V(!new)>(p: Program<V>, depth: seq<nat>, c: nat, s: seq<V>, invocation: nat, fuel: nat, left: nat)
    requires WellNested(p, depth) && c < |p.controls| && p.controls[c].kind.Loop? && invocation > 0
    requires Holds(p, s, p.controls[c].repeatCondition) && ControlRan(p, depth, c, s, invocation, fuel, left).Some?
    ensures BigStep(p, Repetition(p, depth, c), s, ControlRan(p, depth, c, s, invocation, fuel, left).value)
    decreases depth[c], 1, left
  {
    var control := p.controls[c];
    var t := ControlRan(p, depth, c, s, invocation, fuel, left).value;
    var body := StepsSource(p, depth, c, control.primary, false);
    var m := StepsRan(p, depth, c, control.primary, s, invocation, fuel).value;
    StepsAreSound(p, depth, c, control.primary, s, invocation, fuel);
    if Holds(p, m, control.repeatCondition) {
      RepetitionIsSound(p, depth, c, m, invocation + 1, fuel, left - 1);
    } else {
      assert Derives(p, Repetition(p, depth, c), m, m, 1);
    }
    BigStepWhile(p, control.repeatCondition, body, s, m, t);
  }

  lemma {:induction false} ControlIsSound<V(!new)>(p: Program<V>, depth: seq<nat>, c: nat, s: seq<V>, fuel: nat, left: nat)
    requires WellNested(p, depth) && c < |p.controls| && ControlRan(p, depth, c, s, 0, fuel, left).Some?
    ensures BigStep(p, Source(p, depth, c), s, ControlRan(p, depth, c, s, 0, fuel, left).value)
    decreases depth[c], 2
  {
    var control := p.controls[c];
    var t := ControlRan(p, depth, c, s, 0, fuel, left).value;
    match control.kind {
      case Branch =>
        var steps := if Holds(p, s, control.initialCondition) then control.primary else control.secondary;
        StepsAreSound(p, depth, c, steps, s, 0, fuel);
        BigStepIf(p, control.initialCondition, StepsSource(p, depth, c, control.primary, true), StepsSource(p, depth, c, control.secondary, true), s, t);
      case Loop =>
        var body := StepsSource(p, depth, c, control.primary, true);
        if Holds(p, s, control.initialCondition) {
          var m := StepsRan(p, depth, c, control.primary, s, 0, fuel).value;
          StepsAreSound(p, depth, c, control.primary, s, 0, fuel);
          if Holds(p, m, control.repeatCondition) {
            RepetitionIsSound(p, depth, c, m, 1, fuel, left - 1);
          } else {
            assert Derives(p, Repetition(p, depth, c), m, m, 1);
          }
          BigStepSeq(p, body, Repetition(p, depth, c), s, m, t);
        } else {
          assert Derives(p, Skip, s, s, 1);
        }
        BigStepIf(p, control.initialCondition, Seq(body, Repetition(p, depth, c)), Skip, s, t);
    }
  }

  // ---------------------------------------------------------------------
  // What the source computes, the interpreter computes

  lemma {:induction false} StepsWithMoreFuel<V>(p: Program<V>, depth: seq<nat>, c: nat, steps: seq<Step>, s: seq<V>, invocation: nat, fuel: nat, more: nat)
    requires WellNested(p, depth) && c < |p.controls| && StepsFit(p, depth, c, steps) && fuel <= more
    requires StepsRan(p, depth, c, steps, s, invocation, fuel).Some?
    ensures StepsRan(p, depth, c, steps, s, invocation, more) == StepsRan(p, depth, c, steps, s, invocation, fuel)
    decreases depth[c], 0, |steps|
  {
    if steps != [] {
      assert StepFits(p, depth, c, steps[0]);
      match steps[0] {
        case NodeStep(node) =>
          StepsWithMoreFuel(p, depth, c, steps[1..], NodeRan(p, s, node, invocation), invocation, fuel, more);
        case ControlStep(inner) =>
          ControlWithMoreFuel(p, depth, inner, s, 0, fuel, fuel, more, more);
          StepsWithMoreFuel(p, depth, c, steps[1..], ControlRan(p, depth, inner, s, 0, fuel, fuel).value, invocation, fuel, more);
      }
    }
  }

  /** Fuel only bounds how long a loop may run, never what it computes. */
  lemma {:induction false} ControlWithMoreFuel<V>(p: Program<V>, depth: seq<nat>, c: nat, s: seq<V>, invocation: nat, fuel: nat, left: nat, more: nat, moreLeft: nat)
    requires WellNested(p, depth) && c < |p.controls| && fuel <= more && left <= moreLeft
    requires ControlRan(p, depth, c, s, invocation, fuel, left).Some?
    ensures ControlRan(p, depth, c, s, invocation, more, moreLeft) == ControlRan(p, depth, c, s, invocation, fuel, left)
    decreases depth[c], 2, left
  {
    var control := p.controls[c];
    if !(control.kind.Loop? && invocation == 0 && !Holds(p, s, control.initialCondition)) {
      var steps := if control.kind.Branch? && !Holds(p, s, control.initialCondition) then control.secondary else control.primary;
      StepsWithMoreFuel(p, depth, c, steps, s, invocation, fuel, more);
      var (t, repeated) := IterationRan(p, depth, c, s, invocation, fuel).value;
      if repeated {
        ControlWithMoreFuel(p, depth, c, t, invocation + 1, fuel, left - 1, more, moreLeft - 1);
      }
    }
  }

  lemma SeqDerivation<V(!new)>(p: Program<V>, first: Stmt, second: Stmt, s: seq<V>, t: seq<V>, height: nat) returns (m: seq<V>)
    requires Derives(p, Seq(first, second), s, t, height)
    ensures height > 0 && Derives(p, first, s, m, height - 1) && Derives(p, second, m, t, height - 1)
  {
    var lower: nat := height - 1;
    m :| Derives(p, first, s, m, lower) && Derives(p, second, m, t, lower);
  }

  lemma {:induction false} StepsAreComplete<V(!new)>(p: Program<V>, depth: seq<nat>, c: nat, steps: seq<Step>, s: seq<V>, invocation: nat, t: seq<V>, height: nat)
    returns (fuel: nat)
    requires WellNested(p, depth) && c < |p.controls| && StepsFit(p, depth, c, steps)
    requires Derives(p, StepsSource(p, depth, c, steps, invocation == 0), s, t, height)
    ensures StepsRan(p, depth, c, steps, s, invocation, fuel) == Some(t)
    decreases height
  {
    fuel := 0;
    if steps != [] {
      assert StepFits(p, depth, c, steps[0]);
      var first := StepSource(p, depth, c, steps[0], invocation == 0);
      var rest := StepsSource(p, depth, c, steps[1..], invocation == 0);
      var lower: nat := height - 1;
      assert StepsSource(p, depth, c, steps, invocation == 0) == Seq(first, rest);
      var m := SeqDerivation(p, first, rest, s, t, height);
      fuel := StepsAreComplete(p, depth, c, steps[1..], m, invocation, t, lower);
      match steps[0] {
        case NodeStep(node) =>
        case ControlStep(inner) =>
          var inside := ControlIsComplete(p, depth, inner, s, m, lower);
          var more := if fuel < inside then inside else fuel;
          StepsWithMoreFuel(p, depth, c, steps[1..], m, invocation, fuel, more);
          ControlWithMoreFuel(p, depth, inner, s, 0, inside, inside, more, more);
          fuel := more;
      }
    }
  }

  lemma {:induction false} RepetitionIsComplete<V(!new)>(p: Program<V>, depth: seq<nat>, c: nat, s: seq<V>, invocation: nat, t: seq<V>, height: nat)
    returns (fuel: nat)
    requires WellNested(p, depth) && c < |p.controls| && p.controls[c].kind.Loop? && invocation > 0
    requires Holds(p, s, p.controls[c].repeatCondition) && Derives(p, Repetition(p, depth, c), s, t, height)
    ensures ControlRan(p, depth, c, s, invocation, fuel, fuel) == Some(t)
    decreases height
  {
    var control := p.controls[c];
    var body := StepsSource(p, depth, c, control.primary, false);
    var lower: nat := height - 1;
    var m :| Derives(p, body, s, m, lower) && Derives(p, Repetition(p, depth, c), m, t, lower);
    fuel := StepsAreComplete(p, depth, c, control.primary, s, invocation, m, lower);
    if Holds(p, m, control.repeatCondition) {
      var later := RepetitionIsComplete(p, depth, c, m, invocation + 1, t, lower);
      fuel := OneMoreIteration(p, depth, c, s, invocation, m, t, fuel, later);
    }
  }

  /** An iteration that repeats, followed by what the later iterations compute. */
  lemma OneMoreIteration<V>(p: Program<V>, depth: seq<nat>, c: nat, s: seq<V>, invocation: nat, m: seq<V>, t: seq<V>, fuel: nat, later: nat)
    returns (more: nat)
    requires WellNested(p, depth) && c < |p.controls| && p.controls[c].kind.Loop?
    requires invocation > 0 || Holds(p, s, p.controls[c].initialCondition)
    requires StepsRan(p, depth, c, p.controls[c].primary, s, invocation, fuel) == Some(m)
    requires Holds(p, m, p.controls[c].repeatCondition) && ControlRan(p, depth, c, m, invocation + 1, later, later) == Some(t)
    ensures ControlRan(p, depth, c, s, invocation, more, more) == Some(t)
  {
    more := 1 + if fuel < later then later else fuel;
    StepsWithMoreFuel(p, depth, c, p.controls[c].primary, s, invocation, fuel, more);
    ControlWithMoreFuel(p, depth, c, m, invocation + 1, later, later, more, more - 1);
    assert IterationRan(p, depth, c, s, invocation, more) == Some((m, true));
  }

  lemma {:induction false} ControlIsComplete<V(!new)>(p: Program<V>, depth: seq<nat>, c: nat, s: seq<V>, t: seq<V>, height: nat) returns (fuel: nat)
    requires WellNested(p, depth) && c < |p.controls| && Derives(p, Source(p, depth, c), s, t, height)
    ensures ControlRan(p, depth, c, s, 0, fuel, fuel) == Some(t)
    decreases height
  {
    var control := p.controls[c];
    var lower: nat := height - 1;
    match control.kind {
      case Branch =>
        var steps := if Holds(p, s, control.initialCondition) then control.primary else control.secondary;
        fuel := StepsAreComplete(p, depth, c, steps, s, 0, t, lower);
      case Loop =>
        if Holds(p, s, control.initialCondition) {
          fuel := LoopIsComplete(p, depth, c, s, t, lower);
        } else {
          fuel := 0;
        }
    }
  }

  lemma {:induction false} LoopIsComplete<V(!new)>(p: Program<V>, depth: seq<nat>, c: nat, s: seq<V>, t: seq<V>, height: nat) returns (fuel: nat)
    requires WellNested(p, depth) && c < |p.controls| && p.controls[c].kind.Loop? && Holds(p, s, p.controls[c].initialCondition)
    requires Derives(p, Seq(StepsSource(p, depth, c, p.controls[c].primary, true), Repetition(p, depth, c)), s, t, height)
    ensures ControlRan(p, depth, c, s, 0, fuel, fuel) == Some(t)
    decreases height
  {
    var control := p.controls[c];
    var body := StepsSource(p, depth, c, control.primary, true);
    var lower: nat := height - 1;
    var m :| Derives(p, body, s, m, lower) && Derives(p, Repetition(p, depth, c), m, t, lower);
    fuel := StepsAreComplete(p, depth, c, control.primary, s, 0, m, lower);
    if Holds(p, m, control.repeatCondition) {
      var later := RepetitionIsComplete(p, depth, c, m, 1, t, lower);
      fuel := OneMoreIteration(p, depth, c, s, 0, m, t, fuel, later);
    }
  }

  /**
   * The interpreter terminates with some result exactly when the while program
   * does, and with the same result.
   */
  lemma InterpreterIsBigStep<V(!new)>(p: Program<V>, depth: seq<nat>, c: nat, s: seq<V>, t: seq<V>)
    requires WellNested(p, depth) && c < |p.controls|
    ensures (exists fuel: nat :: ControlRan(p, depth, c, s, 0, fuel, fuel) == Some(t)) <==> BigStep(p, Source(p, depth, c), s, t)
  {
    if fuel: nat :| ControlRan(p, depth, c, s, 0, fuel, fuel) == Some(t) {
      ControlIsSound(p, depth, c, s, fuel, fuel);
    }
    if BigStep(p, Source(p, depth, c), s, t) {
      var height: nat :| Derives(p, Source(p, depth, c), s, t, height);
      var fuel := ControlIsComplete(p, depth, c, s, t, height);
    }
  }

  // ---------------------------------------------------------------------
  // What phis and conditions do

  /** A phi gives its output the initial value in the first invocation and the feedback value in later ones; no other value changes. */
  lemma PhiSelects<V>(p: Program<V>, s: seq<V>, node: nat, invocation: nat, value: nat)
    requires node < |p.nodes| && p.nodes[node].Phi? && value < |s|
    ensures var from := if invocation == 0 then p.nodes[node].initial else p.nodes[node].feedback;
      var t := NodeRan(p, s, node, invocation);
      |t| == |s| && t[value] == if value == p.nodes[node].output && from < |s| then s[from] else s[value]
  {
  }

  /** A branch runs its primary steps if its condition is true of the values it finds, else its secondary steps, once. */
  lemma BranchIsTaken<V>(p: Program<V>, depth: seq<nat>, c: nat, s: seq<V>, fuel: nat)
    requires WellNested(p, depth) && c < |p.controls| && p.controls[c].kind.Branch?
    ensures var condition := p.controls[c].initialCondition;
      var taken := condition < |s| && p.truth(s[condition]);
      ControlRan(p, depth, c, s, 0, fuel, fuel) ==
        StepsRan(p, depth, c, if taken then p.controls[c].primary else p.controls[c].secondary, s, 0, fuel)
  {
  }

  /** A loop whose initial condition is not true of the values it finds leaves them as they are. */
  lemma LoopIsSkipped<V>(p: Program<V>, depth: seq<nat>, c: nat, s: seq<V>, fuel: nat)
    requires WellNested(p, depth) && c < |p.controls| && p.controls[c].kind.Loop?
    requires var condition := p.controls[c].initialCondition; condition >= |s| || !p.truth(s[condition])
    ensures ControlRan(p, depth, c, s, 0, fuel, fuel) == Some(s)
  {
  }

  /** The values at the start of the invocations of a loop: each finds what the steps of the one before left. */
  ghost predicate Invocations<V>(p: Program<V>, depth: seq<nat>, c: nat, fuel: nat, found: seq<seq<V>>)
    requires WellNested(p, depth) && c < |p.controls|
  {
    forall i: nat | i + 1 < |found| :: StepsRan(p, depth, c, p.controls[c].primary, found[i], i, fuel) == Some(found[i + 1])
  }

  ghost predicate IsTrue<V>(p: Program<V>, s: seq<V>, condition: nat) {
    condition < |s| && p.truth(s[condition])
  }

  lemma {:induction false} InvocationsRun<V>(p: Program<V>, depth: seq<nat>, c: nat, fuel: nat, found: seq<seq<V>>, i: nat, left: nat)
    requires WellNested(p, depth) && c < |p.controls| && p.controls[c].kind.Loop? && Invocations(p, depth, c, fuel, found)
    requires i + 1 < |found| && |found| - i - 2 <= left && (i == 0 ==> IsTrue(p, found[0], p.controls[c].initialCondition))
    requires forall j | i < j < |found| - 1 :: IsTrue(p, found[j], p.controls[c].repeatCondition)
    requires !IsTrue(p, found[|found| - 1], p.controls[c].repeatCondition)
    ensures ControlRan(p, depth, c, found[i], i, fuel, left) == Some(found[|found| - 1])
    decreases |found| - i
  {
    assert StepsRan(p, depth, c, p.controls[c].primary, found[i], i, fuel) == Some(found[i + 1]);
    if i + 2 < |found| {
      assert IsTrue(p, found[i + 1], p.controls[c].repeatCondition);
      InvocationsRun(p, depth, c, fuel, found, i + 1, left - 1);
    }
  }

  /**
   * A loop whose initial condition is true repeats its primary steps while its repeat
   * condition is true of what they left, and ends with what the last invocation left.
   */
  lemma LoopRepeats<V>(p: Program<V>, depth: seq<nat>, c: nat, fuel: nat, found: seq<seq<V>>)
    requires WellNested(p, depth) && c < |p.controls| && p.controls[c].kind.Loop? && Invocations(p, depth, c, fuel, found)
    requires 2 <= |found| <= fuel + 2 && IsTrue(p, found[0], p.controls[c].initialCondition)
    requires forall j | 0 < j < |found| - 1 :: IsTrue(p, found[j], p.controls[c].repeatCondition)
    requires !IsTrue(p, found[|found| - 1], p.controls[c].repeatCondition)
    ensures ControlRan(p, depth, c, found[0], 0, fuel, fuel) == Some(found[|found| - 1])
  {
    InvocationsRun(p, depth, c, fuel, found, 0, fuel);
  }

  // ---------------------------------------------------------------------
  // The interpreter as it runs

  class ControlInterpreter<V(!new)> {
    const program: Program<V>
    ghost const depth: seq<nat>
    var values: seq<V>

    constructor (p: Program<V>, ghost d: seq<nat>, initial: seq<V>)
      requires WellNested(p, d)
      ensures program == p && depth == d && values == initial
    {
      program, depth, values := p, d, initial;
    }

    method Condition(value: nat) returns (b: bool)
      ensures b == Holds(program, values, value)
    {
      b := value < |values| && program.truth(values[value]);
    }

    method SelectPhi(phi: Operation, useFeedback: bool)
      requires phi.Phi?
      modifies this
      ensures values == Copied(old(values), phi.output, if useFeedback then phi.feedback else phi.initial)
    {
      var selected := if useFeedback then phi.feedback else phi.initial;
      if phi.output < |values| && selected < |values| {
        values := values[phi.output := values[selected]];
      }
    }

    /** One invocation. None means that a loop inside ran out of fuel. */
    method ExecuteControlIteration(c: nat, invocation: nat, fuel: nat) returns (repeated: Option<bool>)
      requires WellNested(program, depth) && c < |program.controls|
      requires program.controls[c].kind.Branch? ==> invocation == 0
      modifies this
      ensures match IterationRan(program, depth, c, old(values), invocation, fuel)
        case None => repeated.None?
        case Some((t, r)) => repeated == Some(r) && values == t
      decreases depth[c], 0
    {
      var control := program.controls[c];
      var enter := Condition(control.initialCondition);
      if control.kind.Loop? && invocation == 0 && !enter {
        return Some(false);
      }
      var steps := if control.kind.Branch? && !enter then control.secondary else control.primary;
      for index := 0 to |steps|
        invariant StepsRan(program, depth, c, steps[index..], values, invocation, fuel)
          == StepsRan(program, depth, c, steps, old(values), invocation, fuel)
      {
        assert steps[index..][0] == steps[index] && steps[index..][1..] == steps[index + 1..];
        assert StepFits(program, depth, c, steps[index]);
        match steps[index] {
          case ControlStep(inner) =>
            var finished := ExecuteControl(inner, fuel);
            if !finished {
              return None;
            }
          case NodeStep(node) =>
            if program.nodes[node].Phi? {
              SelectPhi(program.nodes[node], invocation != 0);
            } else {
              values := program.effect(node, values);
            }
        }
      }
      if control.kind.Branch? {
        return Some(false);
      }
      var again := Condition(control.repeatCondition);
      return Some(again);
    }

    /** Runs a control to its end, unless some loop repeats more than `fuel` times. */
    method ExecuteControl(c: nat, fuel: nat) returns (finished: bool)
      requires WellNested(program, depth) && c < |program.controls|
      modifies this
      ensures match ControlRan(program, depth, c, old(values), 0, fuel, fuel)
        case None => !finished
        case Some(t) => finished && values == t
      decreases depth[c], 1
    {
      var invocation := 0;
      var repeated := ExecuteControlIteration(c, invocation, fuel);
      while repeated == Some(true) && invocation < fuel
        invariant invocation <= fuel
        invariant program.controls[c].kind.Branch? ==> repeated != Some(true)
        invariant ControlRan(program, depth, c, old(values), 0, fuel, fuel) ==
          match repeated
          case None => None
          case Some(false) => Some(values)
          case Some(true) =>
            if fuel - invocation == 0 then None else ControlRan(program, depth, c, values, invocation + 1, fuel, fuel - invocation - 1)
      {
        invocation := invocation + 1;
        repeated := ExecuteControlIteration(c, invocation, fuel);
      }
      finished := repeated == Some(false);
    }
  }
}
