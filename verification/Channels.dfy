/**
 * Channels: senders push a value and then release a token; every iteration of a
 * feedback region consumes the tokens it requires and later pops as many values.
 */
module Channels {
  import opened Semaphores

  /** One channel as the program holds it; values are pushed at the front and popped at the back. */
  class Channel<T> {
    var deque: seq<T>
    ghost var sent: seq<T>
    ghost var received: seq<T>

    /** What was sent and not yet received is in the deque, the oldest at the back. */
    ghost predicate Valid()
      reads this
    {
      sent == received + Reversed(deque)
    }

    constructor ()
      ensures Valid() && sent == [] && received == []
    {
      deque, sent, received := [], [], [];
    }

    method Push(value: T)
      requires Valid()
      modifies this
      ensures Valid() && sent == old(sent) + [value] && received == old(received)
      ensures |deque| == |old(deque)| + 1
    {
      deque := [value] + deque;
      sent := sent + [value];
      assert deque[1..] == old(deque);
      assert received + (Reversed(old(deque)) + [value]) == received + Reversed(old(deque)) + [value];
    }

    /** Moves the oldest value out: the k-th value received is the k-th value sent. */
    method Receive() returns (value: T)
      requires Valid() && deque != []
      modifies this
      ensures Valid() && sent == old(sent) && received == old(received) + [value]
      ensures |received| <= |sent| && value == sent[|old(received)|]
      ensures |deque| == |old(deque)| - 1
    {
      ReversedLast(deque);
      value := deque[|deque| - 1];
      deque := deque[..|deque| - 1];
      received := received + [value];
      assert received + Reversed(deque) == old(received) + ([value] + Reversed(deque));
    }
  }

  function Reversed<T>(s: seq<T>): (r: seq<T>)
    ensures |r| == |s|
  {
    if s == [] then [] else Reversed(s[1..]) + [s[0]]
  }

  lemma {:induction false} ReversedLast<T>(s: seq<T>)
    requires s != []
    ensures Reversed(s) == [s[|s| - 1]] + Reversed(s[..|s| - 1])
  {
    if |s| > 1 {
      ReversedLast(s[1..]);
      assert s[1..][..|s[1..]| - 1] == s[..|s| - 1][1..];
    }
  }

  // ---------------------------------------------------------------------
  // Senders, the submitting thread and the workers

  /**
   * Channel c belongs to semaphore c. `unreleased` counts the sends between their
   * push and their token, `outstanding` the pops of submitted iterations.
   */
  datatype State<T> = State(
    queues: seq<seq<T>>,
    tokens: seq<nat>,
    unreleased: seq<nat>,
    outstanding: seq<nat>,
    sent: seq<seq<T>>,
    received: seq<seq<T>>,
    released: seq<nat>,
    iterations: seq<nat>)

  /** What each feedback region requires for an iteration. */
  type Regions = seq<seq<Requirement>>

  datatype Step<T> = Push(channel: nat, value: T) | Release(channel: nat) | Submit(region: nat) | Receive(channel: nat)

  predicate Sized<T>(s: State<T>, regions: Regions) {
    && |s.queues| == |s.tokens| == |s.unreleased| == |s.outstanding| == |s.sent| == |s.received| == |s.released|
    && |s.iterations| == |regions|
    && forall r | 0 <= r < |regions| :: InRange(regions[r], |s.tokens|)
  }

  predicate Enabled<T>(s: State<T>, regions: Regions, step: Step<T>)
    requires Sized(s, regions)
  {
    match step
    case Push(c, _) => c < |s.queues|
    case Release(c) => c < |s.queues| && s.unreleased[c] > 0 && s.tokens[c] + 1 < TOKEN_VALUES
    case Submit(r) => r < |regions| && Covered(regions[r], s.tokens)
    case Receive(c) => c < |s.queues| && s.outstanding[c] > 0
  }

  function Back<T>(q: seq<T>): seq<T> {
    if q == [] then [] else [q[|q| - 1]]
  }

  function Front<T>(q: seq<T>): seq<T> {
    if q == [] then [] else q[..|q| - 1]
  }

  function Apply<T>(s: State<T>, regions: Regions, step: Step<T>): State<T>
    requires Sized(s, regions) && Enabled(s, regions, step)
  {
    match step
    case Push(c, value) =>
      s.(queues := s.queues[c := [value] + s.queues[c]], sent := s.sent[c := s.sent[c] + [value]],
         unreleased := s.unreleased[c := s.unreleased[c] + 1])
    case Release(c) =>
      s.(unreleased := s.unreleased[c := s.unreleased[c] - 1], tokens := s.tokens[c := s.tokens[c] + 1],
         released := s.released[c := s.released[c] + 1])
    case Submit(r) =>
      s.(tokens := Consumed(regions[r], s.tokens), iterations := s.iterations[r := s.iterations[r] + 1],
         outstanding := seq(|s.outstanding|, c requires 0 <= c < |s.outstanding| => s.outstanding[c] + Required(regions[r], c)))
    case Receive(c) =>
      s.(queues := s.queues[c := Front(s.queues[c])], received := s.received[c := s.received[c] + Back(s.queues[c])],
         outstanding := s.outstanding[c := s.outstanding[c] - 1])
  }

  predicate Init<T(==)>(s: State<T>, regions: Regions) {
    && Sized(s, regions)
    && (forall c | 0 <= c < |s.queues| ::
          s.queues[c] == [] && s.tokens[c] == 0 && s.unreleased[c] == 0 && s.outstanding[c] == 0
          && s.sent[c] == [] && s.received[c] == [] && s.released[c] == 0)
    && (forall r | 0 <= r < |regions| :: s.iterations[r] == 0)
  }

  ghost predicate IsRun<T>(states: seq<State<T>>, steps: seq<Step<T>>, regions: Regions) {
    && |states| == |steps| + 1
    && Init(states[0], regions)
    && forall i | 0 <= i < |steps| ::
      Sized(states[i], regions) && Enabled(states[i], regions, steps[i]) && states[i + 1] == Apply(states[i], regions, steps[i])
  }

  /** The tokens that the iterations submitted so far have consumed. */
  function ConsumedBy(iterations: seq<nat>, regions: Regions, c: nat): nat
    requires |iterations| == |regions|
  {
    if regions == [] then 0
    else
      var last := |regions| - 1;
      ConsumedBy(iterations[..last], regions[..last], c) + iterations[last] * Required(regions[last], c)
  }

  lemma {:induction false} OneMoreIteration(iterations: seq<nat>, regions: Regions, r: nat, c: nat)
    requires |iterations| == |regions| && r < |regions|
    ensures ConsumedBy(iterations[r := iterations[r] + 1], regions, c) == ConsumedBy(iterations, regions, c) + Required(regions[r], c)
  {
    var last := |regions| - 1;
    if r == last {
      assert iterations[r := iterations[r] + 1][..last] == iterations[..last];
      assert (iterations[r] + 1) * Required(regions[r], c) == iterations[r] * Required(regions[r], c) + Required(regions[r], c);
    } else {
      assert iterations[r := iterations[r] + 1][..last] == iterations[..last][r := iterations[r] + 1];
      OneMoreIteration(iterations[..last], regions[..last], r, c);
    }
  }

  lemma {:induction false} NothingConsumed(iterations: seq<nat>, regions: Regions, c: nat)
    requires |iterations| == |regions| && forall r | 0 <= r < |regions| :: iterations[r] == 0
    ensures ConsumedBy(iterations, regions, c) == 0
  {
    if regions != [] {
      NothingConsumed(iterations[..|regions| - 1], regions[..|regions| - 1], c);
    }
  }

  /** Values queued match sends without token, tokens and pops to come; tokens are conserved; order is kept. */
  ghost predicate Balanced<T>(s: State<T>, regions: Regions, c: nat)
    requires Sized(s, regions) && c < |s.queues|
  {
    && |s.queues[c]| == s.unreleased[c] + s.tokens[c] + s.outstanding[c]
    && s.released[c] == s.tokens[c] + ConsumedBy(s.iterations, regions, c)
    && s.sent[c] == s.received[c] + Reversed(s.queues[c])
    && |s.sent[c]| == s.released[c] + s.unreleased[c]
  }

  ghost predicate Invariant<T>(s: State<T>, regions: Regions) {
    Sized(s, regions) && forall c: nat | c < |s.queues| :: Balanced(s, regions, c)
  }

  predicate RegionsDistinct(regions: Regions) {
    forall r | 0 <= r < |regions| :: NoSharedSemaphore(regions[r])
  }

  lemma SubmitKeepsBalance<T>(s: State<T>, regions: Regions, r: nat, c: nat)
    requires RegionsDistinct(regions) && Sized(s, regions) && Enabled(s, regions, Submit(r))
    requires c < |s.queues| && Balanced(s, regions, c)
    ensures Sized(Apply(s, regions, Submit(r)), regions) && Balanced(Apply(s, regions, Submit(r)), regions, c)
  {
    RequiredIsOne(regions[r], c);
    ConsumedIsTotal(regions[r], s.tokens, c);
    OneMoreIteration(s.iterations, regions, r, c);
  }

  lemma StepKeepsBalance<T>(s: State<T>, regions: Regions, step: Step<T>, c: nat)
    requires RegionsDistinct(regions) && Sized(s, regions) && Enabled(s, regions, step)
    requires c < |s.queues| && Balanced(s, regions, c)
    ensures Sized(Apply(s, regions, step), regions) && Balanced(Apply(s, regions, step), regions, c)
  {
    match step
    case Push(channel, value) =>
      if channel == c {
        assert ([value] + s.queues[c])[1..] == s.queues[c];
      }
    case Release(_) =>
    case Submit(r) => SubmitKeepsBalance(s, regions, r, c);
    case Receive(channel) =>
      if channel == c {
        ReversedLast(s.queues[c]);
      }
  }

  lemma {:induction false} RunKeepsInvariant<T>(states: seq<State<T>>, steps: seq<Step<T>>, regions: Regions, i: nat)
    requires RegionsDistinct(regions) && IsRun(states, steps, regions) && i < |states|
    ensures Invariant(states[i], regions)
  {
    if i == 0 {
      forall c: nat | c < |states[0].queues|
        ensures Balanced(states[0], regions, c)
      {
        NothingConsumed(states[0].iterations, regions, c);
      }
    } else {
      RunKeepsInvariant(states, steps, regions, i - 1);
      assert states[i - 1 + 1] == Apply(states[i - 1], regions, steps[i - 1]);
      forall c: nat | c < |states[i].queues|
        ensures Sized(states[i], regions) && Balanced(states[i], regions, c)
      {
        StepKeepsBalance(states[i - 1], regions, steps[i - 1], c);
      }
      StepKeepsSizes(states[i - 1], regions, steps[i - 1]);
    }
  }

  lemma StepKeepsSizes<T>(s: State<T>, regions: Regions, step: Step<T>)
    requires Sized(s, regions) && Enabled(s, regions, step)
    ensures Sized(Apply(s, regions, step), regions)
  {
  }

  /** In every run, every pop of a submitted iteration finds a value. */
  lemma ReceiveFindsAValue<T>(states: seq<State<T>>, steps: seq<Step<T>>, regions: Regions, i: nat, c: nat)
    requires RegionsDistinct(regions) && IsRun(states, steps, regions) && i < |states|
    requires Sized(states[i], regions) && Enabled(states[i], regions, Receive(c))
    ensures states[i].queues[c] != []
  {
    RunKeepsInvariant(states, steps, regions, i);
    assert Balanced(states[i], regions, c);
  }

  /** In every run, the values received on a channel are the first values sent on it, in order. */
  lemma ReceivedInSendingOrder<T>(states: seq<State<T>>, steps: seq<Step<T>>, regions: Regions, i: nat, c: nat)
    requires RegionsDistinct(regions) && IsRun(states, steps, regions) && i < |states|
    requires Sized(states[i], regions) && c < |states[i].queues|
    ensures states[i].received[c] <= states[i].sent[c]
  {
    RunKeepsInvariant(states, steps, regions, i);
    assert Balanced(states[i], regions, c);
  }

  /** In every run, tokens released equal tokens left plus iterations times requirement. */
  lemma TokensAreConserved<T>(states: seq<State<T>>, steps: seq<Step<T>>, regions: Regions, i: nat, c: nat)
    requires RegionsDistinct(regions) && IsRun(states, steps, regions) && i < |states|
    requires Sized(states[i], regions) && c < |states[i].queues|
    ensures states[i].released[c] == states[i].tokens[c] + ConsumedBy(states[i].iterations, regions, c)
  {
    RunKeepsInvariant(states, steps, regions, i);
    assert Balanced(states[i], regions, c);
  }

  /**
   * In every run a channel can be popped exactly while the iterations submitted so far
   * have required more values of it than were received, and a token can be released for
   * every value sent, once, up to the counter's limit.
   */
  lemma WhatCanHappen<T>(states: seq<State<T>>, steps: seq<Step<T>>, regions: Regions, i: nat, c: nat, value: T)
    requires RegionsDistinct(regions) && IsRun(states, steps, regions) && i < |states|
    requires Sized(states[i], regions) && c < |states[i].queues|
    ensures Enabled(states[i], regions, Receive(c)) <==> |states[i].received[c]| < ConsumedBy(states[i].iterations, regions, c)
    ensures Enabled(states[i], regions, Release(c)) <==>
      states[i].released[c] < |states[i].sent[c]| && states[i].tokens[c] < TOKEN_VALUES - 1
    ensures Enabled(states[i], regions, Push(c, value))
  {
    RunKeepsInvariant(states, steps, regions, i);
    assert Balanced(states[i], regions, c);
  }
}
