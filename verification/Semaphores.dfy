/** The token counters of the named semaphores, and what a feedback region consumes from them. */
module Semaphores {
  import opened Wrappers

  /** The number of values of a 64-bit token counter. */
  const TOKEN_VALUES: nat := 0x1_0000_0000_0000_0000

  datatype Requirement = Requirement(semaphore: nat, count: nat)

  /** Subtraction of 64-bit counters. */
  function Minus(a: nat, b: nat): nat
    requires b < TOKEN_VALUES
  {
    if b <= a then a - b else a + TOKEN_VALUES - b
  }

  /** How many tokens of a semaphore the list requires in all. */
  function Required(list: seq<Requirement>, semaphore: nat): nat {
    if list == [] then 0
    else Required(list[..|list| - 1], semaphore) + (if list[|list| - 1].semaphore == semaphore then list[|list| - 1].count else 0)
  }

  predicate InRange(list: seq<Requirement>, n: nat) {
    forall i | 0 <= i < |list| :: list[i].semaphore < n && list[i].count < TOKEN_VALUES
  }

  /** The check made before anything is consumed: each requirement for itself. */
  predicate Covered(list: seq<Requirement>, tokens: seq<nat>)
    requires InRange(list, |tokens|)
  {
    forall i | 0 <= i < |list| :: list[i].count <= tokens[list[i].semaphore]
  }

  /** No semaphore has two requirements that both ask for tokens. */
  predicate NoSharedSemaphore(list: seq<Requirement>) {
    forall i, j | 0 <= i < j < |list| && list[i].semaphore == list[j].semaphore :: list[i].count == 0 || list[j].count == 0
  }

  lemma {:induction false} RequiredCounts(list: seq<Requirement>, i: nat)
    requires i < |list|
    ensures Required(list, list[i].semaphore) >= list[i].count
  {
    var last := |list| - 1;
    if i < last {
      RequiredCounts(list[..last], i);
    }
  }

  lemma {:induction false} RequiredOfTwo(list: seq<Requirement>, i: nat, j: nat)
    requires i < j < |list| && list[i].semaphore == list[j].semaphore
    ensures Required(list, list[i].semaphore) >= list[i].count + list[j].count
  {
    var last := |list| - 1;
    if j < last {
      RequiredOfTwo(list[..last], i, j);
    } else {
      RequiredCounts(list[..last], i);
    }
  }

  /** Without shared semaphores, the total is one of the requirements, or nothing. */
  lemma {:induction false} RequiredIsOne(list: seq<Requirement>, semaphore: nat)
    requires NoSharedSemaphore(list)
    ensures Required(list, semaphore) == 0 || exists i: nat :: i < |list| && list[i].semaphore == semaphore && Required(list, semaphore) == list[i].count
  {
    if list != [] {
      var last := |list| - 1;
      RequiredIsOne(list[..last], semaphore);
      if Required(list[..last], semaphore) != 0 {
        var i: nat :| i < last && list[..last][i].semaphore == semaphore && Required(list[..last], semaphore) == list[..last][i].count;
        assert list[i].semaphore == semaphore;
      }
    }
  }

  /**
   * Checking the requirements one by one covers the total, whatever tokens there
   * are, exactly when no semaphore has two requirements that ask for tokens.
   */
  lemma CheckCoversTotalExactly(list: seq<Requirement>, n: nat)
    requires InRange(list, n)
    ensures NoSharedSemaphore(list) <==>
      forall tokens: seq<nat>, s: nat | |tokens| == n && Covered(list, tokens) && s < n :: Required(list, s) <= tokens[s]
  {
    if NoSharedSemaphore(list) {
      forall tokens: seq<nat>, s: nat | |tokens| == n && Covered(list, tokens) && s < n
        ensures Required(list, s) <= tokens[s]
      {
        RequiredIsOne(list, s);
      }
    } else {
      var i, j :| 0 <= i < j < |list| && list[i].semaphore == list[j].semaphore && list[i].count != 0 && list[j].count != 0;
      var s := list[i].semaphore;
      RequiredOfTwo(list, i, j);
      var tokens := seq(n, x requires 0 <= x < n => Largest(list, x));
      forall k | 0 <= k < |list|
        ensures list[k].count <= tokens[list[k].semaphore]
      {
        LargestIsReached(list, list[k].semaphore);
      }
      assert Covered(list, tokens);
      LargestIsReached(list, s);
      var k: nat :| k < |list| && list[k].semaphore == s && list[k].count == Largest(list, s);
      if k < i {
        RequiredOfTwo(list, k, i);
      } else if k == i {
        RequiredOfTwo(list, i, j);
      } else {
        RequiredOfTwo(list, i, k);
      }
      assert Required(list, s) > tokens[s];
    }
  }

  /** The largest single requirement of a semaphore. */
  function Largest(list: seq<Requirement>, semaphore: nat): nat {
    if list == [] then 0
    else
      var rest := Largest(list[..|list| - 1], semaphore);
      var last := list[|list| - 1];
      if last.semaphore == semaphore && last.count >= rest then last.count else rest
  }

  lemma {:induction false} LargestIsReached(list: seq<Requirement>, semaphore: nat)
    ensures forall k | 0 <= k < |list| && list[k].semaphore == semaphore :: list[k].count <= Largest(list, semaphore)
    ensures Largest(list, semaphore) == 0 || exists k: nat :: k < |list| && list[k].semaphore == semaphore && list[k].count == Largest(list, semaphore)
  {
    if list != [] {
      var last := |list| - 1;
      LargestIsReached(list[..last], semaphore);
      var rest := Largest(list[..last], semaphore);
      if rest != 0 && Largest(list, semaphore) == rest {
        var k: nat :| k < last && list[..last][k].semaphore == semaphore && list[..last][k].count == rest;
        assert list[k].count == rest;
      } else if list[last].semaphore == semaphore {
        assert list[last].count == Largest(list, semaphore) || Largest(list, semaphore) == 0;
      }
      forall k | 0 <= k < |list| && list[k].semaphore == semaphore
        ensures list[k].count <= Largest(list, semaphore)
      {
        if k < last {
          assert list[..last][k] == list[k];
        }
      }
    }
  }

  /** The tokens left after consuming a list of requirements. */
  function Consumed(list: seq<Requirement>, tokens: seq<nat>): (left: seq<nat>)
    requires InRange(list, |tokens|)
    ensures |left| == |tokens|
  {
    if list == [] then tokens
    else
      var left := Consumed(list[..|list| - 1], tokens);
      var last := list[|list| - 1];
      left[last.semaphore := Minus(left[last.semaphore], last.count)]
  }

  lemma {:induction false} ConsumedIsTotal(list: seq<Requirement>, tokens: seq<nat>, s: nat)
    requires InRange(list, |tokens|) && s < |tokens| && Required(list, s) <= tokens[s]
    ensures Consumed(list, tokens)[s] == tokens[s] - Required(list, s)
  {
    if list != [] {
      ConsumedIsTotal(list[..|list| - 1], tokens, s);
    }
  }

  /**
   * Whatever is required, the counters subtract it modulo their size: what is left is
   * the difference exactly when the total is covered, and else wraps around.
   */
  lemma {:induction false} ConsumedWraps(list: seq<Requirement>, tokens: seq<nat>, s: nat) returns (wraps: nat)
    requires InRange(list, |tokens|) && s < |tokens| && tokens[s] < TOKEN_VALUES
    ensures Consumed(list, tokens)[s] < TOKEN_VALUES
    ensures Consumed(list, tokens)[s] + Required(list, s) == tokens[s] + wraps * TOKEN_VALUES
    ensures wraps == 0 <==> Required(list, s) <= tokens[s]
  {
    wraps := 0;
    if list != [] {
      var last := list[|list| - 1];
      wraps := ConsumedWraps(list[..|list| - 1], tokens, s);
      if last.semaphore == s && last.count > Consumed(list[..|list| - 1], tokens)[s] {
        wraps := wraps + 1;
      }
    }
  }

  class TokenTable {
    const names: seq<string>
    const tokens: array<nat>

    constructor (semaphoreNames: seq<string>)
      ensures names == semaphoreNames && tokens.Length == |names| && fresh(tokens)
      ensures forall s | 0 <= s < |names| :: tokens[s] == 0
    {
      names := semaphoreNames;
      tokens := new nat[|semaphoreNames|](_ => 0);
    }

    /** Adds tokens to the first semaphore of that name; an unknown name or an overflow changes nothing. */
    method Release(name: string, count: nat) returns (r: Result<()>)
      requires tokens.Length == |names|
      modifies tokens
      ensures count == 0 ==> r.Success? && tokens[..] == old(tokens[..])
      ensures r.Failure? ==> tokens[..] == old(tokens[..])
      ensures count != 0 && name !in names ==> r.Failure?
      ensures count != 0 && name in names ==>
        exists s: nat :: s < |names| && names[s] == name && name !in names[..s]
          && (r.Success? <==> old(tokens[s]) + count < TOKEN_VALUES)
          && (r.Success? ==> tokens[..] == old(tokens[..])[s := old(tokens[s]) + count])
    {
      if count == 0 {
        return Success(());
      }
      for index := 0 to |names|
        invariant name !in names[..index] && tokens[..] == old(tokens[..])
      {
        if names[index] == name {
          if count > TOKEN_VALUES - 1 - tokens[index] {
            return Failure("semaphore token count overflow");
          }
          tokens[index] := tokens[index] + count;
          return Success(());
        }
        assert names[..index + 1] == names[..index] + [names[index]];
      }
      assert names[..|names|] == names;
      return Failure("semaphore name is not declared");
    }

    method TryConsumeToken(s: nat) returns (r: Result<bool>)
      modifies tokens
      ensures r.Success? <==> s < tokens.Length
      ensures r.Success? ==> r.value == (old(tokens[s]) != 0)
      ensures tokens[..] == if r.Success? && r.value then old(tokens[..])[s := old(tokens[s]) - 1] else old(tokens[..])
    {
      if s >= tokens.Length {
        return Failure("compiled semaphore is out of range");
      }
      if tokens[s] == 0 {
        return Success(false);
      }
      tokens[s] := tokens[s] - 1;
      return Success(true);
    }

    /**
     * Consumes everything a region requires, or nothing. With distinct semaphores
     * each loses exactly its total.
     */
    method TryConsumeTokens(list: seq<Requirement>) returns (r: Result<bool>)
      requires forall i | 0 <= i < |list| :: list[i].count < TOKEN_VALUES
      modifies tokens
      ensures r.Failure? ==> !InRange(list, tokens.Length)
      ensures InRange(list, tokens.Length) ==> r == Success(Covered(list, old(tokens[..])))
      ensures r != Success(true) ==> tokens[..] == old(tokens[..])
      ensures r == Success(true) ==> InRange(list, tokens.Length) && tokens[..] == Consumed(list, old(tokens[..]))
      ensures r == Success(true) && NoSharedSemaphore(list) ==> forall s: nat | s < tokens.Length ::
        Required(list, s) <= old(tokens[s]) && tokens[s] == old(tokens[s]) - Required(list, s)
    {
      for index := 0 to |list|
        invariant forall i | 0 <= i < index :: list[i].semaphore < tokens.Length && list[i].count <= tokens[list[i].semaphore]
      {
        if list[index].semaphore >= tokens.Length {
          return Failure("feedback token requirement is invalid");
        }
        if tokens[list[index].semaphore] < list[index].count {
          return Success(false);
        }
      }
      for index := 0 to |list|
        invariant tokens[..] == Consumed(list[..index], old(tokens[..]))
      {
        assert list[..index + 1][..index] == list[..index];
        var s := list[index].semaphore;
        tokens[s] := Minus(tokens[s], list[index].count);
      }
      assert list[..|list|] == list;
      if NoSharedSemaphore(list) {
        forall s: nat | s < tokens.Length
          ensures Required(list, s) <= old(tokens[s]) && tokens[s] == old(tokens[s]) - Required(list, s)
        {
          RequiredIsOne(list, s);
          ConsumedIsTotal(list, old(tokens[..]), s);
        }
      }
      return Success(true);
    }
  }
}
