/**
 * Determinacy: tasks that touch the store only as their accesses declare compute
 * the recorded result in every order that keeps conflicting tasks in place, and
 * hence in every schedule of the planned jobs.
 */
module Determinacy {
  import opened Graphs
  import opened ProgramData
  import opened OpStream
  import opened JobPlan
  import opened Schedules

  /** An operation: its declared accesses and what it does to the store of resources. */
  datatype Task<!V> = Task(accesses: seq<Access>, effect: seq<V> -> seq<V>)

  predicate Accesses(accesses: seq<Access>, r: nat) {
    exists a | a in accesses :: a.resource == r
  }

  predicate Writes(accesses: seq<Access>, r: nat) {
    exists a | a in accesses :: a.resource == r && a.mode != Read
  }

  /** The stores hold the same values in all accessed resources. */
  predicate AgreeOn<V(==)>(s: seq<V>, t: seq<V>, accesses: seq<Access>) {
    |s| == |t| && forall r | 0 <= r < |s| && Accesses(accesses, r) :: s[r] == t[r]
  }

  /** A task that changes only what it accesses in a non-read mode, depending only on what it accesses. */
  ghost predicate HonoursAccesses<V(!new)>(task: Task<V>, n: nat) {
    && (forall s: seq<V> | |s| == n :: |task.effect(s)| == n)
    && (forall s: seq<V>, r: nat | |s| == n && r < n && !Writes(task.accesses, r) :: task.effect(s)[r] == s[r])
    && (forall s: seq<V>, t: seq<V>, r: nat {:trigger task.effect(s), task.effect(t)[r]} |
          |s| == n && |t| == n && r < n && AgreeOn(s, t, task.accesses) && Writes(task.accesses, r) ::
          task.effect(s)[r] == task.effect(t)[r])
  }

  predicate InRange(order: seq<nat>, n: nat) {
    forall p | 0 <= p < |order| :: order[p] < n
  }

  /** The store after running the listed tasks in order. */
  function Run<V>(tasks: seq<Task<V>>, order: seq<nat>, store: seq<V>): seq<V>
    requires InRange(order, |tasks|)
  {
    if order == [] then store
    else tasks[order[|order| - 1]].effect(Run(tasks, order[..|order| - 1], store))
  }

  /** The recorded order of n tasks. */
  function RecordedOrder(n: nat): (order: seq<nat>)
    ensures |order| == n && forall i | 0 <= i < n :: order[i] == i
  {
    seq(n, i => i)
  }

  /** Conflicting tasks run in recorded order: an inverted pair never conflicts. */
  predicate KeepsConflicts<V>(tasks: seq<Task<V>>, order: seq<nat>)
    requires InRange(order, |tasks|)
  {
    forall p, q | 0 <= p < q < |order| && order[q] < order[p] :: !Conflict(tasks[order[q]].accesses, tasks[order[p]].accesses)
  }

  ghost predicate AllHonour<V(!new)>(tasks: seq<Task<V>>, n: nat) {
    forall i | 0 <= i < |tasks| :: HonoursAccesses(tasks[i], n)
  }

  lemma ConflictSymmetric(a: seq<Access>, b: seq<Access>)
    ensures Conflict(a, b) <==> Conflict(b, a)
  {
    if Conflict(a, b) {
      var x, y :| x in a && y in b && AccessesConflict(x, y);
      assert AccessesConflict(y, x);
    }
    if Conflict(b, a) {
      var x, y :| x in b && y in a && AccessesConflict(x, y);
      assert AccessesConflict(y, x);
    }
  }

  lemma NoConflictNoWrite(a: seq<Access>, b: seq<Access>, r: nat)
    requires !Conflict(a, b) && Accesses(a, r)
    ensures !Writes(b, r)
  {
    if Writes(b, r) {
      var x :| x in a && x.resource == r;
      var y :| y in b && y.resource == r && y.mode != Read;
      assert AccessesConflict(x, y);
    }
  }

  /** A task leaves alone what a task without conflict accesses. */
  lemma IndependentTaskIsInvisible<V(!new)>(task: Task<V>, accesses: seq<Access>, s: seq<V>)
    requires HonoursAccesses(task, |s|) && !Conflict(accesses, task.accesses)
    ensures AgreeOn(task.effect(s), s, accesses)
  {
    forall r: nat | r < |s| && Accesses(accesses, r)
      ensures task.effect(s)[r] == s[r]
    {
      NoConflictNoWrite(accesses, task.accesses, r);
    }
  }

  lemma IndependentTasksCommute<V(!new)>(a: Task<V>, b: Task<V>, s: seq<V>)
    requires HonoursAccesses(a, |s|) && HonoursAccesses(b, |s|) && !Conflict(a.accesses, b.accesses)
    ensures a.effect(b.effect(s)) == b.effect(a.effect(s))
  {
    ConflictSymmetric(a.accesses, b.accesses);
    IndependentTaskIsInvisible(b, a.accesses, s);
    IndependentTaskIsInvisible(a, b.accesses, s);
    var ab, ba := a.effect(b.effect(s)), b.effect(a.effect(s));
    forall r: nat | r < |s|
      ensures ab[r] == ba[r]
    {
      if Writes(a.accesses, r) {
        assert Accesses(a.accesses, r);
        NoConflictNoWrite(a.accesses, b.accesses, r);
        assert ba[r] == a.effect(s)[r];
      } else if Writes(b.accesses, r) {
        assert Accesses(b.accesses, r);
        assert ab[r] == b.effect(s)[r];
      }
    }
  }

  /** Running the tasks in the other order ends in another store, or shows one of them another value. */
  ghost predicate OrderMatters<V(!new)>(a: Task<V>, b: Task<V>, s: seq<V>) {
    || a.effect(b.effect(s)) != b.effect(a.effect(s))
    || !AgreeOn(s, b.effect(s), a.accesses)
    || !AgreeOn(s, a.effect(s), b.accesses)
  }

  /** Some tasks that honour these accesses, on some store of two-valued resources, make the order matter. */
  ghost predicate OrderCanMatter(earlier: seq<Access>, later: seq<Access>) {
    exists a: Task<bool>, b: Task<bool>, s: seq<bool> ::
      && a.accesses == earlier && b.accesses == later
      && HonoursAccesses(a, |s|) && HonoursAccesses(b, |s|) && OrderMatters(a, b, s)
  }

  function Flipped(accesses: seq<Access>, s: seq<bool>): (t: seq<bool>)
    ensures |t| == |s| && forall r | 0 <= r < |s| :: t[r] == (if Writes(accesses, r) then !s[r] else s[r])
  {
    seq(|s|, r requires 0 <= r < |s| => if Writes(accesses, r) then !s[r] else s[r])
  }

  /** The task that flips everything it may write. */
  function Flip(accesses: seq<Access>): Task<bool> {
    Task(accesses, s => Flipped(accesses, s))
  }

  lemma FlipHonours(accesses: seq<Access>, n: nat)
    ensures HonoursAccesses(Flip(accesses), n)
  {
    forall s: seq<bool>, t: seq<bool>, r: nat | |s| == n && |t| == n && r < n && AgreeOn(s, t, accesses) && Writes(accesses, r)
      ensures Flip(accesses).effect(s)[r] == Flip(accesses).effect(t)[r]
    {
      assert Accesses(accesses, r);
    }
  }

  /** One of the lists accesses a resource that the other writes. */
  lemma ConflictMeets(a: seq<Access>, b: seq<Access>) returns (r: nat)
    requires Conflict(a, b)
    ensures (Accesses(a, r) && Writes(b, r)) || (Writes(a, r) && Accesses(b, r))
  {
    var x, y :| x in a && y in b && AccessesConflict(x, y);
    r := x.resource;
  }

  lemma FlippingIsSeen(accesses: seq<Access>, other: seq<Access>, r: nat, s: seq<bool>)
    requires Accesses(accesses, r) && Writes(other, r) && r < |s|
    ensures !AgreeOn(s, Flip(other).effect(s), accesses)
  {
    assert Flip(other).effect(s)[r] != s[r];
  }

  /** Operations conflict exactly when the order of some tasks with their accesses can matter. */
  lemma ConflictIsOrderDependence(earlier: seq<Access>, later: seq<Access>)
    ensures Conflict(earlier, later) <==> OrderCanMatter(earlier, later)
  {
    if Conflict(earlier, later) {
      var r := ConflictMeets(earlier, later);
      var s := seq(r + 1, _ => false);
      FlipHonours(earlier, |s|);
      FlipHonours(later, |s|);
      if Accesses(earlier, r) && Writes(later, r) {
        FlippingIsSeen(earlier, later, r, s);
      } else {
        FlippingIsSeen(later, earlier, r, s);
      }
      assert OrderMatters(Flip(earlier), Flip(later), s);
    } else {
      forall a: Task<bool>, b: Task<bool>, s: seq<bool>
        | a.accesses == earlier && b.accesses == later && HonoursAccesses(a, |s|) && HonoursAccesses(b, |s|)
        ensures !OrderMatters(a, b, s)
      {
        OrderNeverMatters(a, b, s);
      }
    }
  }

  lemma OrderNeverMatters<V(!new)>(a: Task<V>, b: Task<V>, s: seq<V>)
    requires HonoursAccesses(a, |s|) && HonoursAccesses(b, |s|) && !Conflict(a.accesses, b.accesses)
    ensures !OrderMatters(a, b, s)
  {
    ConflictSymmetric(a.accesses, b.accesses);
    IndependentTasksCommute(a, b, s);
    IndependentTaskIsInvisible(a, b.accesses, s);
    IndependentTaskIsInvisible(b, a.accesses, s);
  }

  /** A recorded operation waits for exactly the earlier ones whose order with it can matter: for no fewer and no more. */
  lemma RecordedPredecessorsAreNeeded(ops: seq<Operation>, j: nat, i: nat)
    requires Recorded(ops) && j < i < |ops|
    ensures j in ops[i].predecessors <==> OrderCanMatter(ops[j].accesses, ops[i].accesses)
  {
    ConflictIsOrderDependence(ops[j].accesses, ops[i].accesses);
  }

  /** Operations that only read the resources they share never wait for one another. */
  lemma SharedReadsAreUnordered(ops: seq<Operation>, j: nat, i: nat)
    requires Recorded(ops) && i < |ops| && j < |ops|
    requires forall x, y | x in ops[j].accesses && y in ops[i].accesses && x.resource == y.resource :: x.mode == Read && y.mode == Read
    ensures j !in ops[i].predecessors
  {
    forall x, y | x in ops[j].accesses && y in ops[i].accesses
      ensures !AccessesConflict(x, y)
    {
    }
    assert !Conflict(ops[j].accesses, ops[i].accesses);
  }

  lemma {:induction false} RunKeepsLength<V(!new)>(tasks: seq<Task<V>>, order: seq<nat>, s: seq<V>)
    requires InRange(order, |tasks|) && AllHonour(tasks, |s|)
    ensures |Run(tasks, order, s)| == |s|
  {
    if order != [] {
      RunKeepsLength(tasks, order[..|order| - 1], s);
    }
  }

  lemma {:induction false} RunConcat<V>(tasks: seq<Task<V>>, first: seq<nat>, second: seq<nat>, s: seq<V>)
    requires InRange(first, |tasks|) && InRange(second, |tasks|)
    ensures Run(tasks, first + second, s) == Run(tasks, second, Run(tasks, first, s))
  {
    if second == [] {
      assert first + second == first;
    } else {
      var init := second[..|second| - 1];
      assert (first + second)[..|first + second| - 1] == first + init;
      RunConcat(tasks, first, init, s);
    }
  }

  lemma RunOne<V>(tasks: seq<Task<V>>, x: nat, s: seq<V>)
    requires x < |tasks|
    ensures Run(tasks, [x], s) == tasks[x].effect(s)
  {
    assert [x][..0] == [];
  }

  /** A task moves behind tasks it does not conflict with. */
  lemma {:induction false} MoveBehind<V(!new)>(tasks: seq<Task<V>>, x: nat, others: seq<nat>, s: seq<V>)
    requires x < |tasks| && AllHonour(tasks, |s|)
    requires InRange(others, |tasks|)
    requires forall p | 0 <= p < |others| :: !Conflict(tasks[others[p]].accesses, tasks[x].accesses)
    ensures Run(tasks, [x] + others, s) == tasks[x].effect(Run(tasks, others, s))
  {
    if others == [] {
      assert [x] + others == [x];
      RunOne(tasks, x, s);
    } else {
      var init, last := others[..|others| - 1], others[|others| - 1];
      assert ([x] + others)[..|others|] == [x] + init;
      MoveBehind(tasks, x, init, s);
      RunKeepsLength(tasks, init, s);
      IndependentTasksCommute(tasks[last], tasks[x], Run(tasks, init, s));
    }
  }

  lemma OrderInRange(order: seq<nat>, n: nat)
    requires IsOrder(order, n)
    ensures InRange(order, n)
  {
    assert forall p | 0 <= p < |order| :: order[p] in order;
  }

  lemma HeadIsMember(order: seq<nat>)
    ensures order == [] || exists v: nat :: v in order
  {
    if order != [] {
      assert order[0] in order;
    }
  }

  lemma OrderOfNothing(order: seq<nat>)
    requires IsOrder(order, 0)
    ensures order == []
  {
    HeadIsMember(order);
  }

  /** Leaving out the greatest number of an order. */
  lemma OrderWithoutLast(front: seq<nat>, back: seq<nat>, n: nat)
    requires IsOrder(front + [n] + back, n + 1)
    ensures IsOrder(front + back, n)
  {
    var order, rest := front + [n] + back, front + back;
    forall p, q | 0 <= p < q < |rest|
      ensures rest[p] != rest[q]
    {
      RestAt(front, n, back, p);
      RestAt(front, n, back, q);
    }
    forall v: nat
      ensures v in rest <==> v < n
    {
      assert v in order <==> v in front || v == n || v in back;
      assert order[|front|] == n;
      if v in rest {
        var p :| 0 <= p < |rest| && rest[p] == v;
        RestAt(front, n, back, p);
      }
    }
  }

  lemma SplitAtLast<V>(tasks: seq<Task<V>>, order: seq<nat>, n: nat) returns (front: seq<nat>, back: seq<nat>)
    requires n < |tasks| && IsOrder(order, n + 1) && InRange(order, |tasks|) && KeepsConflicts(tasks, order)
    ensures order == front + [n] + back
    ensures IsOrder(front + back, n) && InRange(front + back, |tasks|) && KeepsConflicts(tasks, front + back)
    ensures InRange(front, |tasks|) && InRange(back, |tasks|)
    ensures forall p | 0 <= p < |back| :: !Conflict(tasks[back[p]].accesses, tasks[n].accesses)
  {
    assert n in order;
    var k :| 0 <= k < |order| && order[k] == n;
    front, back := order[..k], order[k + 1..];
    assert order == front + [n] + back;
    OrderWithoutLast(front, back, n);
    OrderInRange(front + back, n);
    RestKeepsConflicts(tasks, front, n, back);
  }

  lemma RestKeepsConflicts<V>(tasks: seq<Task<V>>, front: seq<nat>, n: nat, back: seq<nat>)
    requires n < |tasks| && InRange(front + [n] + back, |tasks|) && KeepsConflicts(tasks, front + [n] + back)
    requires InRange(front + back, n)
    ensures InRange(front, |tasks|) && InRange(back, |tasks|) && InRange(front + back, |tasks|)
    ensures KeepsConflicts(tasks, front + back)
    ensures forall p | 0 <= p < |back| :: !Conflict(tasks[back[p]].accesses, tasks[n].accesses)
  {
    PartsInRange(tasks, front, n, back);
    var order, rest := front + [n] + back, front + back;
    forall p, q | 0 <= p < q < |rest| && rest[q] < rest[p]
      ensures !Conflict(tasks[rest[q]].accesses, tasks[rest[p]].accesses)
    {
      RestAt(front, n, back, p);
      RestAt(front, n, back, q);
    }
    forall p | 0 <= p < |back|
      ensures !Conflict(tasks[back[p]].accesses, tasks[n].accesses)
    {
      assert order[|front|] == n && order[|front| + 1 + p] == back[p] && rest[|front| + p] == back[p];
    }
  }

  lemma RestAt(front: seq<nat>, n: nat, back: seq<nat>, p: nat)
    requires p < |front + back|
    ensures (front + back)[p] == (front + [n] + back)[if p < |front| then p else p + 1]
  {
  }

  /** Every order that keeps conflicts computes the store of the recorded order. */
  lemma {:induction false} ConflictOrderDeterminesStore<V(!new)>(tasks: seq<Task<V>>, order: seq<nat>, n: nat, s: seq<V>)
    requires n <= |tasks| && AllHonour(tasks, |s|)
    requires IsOrder(order, n) && InRange(order, |tasks|) && KeepsConflicts(tasks, order)
    ensures Run(tasks, order, s) == Run(tasks, RecordedOrder(n), s)
    decreases n
  {
    if n == 0 {
      OrderOfNothing(order);
    } else {
      var front, back := SplitAtLast(tasks, order, n - 1);
      ConflictOrderDeterminesStore(tasks, front + back, n - 1, s);
      LastTaskRunsLast(tasks, front, n - 1, back, s);
      assert order == front + ([n - 1] + back);
      RecordedRunsLast(tasks, n, s);
    }
  }

  lemma RecordedRunsLast<V>(tasks: seq<Task<V>>, n: nat, s: seq<V>)
    requires 0 < n <= |tasks|
    ensures Run(tasks, RecordedOrder(n), s) == tasks[n - 1].effect(Run(tasks, RecordedOrder(n - 1), s))
  {
    assert RecordedOrder(n)[..n - 1] == RecordedOrder(n - 1);
  }

  lemma LastTaskRunsLast<V(!new)>(tasks: seq<Task<V>>, front: seq<nat>, x: nat, back: seq<nat>, s: seq<V>)
    requires x < |tasks| && AllHonour(tasks, |s|) && InRange(front, |tasks|) && InRange(back, |tasks|)
    requires forall p | 0 <= p < |back| :: !Conflict(tasks[back[p]].accesses, tasks[x].accesses)
    ensures Run(tasks, front + ([x] + back), s) == tasks[x].effect(Run(tasks, front + back, s))
  {
    RunConcat(tasks, front, [x] + back, s);
    RunKeepsLength(tasks, front, s);
    MoveBehind(tasks, x, back, Run(tasks, front, s));
    RunConcat(tasks, front, back, s);
  }

  /** Running tasks without conflict with `accesses` does not change what `accesses` sees. */
  lemma {:induction false} IndependentRunIsInvisible<V(!new)>(tasks: seq<Task<V>>, others: seq<nat>, accesses: seq<Access>, s: seq<V>)
    requires AllHonour(tasks, |s|)
    requires InRange(others, |tasks|)
    requires forall p | 0 <= p < |others| :: !Conflict(accesses, tasks[others[p]].accesses)
    ensures AgreeOn(Run(tasks, others, s), s, accesses)
  {
    if others != [] {
      var init, last := others[..|others| - 1], others[|others| - 1];
      IndependentRunIsInvisible(tasks, init, accesses, s);
      RunKeepsLength(tasks, init, s);
      IndependentTaskIsInvisible(tasks[last], accesses, Run(tasks, init, s));
    }
  }

  /**
   * In every order that keeps conflicts each task finds, in the resources it
   * accesses, the values it found in the recorded order.
   */
  lemma {:induction false} TaskObservesRecordedValues<V(!new)>(
      tasks: seq<Task<V>>, earlier: seq<nat>, i: nat, later: seq<nat>, n: nat, s: seq<V>)
    requires n <= |tasks| && AllHonour(tasks, |s|)
    requires IsOrder(earlier + [i] + later, n) && InRange(earlier + [i] + later, |tasks|) && InRange(earlier, |tasks|)
    requires KeepsConflicts(tasks, earlier + [i] + later)
    ensures i < n
    ensures AgreeOn(Run(tasks, earlier, s), Run(tasks, RecordedOrder(i), s), tasks[i].accesses)
    decreases n
  {
    var order := earlier + [i] + later;
    assert order[|earlier|] == i && i in order;
    var front, back := SplitAtLast(tasks, order, n - 1);
    if i == n - 1 {
      SplitIsUnique(earlier, later, front, back, i, i);
      ConflictOrderDeterminesStore(tasks, front + back, n - 1, s);
      LaterTasksAreInvisible(tasks, front, i, back, s);
    } else if |front| > |earlier| {
      var between := SplitBetween(earlier, i, later, front, n - 1, back);
      PartsInRange(tasks, earlier, i, between + back);
      TaskObservesRecordedValues(tasks, earlier, i, between + back, n - 1, s);
    } else {
      var between := SplitBetween(front, n - 1, back, earlier, i, later);
      PartsInRange(tasks, front + between, i, later);
      TaskObservesRecordedValues(tasks, front + between, i, later, n - 1, s);
      NoConflictInParts(tasks, between, i, later, n - 1);
      PartsInRange(tasks, front, i, between);
      EarlierTaskIsInvisible(tasks, front, n - 1, between, i, s);
    }
  }

  /** The part between two elements of a sequence that is split around each of them. */
  lemma SplitBetween(a: seq<nat>, x: nat, b: seq<nat>, c: seq<nat>, y: nat, d: seq<nat>) returns (between: seq<nat>)
    requires a + [x] + b == c + [y] + d && |a| <= |c| && x != y && NoDuplicates(a + [x] + b)
    ensures c == a + ([x] + between) && b == between + [y] + d
    ensures a + b == (a + between) + [y] + d && c + d == a + [x] + (between + d)
  {
    SplitIsUnique(a, b, c, d, x, y);
    between := c[|a| + 1..];
  }

  lemma PartsInRange<V>(tasks: seq<Task<V>>, a: seq<nat>, x: nat, b: seq<nat>)
    requires InRange(a + [x] + b, |tasks|) || (x < |tasks| && InRange(a + b, |tasks|))
    ensures InRange(a, |tasks|) && InRange(b, |tasks|) && x < |tasks|
  {
    assert (a + [x] + b)[|a|] == x;
    forall p | 0 <= p < |a|
      ensures a[p] < |tasks|
    {
      assert (a + [x] + b)[p] == a[p] && (a + b)[p] == a[p];
    }
    forall p | 0 <= p < |b|
      ensures b[p] < |tasks|
    {
      assert (a + [x] + b)[|a| + 1 + p] == b[p] && (a + b)[|a| + p] == b[p];
    }
  }

  lemma NoConflictInParts<V>(tasks: seq<Task<V>>, between: seq<nat>, i: nat, later: seq<nat>, x: nat)
    requires x < |tasks| && InRange(between + [i] + later, |tasks|)
    requires forall p | 0 <= p < |between + [i] + later| :: !Conflict(tasks[(between + [i] + later)[p]].accesses, tasks[x].accesses)
    ensures InRange(between, |tasks|) && i < |tasks| && !Conflict(tasks[i].accesses, tasks[x].accesses)
    ensures forall p | 0 <= p < |between| :: !Conflict(tasks[between[p]].accesses, tasks[x].accesses)
  {
    var back := between + [i] + later;
    assert back[|between|] == i;
    assert forall p | 0 <= p < |between| :: back[p] == between[p];
  }

  lemma LaterTasksAreInvisible<V(!new)>(tasks: seq<Task<V>>, front: seq<nat>, i: nat, back: seq<nat>, s: seq<V>)
    requires i < |tasks| && AllHonour(tasks, |s|) && InRange(front, |tasks|) && InRange(back, |tasks|)
    requires forall p | 0 <= p < |back| :: !Conflict(tasks[back[p]].accesses, tasks[i].accesses)
    ensures AgreeOn(Run(tasks, front, s), Run(tasks, front + back, s), tasks[i].accesses)
  {
    RunConcat(tasks, front, back, s);
    RunKeepsLength(tasks, front, s);
    forall p | 0 <= p < |back|
      ensures !Conflict(tasks[i].accesses, tasks[back[p]].accesses)
    {
      ConflictSymmetric(tasks[i].accesses, tasks[back[p]].accesses);
    }
    IndependentRunIsInvisible(tasks, back, tasks[i].accesses, Run(tasks, front, s));
  }

  lemma EarlierTaskIsInvisible<V(!new)>(tasks: seq<Task<V>>, front: seq<nat>, x: nat, between: seq<nat>, i: nat, s: seq<V>)
    requires i < |tasks| && x < |tasks| && AllHonour(tasks, |s|) && InRange(front, |tasks|) && InRange(between, |tasks|)
    requires forall p | 0 <= p < |between| :: !Conflict(tasks[between[p]].accesses, tasks[x].accesses)
    requires !Conflict(tasks[i].accesses, tasks[x].accesses)
    ensures InRange(front + ([x] + between), |tasks|)
    ensures AgreeOn(Run(tasks, front + ([x] + between), s), Run(tasks, front + between, s), tasks[i].accesses)
  {
    LastTaskRunsLast(tasks, front, x, between, s);
    RunKeepsLength(tasks, front + between, s);
    IndependentTaskIsInvisible(tasks[x], tasks[i].accesses, Run(tasks, front + between, s)) by {
      ConflictSymmetric(tasks[i].accesses, tasks[x].accesses);
    }
  }

  /** Two ways to split one sequence around an element. */
  lemma SplitIsUnique(a: seq<nat>, b: seq<nat>, c: seq<nat>, d: seq<nat>, x: nat, y: nat)
    requires a + [x] + b == c + [y] + d && NoDuplicates(a + [x] + b)
    ensures |a| == |c| ==> a == c && b == d && x == y
    ensures x == y ==> |a| == |c|
    ensures |a| < |c| ==> c == a + [x] + c[|a| + 1..] && b == c[|a| + 1..] + [y] + d
  {
    var order := a + [x] + b;
    assert order[|a|] == x && order[|c|] == y;
    assert a == order[..|a|] && c == order[..|c|];
    assert b == order[|a| + 1..] && d == order[|c| + 1..];
    if |a| < |c| {
      assert order[..|c|] == order[..|a|] + [order[|a|]] + order[|a| + 1..|c|];
      assert order[|a| + 1..] == order[|a| + 1..|c|] + [order[|c|]] + order[|c| + 1..];
    }
  }

  // ---------------------------------------------------------------------
  // Schedules of the planned jobs

  /** Whenever two tasks conflict, the later one depends on the earlier one. */
  ghost predicate CoversConflicts<V>(data: Program, tasks: seq<Task<V>>) {
    && |tasks| == |data.nodes|
    && forall i: nat, j: nat | i < j < |tasks| && Conflict(tasks[i].accesses, tasks[j].accesses) :: Ancestor(data, i, j)
  }

  /** The dependencies that recording an operation stream derives cover its conflicts. */
  lemma RecordedOperationsCoverConflicts<V>(data: Program, tasks: seq<Task<V>>, ops: seq<Operation>)
    requires Recorded(ops) && |ops| == |tasks| == |data.nodes|
    requires forall i | 0 <= i < |ops| :: ops[i].accesses == tasks[i].accesses
    requires forall i, p | 0 <= i < |ops| && p in ops[i].predecessors :: p in data.nodes[i].predecessors
    ensures CoversConflicts(data, tasks)
  {
    NodeGraphEdges(data);
    forall i: nat, j: nat | i < j < |tasks| && Conflict(tasks[i].accesses, tasks[j].accesses)
      ensures Ancestor(data, i, j)
    {
      assert i in ops[j].predecessors;
      assert Depends(data, i, j);
      ReachesEdge(NodeGraph(data), i, j);
    }
  }

  /**
   * Every interleaving of the planned jobs, each waiting for its planned
   * predecessors, ends in the store of the recorded order.
   */
  lemma ScheduleComputesRecordedStore<V(!new)>(data: Program, plan: Plan, tasks: seq<Task<V>>, order: seq<nat>, s: seq<V>)
    requires Plannable(data) && IsPlan(data, plan) && CoversConflicts(data, tasks)
    requires AllHonour(tasks, |s|)
    requires IsOrder(order, |data.nodes|) && InRange(order, |tasks|) && IsSchedule(plan, order)
    ensures Run(tasks, order, s) == Run(tasks, RecordedOrder(|tasks|), s)
  {
    ScheduleKeepsConflicts(data, plan, tasks, order);
    ConflictOrderDeterminesStore(tasks, order, |tasks|, s);
  }

  /** In every such interleaving each task observes the values of the recorded order. */
  lemma ScheduleObservesRecordedValues<V(!new)>(
      data: Program, plan: Plan, tasks: seq<Task<V>>, earlier: seq<nat>, i: nat, later: seq<nat>, s: seq<V>)
    requires Plannable(data) && IsPlan(data, plan) && CoversConflicts(data, tasks)
    requires AllHonour(tasks, |s|)
    requires IsOrder(earlier + [i] + later, |data.nodes|) && IsSchedule(plan, earlier + [i] + later)
    requires InRange(earlier, |tasks|)
    ensures i < |tasks|
    ensures AgreeOn(Run(tasks, earlier, s), Run(tasks, RecordedOrder(i), s), tasks[i].accesses)
  {
    OrderInRange(earlier + [i] + later, |tasks|);
    ScheduleKeepsConflicts(data, plan, tasks, earlier + [i] + later);
    TaskObservesRecordedValues(tasks, earlier, i, later, |tasks|, s);
  }

  lemma ScheduleKeepsConflicts<V>(data: Program, plan: Plan, tasks: seq<Task<V>>, order: seq<nat>)
    requires Plannable(data) && IsPlan(data, plan) && CoversConflicts(data, tasks)
    requires IsOrder(order, |data.nodes|) && InRange(order, |tasks|) && IsSchedule(plan, order)
    ensures KeepsConflicts(tasks, order)
  {
    ScheduleRespectsDependencies(data, plan, order);
    forall p, q | 0 <= p < q < |order| && order[q] < order[p]
      ensures !Conflict(tasks[order[q]].accesses, tasks[order[p]].accesses)
    {
      if Conflict(tasks[order[q]].accesses, tasks[order[p]].accesses) {
        AncestorsAreOrdered(data, order, order[q], order[p]);
      }
    }
  }
}
