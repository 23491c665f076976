/**
 * The completion history of the feedback submission: one row of `maxInFlight` jobs
 * per resource, laid out in one array and indexed by acquisition number modulo the
 * row length. An acquisition waits for the completion that freed its slot.
 */
module CompletionHistory {
  import opened Wrappers

  type JobId = nat

  /** What remains in a row of a log of completions: the latest one in each residue class. */
  function Latest(log: seq<JobId>, inFlight: nat, x: nat): Option<JobId>
    requires inFlight > 0
  {
    if log == [] then None
    else if (|log| - 1) % inFlight == x then Some(log[|log| - 1])
    else Latest(log[..|log| - 1], inFlight, x)
  }

  lemma {:induction false} LatestFindsRecent(log: seq<JobId>, inFlight: nat, k: nat)
    requires inFlight > 0 && k < |log| <= k + inFlight
    ensures Latest(log, inFlight, k % inFlight) == Some(log[k])
  {
    var last := |log| - 1;
    if last != k {
      NearbyResiduesDiffer(k, last, inFlight);
      LatestFindsRecent(log[..last], inFlight, k);
    }
  }

  lemma ProductSign(n: int, d: int)
    requires n > 0
    ensures d >= 1 ==> n * d >= n
    ensures d <= -1 ==> n * d <= -n
    ensures d <= 0 ==> n * d <= 0
  {
    if d >= 1 {
      assert n * d == n * (d - 1) + n;
    } else if d <= -1 {
      assert n * d == n * (d + 1) - n;
    }
  }

  lemma NearbyResiduesDiffer(k: nat, m: nat, n: nat)
    requires 0 < m - k < n
    ensures k % n != m % n
  {
    var a := m / n - k / n;
    assert m - k == n * a + (m % n - k % n);
    ProductSign(n, a);
  }

  lemma SameResidue(m: nat, q: nat, r: nat, k: nat, p: nat, s: nat, n: nat)
    requires m == n * q + r && k == n * p + s && r < n && s < n && m == k + n
    ensures r == s
  {
    var d := q - p - 1;
    assert n * d == n * q - n * p - n;
    ProductSign(n, d);
  }

  lemma ResidueRepeats(k: nat, n: nat)
    requires n > 0
    ensures (k + n) % n == k % n
  {
    SameResidue(k + n, (k + n) / n, (k + n) % n, k, k / n, k % n, n);
  }

  /** Whatever a row holds for a residue class was recorded at most a row length ago. */
  lemma {:induction false} LatestIsRecent(log: seq<JobId>, inFlight: nat, x: nat) returns (k: nat)
    requires inFlight > 0 && Latest(log, inFlight, x).Some?
    ensures k < |log| && k % inFlight == x && Latest(log, inFlight, x) == Some(log[k]) && |log| <= k + inFlight
  {
    var last := |log| - 1;
    if last % inFlight == x {
      k := last;
    } else {
      k := LatestIsRecent(log[..last], inFlight, x);
      ResidueRepeats(k, inFlight);
    }
  }

  predicate Distinct(log: seq<JobId>) {
    forall i, j | 0 <= i < j < |log| :: log[i] != log[j]
  }

  /**
   * Before acquisition number |log| of a resource with `slots` slots, the row entry
   * that the submission looks up is the completion of acquisition |log| - (slots - 1)
   * exactly when there are at least two and at most inFlight + 1 slots.
   */
  lemma HistoryEntryIsExact(log: seq<JobId>, inFlight: nat, slots: nat)
    requires inFlight > 0 && 1 <= slots <= |log| && Distinct(log)
    ensures (slots >= 2 && Latest(log, inFlight, (|log| - (slots - 1)) % inFlight) == Some(log[|log| - (slots - 1)]))
      <==> 2 <= slots <= inFlight + 1
  {
    var k := |log| - (slots - 1);
    if 2 <= slots {
      if slots <= inFlight + 1 {
        LatestFindsRecent(log, inFlight, k);
      } else if Latest(log, inFlight, k % inFlight).Some? {
        var found := LatestIsRecent(log, inFlight, k % inFlight);
        assert found != k;
        assert log[found] != log[k];
      }
    }
  }

  lemma RowsAreDisjoint(r: nat, x: nat, q: nat, y: nat, width: nat, rows: nat)
    requires x < width && y < width && r < rows && q < rows
    ensures r * width + x < rows * width
    ensures r * width + x == q * width + y ==> r == q && x == y
  {
    RowsAscend(r, rows, width);
    if r < q {
      RowsAscend(r, q, width);
    } else if q < r {
      RowsAscend(q, r, width);
    }
  }

  lemma {:induction false} RowsAscend(r: nat, q: nat, width: nat)
    requires r < q
    ensures r * width + width <= q * width
  {
    NextRow(q - 1, width);
    if r < q - 1 {
      RowsAscend(r, q - 1, width);
    }
  }

  lemma NextRow(r: nat, width: nat)
    ensures (r + 1) * width == r * width + width
  {
  }

  class CompletionHistory {
    const maxInFlight: nat
    const acquisitionCounts: array<nat>
    const jobs: array<JobId>
    const valid: array<bool>
    ghost var logs: seq<seq<JobId>>

    ghost function Entry(r: nat, x: nat): Option<JobId>
      requires r < |logs| && x < maxInFlight && jobs.Length == valid.Length == |logs| * maxInFlight
      reads this, jobs, valid
    {
      RowsAreDisjoint(r, x, r, x, maxInFlight, |logs|);
      var i := r * maxInFlight + x;
      if valid[i] then Some(jobs[i]) else None
    }

    ghost predicate Valid()
      reads this, acquisitionCounts, jobs, valid
    {
      && maxInFlight > 0
      && acquisitionCounts != jobs
      && acquisitionCounts.Length == |logs|
      && jobs.Length == valid.Length == |logs| * maxInFlight
      && (forall r: nat | r < |logs| :: acquisitionCounts[r] == |logs[r]|)
      && (forall r: nat, x: nat | r < |logs| && x < maxInFlight :: Entry(r, x) == Latest(logs[r], maxInFlight, x))
    }

    constructor (resources: nat, inFlight: nat)
      requires inFlight > 0
      ensures Valid() && fresh(acquisitionCounts) && fresh(jobs) && fresh(valid)
      ensures maxInFlight == inFlight && logs == seq(resources, r => [])
    {
      maxInFlight := inFlight;
      acquisitionCounts := new nat[resources](i => 0);
      jobs := new JobId[resources * inFlight](i => 0);
      valid := new bool[resources * inFlight](i => false);
      logs := seq(resources, r => []);
      new;
      forall r: nat, x: nat | r < |logs| && x < maxInFlight
        ensures Entry(r, x) == Latest(logs[r], maxInFlight, x)
      {
        RowsAreDisjoint(r, x, r, x, maxInFlight, |logs|);
      }
    }

    /**
     * The completion the next acquisition has to wait for: none while a slot was never
     * used; an error if the row has no entry.
     */
    method Dependency(r: nat, slots: nat) returns (d: Result<Option<JobId>>)
      requires Valid() && r < |logs|
      ensures slots == 0 || |logs[r]| < slots ==> d == Success(None)
      ensures slots != 0 && |logs[r]| >= slots ==>
        match Latest(logs[r], maxInFlight, (|logs[r]| - (slots - 1)) % maxInFlight)
        case None => d.Failure?
        case Some(job) => d == Success(Some(job))
      ensures 2 <= slots <= maxInFlight + 1 && |logs[r]| >= slots ==> d == Success(Some(logs[r][|logs[r]| - (slots - 1)]))
    {
      var count := acquisitionCounts[r];
      if slots == 0 || count < slots {
        return Success(None);
      }
      var release := count - (slots - 1);
      var x := release % maxInFlight;
      var index := r * maxInFlight + x;
      RowsAreDisjoint(r, x, r, x, maxInFlight, |logs|);
      assert Entry(r, x) == Latest(logs[r], maxInFlight, x);
      if 2 <= slots <= maxInFlight + 1 {
        LatestFindsRecent(logs[r], maxInFlight, release);
      }
      if !valid[index] {
        return Failure("retained feedback slot has no completion frontier");
      }
      return Success(Some(jobs[index]));
    }

    /** Records the completion of the iteration that made the latest acquisition of a resource. */
    method Record(r: nat, completion: JobId)
      requires Valid() && r < |logs|
      modifies this, acquisitionCounts, jobs, valid
      ensures Valid()
      ensures logs == old(logs)[r := old(logs)[r] + [completion]]
    {
      var x := acquisitionCounts[r] % maxInFlight;
      var index := r * maxInFlight + x;
      RowsAreDisjoint(r, x, r, x, maxInFlight, |logs|);
      jobs[index] := completion;
      valid[index] := true;
      acquisitionCounts[r] := acquisitionCounts[r] + 1;
      logs := logs[r := logs[r] + [completion]];
      forall q: nat, y: nat | q < |logs| && y < maxInFlight
        ensures Entry(q, y) == Latest(logs[q], maxInFlight, y)
      {
        RowsAreDisjoint(r, x, q, y, maxInFlight, |logs|);
        RowsAreDisjoint(q, y, q, y, maxInFlight, |logs|);
        assert old(Entry(q, y)) == Latest(old(logs)[q], maxInFlight, y);
        assert logs[r][..|logs[r]| - 1] == old(logs)[r];
      }
    }
  }
}
