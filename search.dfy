/**
 * The best-of-N search behind the "Zoek" button (`handleSearchClick`) and the
 * objective it minimises (`getNMissing`).
 */
module Search {
  import opened Pairing
  import opened Chains
  import opened Schedules

  /** The try budget of the search. */
  const MAX_TRIES: nat := 2000

  /** `getNMissing`: the week slots a schedule leaves unfilled, the sum of `nWeeks - |chain|`. */
  function NMissing(sequences: seq<seq<SendEvent>>, nWeeks: int): int
  {
    if sequences == [] then 0
    else (nWeeks - |sequences[0]|) + NMissing(sequences[1..], nWeeks)
  }

  /**
   * When no chain is longer than `nWeeks`, the missing count lies between 0
   * and `nWeeks` per chain, and it is 0 exactly when every chain fills every week.
   */
  lemma {:induction false} NMissingBounds(sequences: seq<seq<SendEvent>>, nWeeks: int)
    requires forall i :: 0 <= i < |sequences| ==> |sequences[i]| <= nWeeks
    ensures 0 <= NMissing(sequences, nWeeks) <= nWeeks * |sequences|
    ensures NMissing(sequences, nWeeks) == 0 <==> forall i :: 0 <= i < |sequences| ==> |sequences[i]| == nWeeks
  {
    if sequences != [] {
      var rest := sequences[1..];
      NMissingBounds(rest, nWeeks);
      assert nWeeks * |sequences| == nWeeks * |rest| + nWeeks;
      if NMissing(sequences, nWeeks) == 0 {
        forall i | 0 < i < |sequences|
          ensures |sequences[i]| == nWeeks
        {
          assert sequences[i] == rest[i - 1];
        }
      }
      if forall i :: 0 <= i < |sequences| ==> |sequences[i]| == nWeeks {
        assert forall i :: 0 <= i < |rest| ==> rest[i] == sequences[i + 1];
      }
    }
  }

  /** `_.range(1, nWeeks + 1)`: the week numbers 1 to `nWeeks`. */
  function Weeks(nWeeks: nat): (weeks: seq<int>)
    ensures |weeks| == nWeeks
  {
    seq(nWeeks, i => i + 1)
  }

  /** The schedule generated on try `k` of the search, from the orders drawn for that try. */
  function Candidate(students: seq<Student>, nWeeks: nat, draws: seq<seq<seq<Student>>>, k: int): seq<seq<SendEvent>>
    requires 0 <= k < |draws| && Drawn(students, draws[k])
  {
    Schedule(students, Weeks(nWeeks), draws[k])
  }

  /** The missing count of try `k`. */
  function MissingAt(students: seq<Student>, nWeeks: nat, draws: seq<seq<seq<Student>>>, k: int): int
    requires 0 <= k < |draws| && Drawn(students, draws[k])
  {
    NMissing(Candidate(students, nWeeks, draws, k), nWeeks)
  }

  /** Every candidate misses between 0 and `nWeeks` slots per student. */
  lemma MissingAtBounds(students: seq<Student>, nWeeks: nat, draws: seq<seq<seq<Student>>>, k: int)
    requires 0 <= k < |draws| && Drawn(students, draws[k])
    ensures 0 <= MissingAt(students, nWeeks, draws, k) <= nWeeks * |students|
  {
    var chains := Candidate(students, nWeeks, draws, k);
    ScheduleWellFormed(students, Weeks(nWeeks), draws[k]);
    assert forall i :: 0 <= i < |chains| ==> |chains[i]| <= nWeeks by {
      forall i | 0 <= i < |chains|
        ensures |chains[i]| <= nWeeks
      {
        assert ChainOk(students[i], chains[i], students, Weeks(nWeeks));
      }
    }
    NMissingBounds(chains, nWeeks);
  }

  /**
   * The initial `bestNMissing`, `nWeeks * nStudents + 1`: one more than the
   * most slots a roster of `nStudents` students can leave unfilled.
   */
  function Sentinel(nStudents: nat, nWeeks: nat): (s: int)
    ensures 0 < s && nWeeks * nStudents < s
  {
    nWeeks * nStudents + 1
  }

  /** Every try has its visiting orders drawn from the roster. */
  predicate AllDrawn(students: seq<Student>, draws: seq<seq<seq<Student>>>)
  {
    forall k :: 0 <= k < |draws| ==> Drawn(students, draws[k])
  }

  /** The missing counts of the first `n` tries, in order. */
  function Counts(students: seq<Student>, nWeeks: nat, draws: seq<seq<seq<Student>>>, n: nat): (counts: seq<int>)
    requires n <= |draws| && AllDrawn(students, draws)
    ensures |counts| == n
  {
    if n == 0 then [] else Counts(students, nWeeks, draws, n - 1) + [MissingAt(students, nWeeks, draws, n - 1)]
  }

  /** Entry `k` of the counts is the missing count of try `k`. */
  lemma {:induction false} CountsAt(students: seq<Student>, nWeeks: nat, draws: seq<seq<seq<Student>>>, n: nat, k: nat)
    requires k < n <= |draws| && AllDrawn(students, draws)
    ensures Counts(students, nWeeks, draws, n)[k] == MissingAt(students, nWeeks, draws, k)
  {
    if k < n - 1 {
      CountsAt(students, nWeeks, draws, n - 1, k);
    }
  }

  /**
   * `bestNMissing` after the tries whose counts are `counts`: it starts at
   * `sentinel` and drops to a try's count whenever that count is strictly lower.
   */
  function RunningBest(counts: seq<int>, sentinel: int): int
  {
    if counts == [] then sentinel
    else
      var best := RunningBest(counts[..|counts| - 1], sentinel);
      if counts[|counts| - 1] < best then counts[|counts| - 1] else best
  }

  /** The try whose schedule `bestChains` holds after the tries whose counts are `counts`, if any. */
  function KeptIndex(counts: seq<int>, sentinel: int): (r: Option<nat>)
    ensures r.Some? ==> r.value < |counts|
  {
    if counts == [] then None
    else if counts[|counts| - 1] < RunningBest(counts[..|counts| - 1], sentinel) then Some(|counts| - 1)
    else KeptIndex(counts[..|counts| - 1], sentinel)
  }

  /** The best count is at most the sentinel and at most every count, and never negative when neither is. */
  lemma {:induction false} RunningBestBounds(counts: seq<int>, sentinel: int)
    ensures RunningBest(counts, sentinel) <= sentinel
    ensures forall k :: 0 <= k < |counts| ==> RunningBest(counts, sentinel) <= counts[k]
    ensures 0 <= sentinel && (forall k :: 0 <= k < |counts| ==> 0 <= counts[k]) ==> 0 <= RunningBest(counts, sentinel)
  {
    if counts != [] {
      var pre := counts[..|counts| - 1];
      RunningBestBounds(pre, sentinel);
      assert forall k :: 0 <= k < |pre| ==> pre[k] == counts[k];
    }
  }

  /** The best count never rises as more tries are made. */
  lemma {:induction false} RunningBestMonotone(counts: seq<int>, sentinel: int, i: nat, j: nat)
    requires i <= j <= |counts|
    ensures RunningBest(counts[..j], sentinel) <= RunningBest(counts[..i], sentinel)
    decreases j
  {
    if i < j {
      RunningBestMonotone(counts, sentinel, i, j - 1);
      assert counts[..j][..j - 1] == counts[..j - 1];
    }
  }

  /**
   * The kept try is the first whose count equals the best count, every
   * earlier try counting more; when no try is kept, the best count is still
   * the sentinel and no try beat it.
   */
  lemma {:induction false} KeptIndexFirstBest(counts: seq<int>, sentinel: int)
    ensures KeptIndex(counts, sentinel).Some? ==>
              var k := KeptIndex(counts, sentinel).value;
              counts[k] == RunningBest(counts, sentinel) && forall j :: 0 <= j < k ==> counts[j] > counts[k]
    ensures KeptIndex(counts, sentinel).None? ==>
              RunningBest(counts, sentinel) == sentinel && forall k :: 0 <= k < |counts| ==> counts[k] >= sentinel
  {
    if counts != [] {
      var pre := counts[..|counts| - 1];
      KeptIndexFirstBest(pre, sentinel);
      assert forall k :: 0 <= k < |pre| ==> pre[k] == counts[k];
      RunningBestBounds(pre, sentinel);
    }
  }

  /** When the first try counts less than the sentinel, some try is kept however many follow. */
  lemma {:induction false} SentinelKeepsFirst(counts: seq<int>, sentinel: int)
    requires counts != [] && counts[0] < sentinel
    ensures KeptIndex(counts, sentinel).Some?
  {
    if |counts| > 1 {
      var pre := counts[..|counts| - 1];
      assert pre[0] == counts[0];
      SentinelKeepsFirst(pre, sentinel);
    }
  }

  /** One more try: the best count drops to its count exactly when that count is strictly lower. */
  lemma RunningBestSnoc(counts: seq<int>, x: int, sentinel: int)
    ensures RunningBest(counts + [x], sentinel) == if x < RunningBest(counts, sentinel) then x else RunningBest(counts, sentinel)
    ensures KeptIndex(counts + [x], sentinel) == if x < RunningBest(counts, sentinel) then Some(|counts|) else KeptIndex(counts, sentinel)
  {
    assert (counts + [x])[..|counts|] == counts;
  }

  /** The schedule kept after the first `n` tries. */
  function KeptSchedule(students: seq<Student>, nWeeks: nat, draws: seq<seq<seq<Student>>>, sentinel: int, n: nat): Option<seq<seq<SendEvent>>>
    requires n <= |draws| && AllDrawn(students, draws)
  {
    match KeptIndex(Counts(students, nWeeks, draws, n), sentinel)
    case None => None
    case Some(k) => Some(Candidate(students, nWeeks, draws, k))
  }

  /**
   * What the exit of the search loop implies: a try count of at least one,
   * an early exit only on a perfect schedule, every try but the last missing
   * some slot, and a kept schedule whenever the roster has `nStudents` students.
   */
  lemma SearchExit(students: seq<Student>, nStudents: nat, nWeeks: nat, draws: seq<seq<seq<Student>>>, n: nat)
    requires n <= |draws| == MAX_TRIES && AllDrawn(students, draws)
    requires var best := RunningBest(Counts(students, nWeeks, draws, n), Sentinel(nStudents, nWeeks));
      !(n < MAX_TRIES && best > 0)
    requires 0 < n ==> RunningBest(Counts(students, nWeeks, draws, n - 1), Sentinel(nStudents, nWeeks)) > 0
    ensures 1 <= n
    ensures n < MAX_TRIES ==> RunningBest(Counts(students, nWeeks, draws, n), Sentinel(nStudents, nWeeks)) == 0
    ensures forall k :: 0 <= k < n - 1 ==> MissingAt(students, nWeeks, draws, k) > 0
    ensures |students| == nStudents ==> KeptSchedule(students, nWeeks, draws, Sentinel(nStudents, nWeeks), n).Some?
  {
    var sentinel := Sentinel(nStudents, nWeeks);
    var counts := Counts(students, nWeeks, draws, n);
    CountsBounds(students, nWeeks, draws, n);
    RunningBestBounds(counts, sentinel);
    if n > 1 {
      var pre := Counts(students, nWeeks, draws, n - 1);
      RunningBestBounds(pre, sentinel);
      forall k | 0 <= k < n - 1
        ensures MissingAt(students, nWeeks, draws, k) > 0
      {
        CountsAt(students, nWeeks, draws, n - 1, k);
      }
    }
    if |students| == nStudents && n > 0 {
      SentinelKeepsFirst(counts, sentinel);
    }
  }

  /** Every recorded count lies between 0 and `nWeeks` per student. */
  lemma CountsBounds(students: seq<Student>, nWeeks: nat, draws: seq<seq<seq<Student>>>, n: nat)
    requires n <= |draws| && AllDrawn(students, draws)
    ensures forall k :: 0 <= k < n ==> 0 <= Counts(students, nWeeks, draws, n)[k] <= nWeeks * |students|
  {
    forall k | 0 <= k < n
      ensures 0 <= Counts(students, nWeeks, draws, n)[k] <= nWeeks * |students|
    {
      CountsAt(students, nWeeks, draws, n, k);
      MissingAtBounds(students, nWeeks, draws, k);
    }
  }

  /** One try of the search: a generation pass with that try's orders, and its missing count. */
  method Try(students: seq<Student>, nWeeks: nat, draws: seq<seq<seq<Student>>>, k: nat)
    returns (sequences: seq<seq<SendEvent>>, nMissing: int)
    requires k < |draws| && AllDrawn(students, draws)
    ensures sequences == Candidate(students, nWeeks, draws, k)
    ensures nMissing == MissingAt(students, nWeeks, draws, k)
  {
    sequences := GenSequences(students, Weeks(nWeeks), draws[k]);
    nMissing := NMissing(sequences, nWeeks);
  }

  /**
   * The search of `handleSearchClick`, with the visiting orders of try `k`
   * supplied as `draws[k]`. It returns the number of tries `n`, the best
   * missing count and the schedule that achieved it (`None` while
   * `bestChains` is still undefined).
   */
  method Search(students: seq<Student>, nStudents: nat, nWeeks: nat, draws: seq<seq<seq<Student>>>)
    returns (n: nat, bestNMissing: int, bestChains: Option<seq<seq<SendEvent>>>)
    requires |draws| == MAX_TRIES && AllDrawn(students, draws)
    // at most MAX_TRIES tries, and at least one
    ensures 1 <= n <= MAX_TRIES
    // the search stops early only on a perfect schedule, and right after the first one
    ensures n < MAX_TRIES ==> bestNMissing == 0
    ensures forall k :: 0 <= k < n - 1 ==> MissingAt(students, nWeeks, draws, k) > 0
    // the result is the running best over the tries made, and the schedule of the first try that reached it
    ensures bestNMissing == RunningBest(Counts(students, nWeeks, draws, n), Sentinel(nStudents, nWeeks))
    ensures bestChains == KeptSchedule(students, nWeeks, draws, Sentinel(nStudents, nWeeks), n)
    // the sentinel lets the first try through whenever the roster has nStudents students
    ensures |students| == nStudents ==> bestChains.Some?
  {
    ghost var sentinel := Sentinel(nStudents, nWeeks);
    n := 0;
    bestNMissing := Sentinel(nStudents, nWeeks);
    bestChains := None;
    ghost var counts: seq<int> := [];  // the missing count of every try so far
    while n < MAX_TRIES && bestNMissing > 0
      invariant n <= MAX_TRIES && counts == Counts(students, nWeeks, draws, n)
      invariant bestNMissing == RunningBest(counts, sentinel)
      invariant bestChains == KeptSchedule(students, nWeeks, draws, sentinel, n)
      invariant 0 < n ==> RunningBest(counts[..n - 1], sentinel) > 0
    {
      var sequences, nMissing := Try(students, nWeeks, draws, n);
      RunningBestSnoc(counts, nMissing, sentinel);
      assert (counts + [nMissing])[..n] == counts;
      counts := counts + [nMissing];
      if nMissing < bestNMissing {
        bestNMissing := nMissing;
        bestChains := Some(sequences);
      }
      n := n + 1;
    }
    SearchExit(students, nStudents, nWeeks, draws, n);
  }
}
