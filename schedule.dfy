/**
 * `genSequences`: one chain per student, in roster order, with the pairing
 * history threaded from each chain into the next.
 */
module Schedules {
  import opened Pairing
  import opened Chains

  /** The history a generation pass starts from: an empty record for every student. */
  function EmptyHistory(students: seq<Student>): (h: History)
    ensures h.Keys == Ids(students)
    ensures forall a, b :: !Marked(h, a, b)
  {
    map id | id in Ids(students) :: {}
  }

  /**
   * `orders[i]` is the visiting order drawn for `students[i]` by
   * `_.sampleSize(others, others.length)`: a permutation of the other students.
   */
  predicate Drawn(students: seq<Student>, orders: seq<seq<Student>>)
  {
    && |orders| == |students|
    && forall i {:trigger IsOrderFor(students, orders[i], students[i])} :: 0 <= i < |students| ==> IsOrderFor(students, orders[i], students[i])
  }

  /** `order` lists the students other than `s`, each as often as the roster does. */
  predicate IsOrderFor(students: seq<Student>, order: seq<Student>, s: Student)
  {
    multiset(order) == multiset(Reject(students, s.id))
  }

  lemma DrawnOrder(students: seq<Student>, orders: seq<seq<Student>>, i: int)
    requires Drawn(students, orders) && 0 <= i < |students|
    ensures forall t :: t in orders[i] ==> t in students && t.id != students[i].id
    ensures |orders[i]| < |students|
  {
    var others := Reject(students, students[i].id);
    assert IsOrderFor(students, orders[i], students[i]);
    assert |multiset(orders[i])| == |multiset(others)|;
    forall t | t in orders[i]
      ensures t in others
    {
      assert t in multiset(orders[i]);
    }
  }

  /** The chains of the first `n` students and the history after them. */
  datatype Pass = Pass(chains: seq<seq<SendEvent>>, history: History)

  /** The pass after the chain of `students[i]` is built from `p`'s history and appended to `p`'s chains. */
  function NextPass(students: seq<Student>, weeks: seq<int>, orders: seq<seq<Student>>, p: Pass, i: nat): (q: Pass)
    requires Drawn(students, orders) && i < |students| && p.history.Keys == Ids(students)
    ensures |q.chains| == |p.chains| + 1 && q.history.Keys == Ids(students)
  {
    DrawnOrder(students, orders, i);
    var r := BuildChain(students[i], orders[i], p.history, weeks);
    Pass(p.chains + [r.chain], r.updated)
  }

  function GenPrefix(students: seq<Student>, weeks: seq<int>, orders: seq<seq<Student>>, n: nat): (p: Pass)
    requires Drawn(students, orders) && n <= |students|
    ensures |p.chains| == n && p.history.Keys == Ids(students)
  {
    if n == 0 then Pass([], EmptyHistory(students))
    else NextPass(students, weeks, orders, GenPrefix(students, weeks, orders, n - 1), n - 1)
  }

  /** The schedule a generation pass returns. */
  function Schedule(students: seq<Student>, weeks: seq<int>, orders: seq<seq<Student>>): seq<seq<SendEvent>>
    requires Drawn(students, orders)
  {
    GenPrefix(students, weeks, orders, |students|).chains
  }

  /** What every chain of a schedule satisfies. */
  predicate ChainOk(start: Student, chain: seq<SendEvent>, students: seq<Student>, weeks: seq<int>)
  {
    && Linked(start, chain)
    && DistinctRecipients(chain)
    && |chain| <= |weeks|
    && |chain| < |students|
    && RecipientsFrom(chain, students)
    && NoSelfSend(chain)
  }

  /** No pair `a -> b` appears at two places of the schedule. */
  predicate NoRepeatedPair(chains: seq<seq<SendEvent>>)
  {
    forall i, k, j, l {:trigger Pair(chains[i][k]), Pair(chains[j][l])} ::
      && 0 <= i < |chains| && 0 <= k < |chains[i]|
      && 0 <= j < |chains| && 0 <= l < |chains[j]|
      && (i != j || k != l)
      ==> Pair(chains[i][k]) != Pair(chains[j][l])
  }

  /** Some chain of the schedule holds an event `a -> b`. */
  predicate SentIn(chains: seq<seq<SendEvent>>, a: StudentId, b: StudentId)
  {
    exists i :: 0 <= i < |chains| && Sent(chains[i], a, b)
  }

  /** `h` marks exactly the pairs that some chain of the schedule sent. */
  ghost predicate RecordsExactly(h: History, chains: seq<seq<SendEvent>>)
  {
    forall a, b :: Marked(h, a, b) <==> SentIn(chains, a, b)
  }

  /** The chain built for `students[i]` from any history that covers the roster. */
  lemma StudentChainOk(students: seq<Student>, weeks: seq<int>, orders: seq<seq<Student>>, i: int, h: History)
    requires Drawn(students, orders) && 0 <= i < |students| && h.Keys == Ids(students)
    requires Covered(h, orders[i])
    ensures ChainOk(students[i], BuildChain(students[i], orders[i], h, weeks).chain, students, weeks)
  {
    DrawnOrder(students, orders, i);
    var start, todos := students[i], orders[i];
    BuildChainLinked(start, todos, h, weeks);
    BuildChainRecipients(start, todos, h, weeks);
    BuildChainNoSelfSend(start, todos, h, weeks);
  }

  /** The chain built for `students[i]` repeats neither a recipient nor a pair the history marks. */
  lemma StudentChainFresh(students: seq<Student>, weeks: seq<int>, orders: seq<seq<Student>>, i: int, h: History)
    requires Drawn(students, orders) && 0 <= i < |students| && h.Keys == Ids(students)
    requires Covered(h, orders[i])
    ensures DistinctRecipients(BuildChain(students[i], orders[i], h, weeks).chain)
    ensures Unmarked(h, BuildChain(students[i], orders[i], h, weeks).chain)
  {
    BuildChainRecipients(students[i], orders[i], h, weeks);
    BuildChainHistory(students[i], orders[i], h, weeks);
  }

  /** The chain of every student so far starts at that student and is well formed. */
  lemma {:induction false} GenPrefixChains(students: seq<Student>, weeks: seq<int>, orders: seq<seq<Student>>, n: nat)
    requires Drawn(students, orders) && n <= |students|
    ensures AllChainsOk(students, weeks, GenPrefix(students, weeks, orders, n).chains)
  {
    if n == 0 {
      assert GenPrefix(students, weeks, orders, 0).chains == [];
    } else {
      GenPrefixChains(students, weeks, orders, n - 1);
      NextPassChains(students, weeks, orders, GenPrefix(students, weeks, orders, n - 1), n - 1);
    }
  }

  /** One step keeps every chain well formed. */
  lemma NextPassChains(students: seq<Student>, weeks: seq<int>, orders: seq<seq<Student>>, p: Pass, i: nat)
    requires Drawn(students, orders) && i < |students| && p.history.Keys == Ids(students)
    requires |p.chains| == i && AllChainsOk(students, weeks, p.chains)
    ensures AllChainsOk(students, weeks, NextPass(students, weeks, orders, p, i).chains)
  {
    DrawnOrder(students, orders, i);
    StudentChainOk(students, weeks, orders, i, p.history);
    ChainsAppend(students, weeks, p.chains, BuildChain(students[i], orders[i], p.history, weeks).chain);
  }

  /** The chain at every position of `chains` is well formed for the student at that position. */
  predicate AllChainsOk(students: seq<Student>, weeks: seq<int>, chains: seq<seq<SendEvent>>)
  {
    && |chains| <= |students|
    && forall i {:trigger ChainOk(students[i], chains[i], students, weeks)} ::
         0 <= i < |chains| ==> ChainOk(students[i], chains[i], students, weeks)
  }

  /** Appending the next student's well-formed chain. */
  lemma ChainsAppend(students: seq<Student>, weeks: seq<int>, chains: seq<seq<SendEvent>>, c: seq<SendEvent>)
    requires AllChainsOk(students, weeks, chains) && |chains| < |students|
    requires ChainOk(students[|chains|], c, students, weeks)
    ensures AllChainsOk(students, weeks, chains + [c])
  {
    var all := chains + [c];
    forall i | 0 <= i < |all|
      ensures ChainOk(students[i], all[i], students, weeks)
    {
      if i < |chains| {
        assert all[i] == chains[i];
      }
    }
  }

  /** The history after the first `n` students records exactly the pairs their chains sent. */
  lemma {:induction false} GenPrefixHistory(students: seq<Student>, weeks: seq<int>, orders: seq<seq<Student>>, n: nat)
    requires Drawn(students, orders) && n <= |students|
    ensures RecordsExactly(GenPrefix(students, weeks, orders, n).history, GenPrefix(students, weeks, orders, n).chains)
  {
    if n > 0 {
      GenPrefixHistory(students, weeks, orders, n - 1);
      NextPassHistory(students, weeks, orders, GenPrefix(students, weeks, orders, n - 1), n - 1);
    }
  }

  /** One step keeps the history equal to the set of pairs sent. */
  lemma NextPassHistory(students: seq<Student>, weeks: seq<int>, orders: seq<seq<Student>>, p: Pass, i: nat)
    requires Drawn(students, orders) && i < |students| && p.history.Keys == Ids(students)
    requires RecordsExactly(p.history, p.chains)
    ensures RecordsExactly(NextPass(students, weeks, orders, p, i).history, NextPass(students, weeks, orders, p, i).chains)
  {
    DrawnOrder(students, orders, i);
    BuildChainHistory(students[i], orders[i], p.history, weeks);
    var r := BuildChain(students[i], orders[i], p.history, weeks);
    HistoryStep(p.history, r.updated, p.chains, r.chain);
  }

  /** Extending the schedule by one chain extends the recorded pairs by that chain's pairs. */
  lemma HistoryStep(h: History, h': History, chains: seq<seq<SendEvent>>, c: seq<SendEvent>)
    requires RecordsExactly(h, chains) && Extends(h, h', c)
    ensures RecordsExactly(h', chains + [c])
  {
    var all: seq<seq<SendEvent>>, n := chains + [c], |chains|;
    forall a, b
      ensures SentIn(all, a, b) <==> SentIn(chains, a, b) || Sent(c, a, b)
    {
      if SentIn(all, a, b) {
        var i :| 0 <= i < |all| && Sent(all[i], a, b);
        if i < n {
          assert all[i] == chains[i];
        }
      }
      if SentIn(chains, a, b) {
        var i :| 0 <= i < n && Sent(chains[i], a, b);
        assert all[i] == chains[i];
      }
      if Sent(c, a, b) {
        assert all[n] == c;
      }
    }
  }

  /** No pair is sent twice among the chains, and the history records exactly the pairs sent. */
  ghost predicate Threaded(p: Pass)
  {
    NoRepeatedPair(p.chains) && RecordsExactly(p.history, p.chains)
  }

  /**
   * Because the history is threaded from chain to chain, no pair is sent
   * twice anywhere among the chains of the first `n` students.
   */
  lemma {:induction false} GenPrefixNoRepeat(students: seq<Student>, weeks: seq<int>, orders: seq<seq<Student>>, n: nat)
    requires Drawn(students, orders) && n <= |students|
    ensures Threaded(GenPrefix(students, weeks, orders, n))
  {
    if n == 0 {
      assert RecordsExactly(GenPrefix(students, weeks, orders, 0).history, []);
    } else {
      GenPrefixNoRepeat(students, weeks, orders, n - 1);
      NextPassThreaded(students, weeks, orders, GenPrefix(students, weeks, orders, n - 1), n - 1);
    }
  }

  /** One step keeps the pass threaded. */
  lemma NextPassThreaded(students: seq<Student>, weeks: seq<int>, orders: seq<seq<Student>>, p: Pass, i: nat)
    requires Drawn(students, orders) && i < |students| && p.history.Keys == Ids(students)
    requires Threaded(p)
    ensures Threaded(NextPass(students, weeks, orders, p, i))
  {
    NextPassHistory(students, weeks, orders, p, i);
    DrawnOrder(students, orders, i);
    StudentChainFresh(students, weeks, orders, i, p.history);
    NoRepeatExtend(p.chains, p.history, BuildChain(students[i], orders[i], p.history, weeks).chain);
  }

  /** A chain whose pairs the history had not marked keeps a schedule free of repeated pairs. */
  lemma NoRepeatExtend(chains: seq<seq<SendEvent>>, h: History, c: seq<SendEvent>)
    requires NoRepeatedPair(chains) && DistinctRecipients(c)
    requires RecordsExactly(h, chains) && Unmarked(h, c)
    ensures NoRepeatedPair(chains + [c])
  {
    var all := chains + [c];
    forall i, k, j, l |
      && 0 <= i < |all| && 0 <= k < |all[i]|
      && 0 <= j < |all| && 0 <= l < |all[j]|
      && (i != j || k != l)
      ensures Pair(all[i][k]) != Pair(all[j][l])
    {
      NoRepeatAt(chains, h, c, i, k, j, l);
    }
  }

  lemma SentAt(chain: seq<SendEvent>, k: int)
    requires 0 <= k < |chain|
    ensures Sent(chain, chain[k].from.id, chain[k].to.id)
  {
    assert Pair(chain[k]) == (chain[k].from.id, chain[k].to.id);
  }

  /** The pairs at two places of the extended schedule differ. */
  lemma NoRepeatAt(chains: seq<seq<SendEvent>>, h: History, c: seq<SendEvent>, i: int, k: int, j: int, l: int)
    requires NoRepeatedPair(chains) && DistinctRecipients(c)
    requires RecordsExactly(h, chains) && Unmarked(h, c)
    requires var all := chains + [c];
      && 0 <= i < |all| && 0 <= k < |all[i]|
      && 0 <= j < |all| && 0 <= l < |all[j]|
      && (i != j || k != l)
    ensures var all := chains + [c]; Pair(all[i][k]) != Pair(all[j][l])
  {
    var all: seq<seq<SendEvent>>, n := chains + [c], |chains|;
    if i == n && j == n {
      if k < l {
        assert all[i][k].to.id != all[j][l].to.id;
      } else {
        assert all[j][l].to.id != all[i][k].to.id;
      }
    } else if i == n {
      SentAt(c, k);
      assert all[j] == chains[j];
      SentAt(chains[j], l);
    } else if j == n {
      SentAt(c, l);
      assert all[i] == chains[i];
      SentAt(chains[i], k);
    } else {
      assert all[i] == chains[i] && all[j] == chains[j];
    }
  }

  /**
   * What a generated schedule promises: one chain per student in roster
   * order, each starting at its student and well formed, and no pair sent
   * twice anywhere in the schedule.
   */
  predicate WellFormedSchedule(students: seq<Student>, weeks: seq<int>, chains: seq<seq<SendEvent>>)
  {
    && |chains| == |students|
    && AllChainsOk(students, weeks, chains)
    && NoRepeatedPair(chains)
  }

  lemma ScheduleWellFormed(students: seq<Student>, weeks: seq<int>, orders: seq<seq<Student>>)
    requires Drawn(students, orders)
    ensures WellFormedSchedule(students, weeks, Schedule(students, weeks, orders))
  {
    GenPrefixChains(students, weeks, orders, |students|);
    GenPrefixNoRepeat(students, weeks, orders, |students|);
  }

  /**
   * `genSequences(students, weeks)` with the visiting orders supplied as
   * `orders`: the history starts empty and each student's chain is built from
   * the history the previous chains left.
   */
  method GenSequences(students: seq<Student>, weeks: seq<int>, orders: seq<seq<Student>>)
    returns (sequences: seq<seq<SendEvent>>)
    requires Drawn(students, orders)
    ensures sequences == Schedule(students, weeks, orders)
    ensures WellFormedSchedule(students, weeks, sequences)
  {
    var previousAssignments := EmptyHistory(students);
    sequences := [];
    var i := 0;
    while i < |students|
      invariant i <= |students|
      invariant GenPrefix(students, weeks, orders, i) == Pass(sequences, previousAssignments)
    {
      DrawnOrder(students, orders, i);
      var r := BuildChain(students[i], orders[i], previousAssignments, weeks);
      previousAssignments := r.updated;
      sequences := sequences + [r.chain];
      i := i + 1;
    }
    ScheduleWellFormed(students, weeks, orders);
  }
}
