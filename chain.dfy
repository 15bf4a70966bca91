/**
 * The recursive first-fit chain builder `buildChain`: starting from one
 * student it repeatedly sends to the first todo that the current sender has
 * not sent to yet, hands the chain on to that recipient and consumes one week.
 */
module Chains {
  import opened Pairing

  /** `ChainResponse`: the chain built and the history after it. */
  datatype ChainResponse = ChainResponse(chain: seq<SendEvent>, updated: History)

  /** Every todo has an entry in the history, as the lookups of `buildChain` need. */
  predicate Covered(h: History, todos: seq<Student>)
  {
    forall t :: t in todos ==> t.id in h
  }

  function BuildChain(start: Student, todos: seq<Student>, h: History, weeks: seq<int>): (r: ChainResponse)
    requires start.id in h && Covered(h, todos)
    ensures r.updated.Keys == h.Keys
    ensures |r.chain| <= |todos| && |r.chain| <= |weeks|
    decreases |weeks|
  {
    if |todos| == 0 || |weeks| == 0 then
      ChainResponse([], h)
    else
      match FindUnsent(h, start.id, todos)
      case None => ChainResponse([], h)
      case Some(to) =>
        var rest := BuildChain(to, Reject(todos, to.id), Record(h, start.id, to.id), weeks[1..]);
        ChainResponse([SendEvent(start, to)] + rest.chain, rest.updated)
  }

  /**
   * The three ways a chain ends at once (no todos, no weeks left, or a dead
   * end where `start` has sent to every todo), and otherwise the first-fit
   * choice: the first event goes from `start` to the first todo it has not
   * sent to yet.
   */
  lemma BuildChainFirstStep(start: Student, todos: seq<Student>, h: History, weeks: seq<int>)
    requires start.id in h && Covered(h, todos)
    ensures var r := BuildChain(start, todos, h, weeks);
      && (r.chain == [] <==>
            todos == [] || weeks == [] || forall j :: 0 <= j < |todos| ==> Marked(h, start.id, todos[j].id))
      && (r.chain == [] ==> r.updated == h)
      && (r.chain != [] ==>
            r.chain[0].from == start && exists k :: FirstUnsentAt(h, start.id, todos, k) && r.chain[0].to == todos[k])
  {
  }

  /** The first event leaves from `start`, and each later event from the previous recipient. */
  predicate Linked(start: Student, chain: seq<SendEvent>)
  {
    && (chain != [] ==> chain[0].from == start)
    && forall i :: 0 < i < |chain| ==> chain[i].from == chain[i - 1].to
  }

  /** No two events of the chain go to the same student id. */
  predicate DistinctRecipients(chain: seq<SendEvent>)
  {
    forall i, j :: 0 <= i < j < |chain| ==> chain[i].to.id != chain[j].to.id
  }

  /** Every recipient is one of `todos`. */
  predicate RecipientsFrom(chain: seq<SendEvent>, todos: seq<Student>)
  {
    forall i :: 0 <= i < |chain| ==> chain[i].to in todos
  }

  /** No event of the chain sends to its own sender. */
  predicate NoSelfSend(chain: seq<SendEvent>)
  {
    forall i :: 0 <= i < |chain| ==> chain[i].from.id != chain[i].to.id
  }

  /** The chain holds an event `a -> b`. */
  predicate Sent(chain: seq<SendEvent>, a: StudentId, b: StudentId)
  {
    exists i :: 0 <= i < |chain| && Pair(chain[i]) == (a, b)
  }

  /** `h'` marks exactly what `h` marks plus the pairs of `chain`. */
  ghost predicate Extends(h: History, h': History, chain: seq<SendEvent>)
  {
    forall a, b :: Marked(h', a, b) <==> Marked(h, a, b) || Sent(chain, a, b)
  }

  /** None of the pairs of `chain` is marked in `h`. */
  ghost predicate Unmarked(h: History, chain: seq<SendEvent>)
  {
    forall a, b :: Sent(chain, a, b) ==> !Marked(h, a, b)
  }

  lemma {:induction false} BuildChainLinked(start: Student, todos: seq<Student>, h: History, weeks: seq<int>)
    requires start.id in h && Covered(h, todos)
    ensures Linked(start, BuildChain(start, todos, h, weeks).chain)
    decreases |weeks|
  {
    if |todos| > 0 && |weeks| > 0 {
      match FindUnsent(h, start.id, todos)
      case None =>
      case Some(to) =>
        BuildChainLinked(to, Reject(todos, to.id), Record(h, start.id, to.id), weeks[1..]);
    }
  }

  /** Every recipient is one of the todos, and no two recipients share an id. */
  lemma {:induction false} BuildChainRecipients(start: Student, todos: seq<Student>, h: History, weeks: seq<int>)
    requires start.id in h && Covered(h, todos)
    ensures RecipientsFrom(BuildChain(start, todos, h, weeks).chain, todos)
    ensures DistinctRecipients(BuildChain(start, todos, h, weeks).chain)
    decreases |weeks|
  {
    if |todos| > 0 && |weeks| > 0 {
      match FindUnsent(h, start.id, todos)
      case None =>
      case Some(to) =>
        var todos' := Reject(todos, to.id);
        var h' := Record(h, start.id, to.id);
        BuildChainRecipients(to, todos', h', weeks[1..]);
        var rest := BuildChain(to, todos', h', weeks[1..]).chain;
        assert BuildChain(start, todos, h, weeks).chain == [SendEvent(start, to)] + rest;
        RecipientsPrepend(SendEvent(start, to), rest, todos, todos');
    }
  }

  /** Prepending an event whose recipient the rest of the chain avoids. */
  lemma RecipientsPrepend(e: SendEvent, rest: seq<SendEvent>, todos: seq<Student>, todos': seq<Student>)
    requires e.to in todos && forall t :: t in todos' ==> t in todos && t.id != e.to.id
    requires RecipientsFrom(rest, todos') && DistinctRecipients(rest)
    ensures RecipientsFrom([e] + rest, todos) && DistinctRecipients([e] + rest)
  {
    var c := [e] + rest;
    forall i | 0 < i < |c|
      ensures c[i].to in todos && c[i].to.id != e.to.id
    {
      assert c[i] == rest[i - 1];
    }
    forall i, j | 0 < i < j < |c|
      ensures c[i].to.id != c[j].to.id
    {
      assert c[i] == rest[i - 1] && c[j] == rest[j - 1];
    }
  }

  /** When `start` is not among the todos, nobody in the chain sends to themself. */
  lemma BuildChainNoSelfSend(start: Student, todos: seq<Student>, h: History, weeks: seq<int>)
    requires start.id in h && Covered(h, todos)
    requires forall t :: t in todos ==> t.id != start.id
    ensures NoSelfSend(BuildChain(start, todos, h, weeks).chain)
  {
    var c := BuildChain(start, todos, h, weeks).chain;
    BuildChainLinked(start, todos, h, weeks);
    BuildChainRecipients(start, todos, h, weeks);
    forall i | 0 <= i < |c|
      ensures c[i].from.id != c[i].to.id
    {
      if i > 0 {
        assert c[i].from == c[i - 1].to;
      }
    }
  }

  /**
   * The history afterwards holds exactly the input history plus the pairs of
   * the chain, and none of those pairs was in the input history.
   */
  lemma {:induction false} BuildChainHistory(start: Student, todos: seq<Student>, h: History, weeks: seq<int>)
    requires start.id in h && Covered(h, todos)
    ensures Extends(h, BuildChain(start, todos, h, weeks).updated, BuildChain(start, todos, h, weeks).chain)
    ensures Unmarked(h, BuildChain(start, todos, h, weeks).chain)
    decreases |weeks|
  {
    if |todos| > 0 && |weeks| > 0 {
      match FindUnsent(h, start.id, todos)
      case None =>
      case Some(to) =>
        var todos' := Reject(todos, to.id);
        var h' := Record(h, start.id, to.id);
        BuildChainHistory(to, todos', h', weeks[1..]);
        var rest := BuildChain(to, todos', h', weeks[1..]);
        assert BuildChain(start, todos, h, weeks) == ChainResponse([SendEvent(start, to)] + rest.chain, rest.updated);
        HistoryPrepend(h, h', rest.updated, SendEvent(start, to), rest.chain);
    }
  }

  /** Prepending the event `e` that took `h` to `h'` to a chain that extends `h'`. */
  lemma HistoryPrepend(h: History, h': History, hEnd: History, e: SendEvent, rest: seq<SendEvent>)
    requires forall a, b :: Marked(h', a, b) <==> Marked(h, a, b) || Pair(e) == (a, b)
    requires !Marked(h, e.from.id, e.to.id)
    requires Extends(h', hEnd, rest) && Unmarked(h', rest)
    ensures Extends(h, hEnd, [e] + rest) && Unmarked(h, [e] + rest)
  {
    var c := [e] + rest;
    forall a, b
      ensures Sent(c, a, b) <==> Pair(e) == (a, b) || Sent(rest, a, b)
    {
      if Sent(c, a, b) {
        var i :| 0 <= i < |c| && Pair(c[i]) == (a, b);
        if i > 0 {
          assert Pair(rest[i - 1]) == (a, b);
        }
      }
      if Sent(rest, a, b) {
        var i :| 0 <= i < |rest| && Pair(rest[i]) == (a, b);
        assert Pair(c[i + 1]) == (a, b);
      }
      if Pair(e) == (a, b) {
        assert Pair(c[0]) == (a, b);
      }
    }
  }
}
