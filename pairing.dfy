/**
 * Students, send events and the pairing history that the schedule
 * generator threads through its chains, with the two list operations
 * (`_.find` and `_.reject`) the chain builder relies on.
 */
module Pairing {

  datatype Option<+T> = None | Some(value: T)

  type StudentId = int

  /** A student: a stable identifier and a display name that plays no part in pairing. */
  datatype Student = Student(id: StudentId, name: string)

  /** One week's assignment: `from` sends to `to`. */
  datatype SendEvent = SendEvent(from: Student, to: Student)

  /**
   * The pairing history `Record<id, Record<id, boolean>>`: for every sender id,
   * the ids it has already sent to. The source only ever writes `true` into the
   * inner records, so a recorded pair is exactly a member of the inner set.
   */
  type History = map<StudentId, set<StudentId>>

  /** The pair of ids an event records in the history. */
  function Pair(e: SendEvent): (StudentId, StudentId)
  {
    (e.from.id, e.to.id)
  }

  /** `previousAssignments[a][b]` is truthy. */
  predicate Marked(h: History, a: StudentId, b: StudentId)
  {
    a in h && b in h[a]
  }

  /** The history with `a -> b` marked: `{...h, [a]: {...h[a], [b]: true}}`. */
  function Record(h: History, a: StudentId, b: StudentId): (h': History)
    requires a in h
    ensures h'.Keys == h.Keys
    ensures forall x, y :: Marked(h', x, y) <==> Marked(h, x, y) || (x == a && y == b)
  {
    h[a := h[a] + {b}]
  }

  /** The ids of a roster. */
  function Ids(students: seq<Student>): (ids: set<StudentId>)
    ensures forall s :: s in students ==> s.id in ids
  {
    set s | s in students :: s.id
  }

  /** `_.reject(students, ["id", id])`: every student whose id is not `id`, in order. */
  function Reject(students: seq<Student>, id: StudentId): (r: seq<Student>)
    ensures forall s {:trigger s in r} :: s in r <==> s in students && s.id != id
    ensures |r| <= |students|
    ensures (exists s :: s in students && s.id == id) ==> |r| < |students|
  {
    if students == [] then []
    else if students[0].id == id then Reject(students[1..], id)
    else [students[0]] + Reject(students[1..], id)
  }

  /**
   * `k` is the index `_.find` stops at when it looks for a student that
   * `from` has not yet sent to: every earlier todo is already marked and
   * `todos[k]` is not.
   */
  predicate FirstUnsentAt(h: History, from: StudentId, todos: seq<Student>, k: int)
  {
    && 0 <= k < |todos|
    && !Marked(h, from, todos[k].id)
    && forall j :: 0 <= j < k ==> Marked(h, from, todos[j].id)
  }

  /** The scan of `_.find`, from position `i` on; `|todos|` when nothing is found. */
  function UnsentIndexFrom(h: History, from: StudentId, todos: seq<Student>, i: nat): (k: nat)
    requires i <= |todos|
    ensures i <= k <= |todos|
    ensures forall j :: i <= j < k ==> Marked(h, from, todos[j].id)
    ensures k < |todos| ==> !Marked(h, from, todos[k].id)
    decreases |todos| - i
  {
    if i == |todos| then i
    else if !Marked(h, from, todos[i].id) then i
    else UnsentIndexFrom(h, from, todos, i + 1)
  }

  /** `_.find(todos, todo => !previousAssignments[from][todo.id])`. */
  function FindUnsent(h: History, from: StudentId, todos: seq<Student>): (r: Option<Student>)
    ensures r.None? <==> forall j :: 0 <= j < |todos| ==> Marked(h, from, todos[j].id)
    ensures r.Some? ==> exists k :: FirstUnsentAt(h, from, todos, k) && r.value == todos[k]
  {
    var k := UnsentIndexFrom(h, from, todos, 0);
    if k < |todos| then
      assert FirstUnsentAt(h, from, todos, k);
      Some(todos[k])
    else None
  }
}
