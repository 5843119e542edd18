/** The scheduler's query: READY tasks by priority rank, then age, up to a limit. */
module ReadyQuery {

  import opened Collections
  import opened StateMachines

  /** Priorities are text in the table; names outside the four sort last. */
  datatype Priority = Critical | High | Medium | Low | Other(name: string)

  datatype TaskRow = TaskRow(taskId: string, status: TaskStatus, priority: Priority, createdAt: int)

  const MAX_SAFE_INTEGER := 9007199254740991

  function Rank(p: Priority): int {
    match p
    case Critical => 0
    case High => 1
    case Medium => 2
    case Low => 3
    case Other(_) => MAX_SAFE_INTEGER
  }

  /** The sign of the comparator: not after. */
  predicate NotAfter(a: TaskRow, b: TaskRow) {
    var priorityDiff := Rank(a.priority) - Rank(b.priority);
    if priorityDiff != 0 then priorityDiff < 0 else a.createdAt - b.createdAt <= 0
  }

  predicate IsReady(t: TaskRow) {
    t.status == Ready
  }

  /** The end of `slice(0, limit)`: a negative limit counts from the end. */
  function SliceEnd(length: nat, limit: int): (r: nat)
    ensures r <= length
    ensures limit >= 0 ==> r == if limit < length then limit else length
    ensures limit < 0 ==> r == if length + limit > 0 then length + limit else 0
  {
    if limit >= length then length
    else if limit >= 0 then limit
    else if length + limit >= 0 then length + limit
    else 0
  }

  function FindReadyByPriority(rows: seq<TaskRow>, limit: int): (r: seq<TaskRow>) {
    var sorted := Sort(Filter(rows, IsReady), NotAfter);
    sorted[..SliceEnd(|sorted|, limit)]
  }

  /** The tasks the limit cuts off. */
  ghost function Omitted(rows: seq<TaskRow>, limit: int): seq<TaskRow> {
    var sorted := Sort(Filter(rows, IsReady), NotAfter);
    sorted[SliceEnd(|sorted|, limit)..]
  }

  lemma SortedReady(rows: seq<TaskRow>)
    ensures var sorted := Sort(Filter(rows, IsReady), NotAfter);
            Sorted(sorted, NotAfter) && multiset(sorted) == multiset(Filter(rows, IsReady))
            && |sorted| == |Filter(rows, IsReady)|
  {
    SortSorted(Filter(rows, IsReady), NotAfter);
    MultisetMembers(Sort(Filter(rows, IsReady), NotAfter), Filter(rows, IsReady));
  }

  lemma SplitSorted(sorted: seq<TaskRow>, n: nat)
    requires Sorted(sorted, NotAfter) && n <= |sorted|
    ensures multiset(sorted[..n]) + multiset(sorted[n..]) == multiset(sorted)
    ensures Sorted(sorted[..n], NotAfter)
    ensures NoneBefore(sorted[..n], sorted[n..])
  {
    assert sorted == sorted[..n] + sorted[n..];
  }

  ghost predicate NoneBefore(first: seq<TaskRow>, second: seq<TaskRow>) {
    forall a, b :: a in first && b in second ==> NotAfter(a, b)
  }

  /** Returned and omitted tasks together are the READY ones, each as often as it is stored; the
      result has as many as the limit allows, is in order, and no omitted task precedes a returned one. */
  lemma {:induction false} ReadyQueryExact(rows: seq<TaskRow>, limit: int)
    ensures var r, omitted := FindReadyByPriority(rows, limit), Omitted(rows, limit);
            && multiset(r) + multiset(omitted) == multiset(Filter(rows, IsReady))
            && |r| == SliceEnd(|Filter(rows, IsReady)|, limit)
            && Sorted(r, NotAfter) && NoneBefore(r, omitted)
  {
    SortedReady(rows);
    var sorted := Sort(Filter(rows, IsReady), NotAfter);
    SplitSorted(sorted, SliceEnd(|sorted|, limit));
  }

  /** The four priorities, most urgent first. */
  const URGENCY: seq<Priority> := [Critical, High, Medium, Low]

  /** Strictly more urgent: earlier in that list, or in it at all against a name outside it. */
  ghost predicate MoreUrgent(a: Priority, b: Priority) {
    || (exists i, k :: 0 <= i < k < |URGENCY| && URGENCY[i] == a && URGENCY[k] == b)
    || (a in URGENCY && b !in URGENCY)
  }

  lemma UrgencyIsRank(a: Priority, b: Priority)
    ensures MoreUrgent(a, b) <==> Rank(a) < Rank(b)
  {
    assert URGENCY[0] == Critical && URGENCY[1] == High && URGENCY[2] == Medium && URGENCY[3] == Low;
    if Rank(a) < Rank(b) && !b.Other? {
      assert URGENCY[Rank(a)] == a && URGENCY[Rank(b)] == b;
    }
  }

  /** Out of turn: less urgent, or as urgent and younger. */
  ghost predicate OutOfTurn(first: TaskRow, second: TaskRow) {
    || MoreUrgent(second.priority, first.priority)
    || (!MoreUrgent(first.priority, second.priority) && second.createdAt < first.createdAt)
  }

  /** No task goes out of turn: neither before another returned one nor while another is left out. Every
      task returned or left out is READY, and every READY one is returned or left out. */
  lemma {:induction false} NoneOutOfTurn(rows: seq<TaskRow>, limit: int, a: TaskRow, b: TaskRow)
    ensures forall i, j :: 0 <= i < j < |FindReadyByPriority(rows, limit)| ==>
              !OutOfTurn(FindReadyByPriority(rows, limit)[i], FindReadyByPriority(rows, limit)[j])
    ensures a in FindReadyByPriority(rows, limit) && b in Omitted(rows, limit) ==> !OutOfTurn(a, b)
    ensures a in FindReadyByPriority(rows, limit) || a in Omitted(rows, limit) <==> a in rows && a.status == Ready
  {
    var r, omitted := FindReadyByPriority(rows, limit), Omitted(rows, limit);
    ReadyQueryExact(rows, limit);
    forall i, j | 0 <= i < j < |r|
      ensures !OutOfTurn(r[i], r[j])
    {
      InTurn(r[i], r[j]);
    }
    if a in r && b in omitted {
      InTurn(a, b);
    }
    ReturnedOrOmitted(rows, limit, a);
  }

  lemma InTurn(a: TaskRow, b: TaskRow)
    ensures NotAfter(a, b) <==> !OutOfTurn(a, b)
  {
    UrgencyIsRank(a.priority, b.priority);
    UrgencyIsRank(b.priority, a.priority);
  }

  lemma ReturnedOrOmitted(rows: seq<TaskRow>, limit: int, a: TaskRow)
    ensures a in FindReadyByPriority(rows, limit) || a in Omitted(rows, limit) <==> a in rows && a.status == Ready
  {
    PartsOfSorted(rows, limit);
    MultisetMembers(Sort(Filter(rows, IsReady), NotAfter), Filter(rows, IsReady));
    FilterMembers(rows, IsReady);
    var sorted := FindReadyByPriority(rows, limit) + Omitted(rows, limit);
    assert a in sorted <==> a in FindReadyByPriority(rows, limit) || a in Omitted(rows, limit);
  }

  predicate SameKey(p: Priority, createdAt: int, t: TaskRow) {
    (t.priority == p || (t.priority.Other? && p.Other?)) && t.createdAt == createdAt
  }

  function HasKey(p: Priority, createdAt: int): TaskRow -> bool {
    t => SameKey(p, createdAt, t)
  }

  lemma StableByKey(ready: seq<TaskRow>, p: Priority, createdAt: int)
    ensures Filter(Sort(ready, NotAfter), HasKey(p, createdAt)) == Filter(ready, HasKey(p, createdAt))
  {
    var same := HasKey(p, createdAt);
    forall y, z | same(y) && same(z)
      ensures NotAfter(y, z)
    {
    }
    SortStable(ready, NotAfter, same);
  }

  lemma TiesInParts(ready: seq<TaskRow>, a: seq<TaskRow>, b: seq<TaskRow>, p: Priority, createdAt: int)
    requires a + b == Sort(ready, NotAfter)
    ensures Filter(a, HasKey(p, createdAt)) + Filter(b, HasKey(p, createdAt)) == Filter(ready, HasKey(p, createdAt))
  {
    FilterConcat(a, b, HasKey(p, createdAt));
    StableByKey(ready, p, createdAt);
  }

  lemma PartsOfSorted(rows: seq<TaskRow>, limit: int)
    ensures FindReadyByPriority(rows, limit) + Omitted(rows, limit) == Sort(Filter(rows, IsReady), NotAfter)
  {
  }

  /** Tasks of equal rank and age come out in table order, the omitted ones last, so the limit cuts
      off the latest of them and a repeated query answers alike. */
  lemma {:induction false} TiesKeepTableOrder(rows: seq<TaskRow>, limit: int, p: Priority, createdAt: int)
    ensures var same := HasKey(p, createdAt);
            Filter(FindReadyByPriority(rows, limit), same) + Filter(Omitted(rows, limit), same) ==
            Filter(Filter(rows, IsReady), same)
  {
    PartsOfSorted(rows, limit);
    TiesInParts(Filter(rows, IsReady), FindReadyByPriority(rows, limit), Omitted(rows, limit), p, createdAt);
  }
}
