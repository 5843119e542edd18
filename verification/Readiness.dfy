/** Readiness reconciliation: one pass over the waiting tasks moves each to READY or BLOCKED. */
module Readiness {

  import opened Wrappers
  import opened Collections
  import opened StateMachines
  import opened LeaseStore
  import D = DependencyGraph
  import G = Graphs

  type Tasks = map<TaskId, Task>

  datatype BlockingReason = BlockingReason(dependsOnTaskId: TaskId, prerequisiteStatus: TaskStatus)

  datatype ReadinessResult = TaskReady | TaskBlocked(reasons: seq<BlockingReason>)

  predicate HardBlock(e: D.Edge) {
    e.kind == D.Blocks && e.isHardBlock
  }

  predicate IsDone(tasks: Tasks, t: TaskId) {
    t in tasks && tasks[t].status == Done
  }

  /** Every hard-block prerequisite exists and is DONE. */
  ghost predicate IsReady(tasks: Tasks, edges: D.EdgeTable, t: TaskId) {
    forall id :: id in edges && edges[id].taskId == t && HardBlock(edges[id]) ==>
        IsDone(tasks, edges[id].dependsOnTaskId)
  }

  /** An edge of type "blocks", marked hard, to a task that is missing or not DONE. */
  ghost predicate PendingBlock(tasks: Tasks, edges: D.EdgeTable, t: TaskId, id: D.EdgeId) {
    && id in edges && edges[id].taskId == t && edges[id].kind == D.Blocks && edges[id].isHardBlock
    && !(edges[id].dependsOnTaskId in tasks && tasks[edges[id].dependsOnTaskId].status == Done)
  }

  predicate Waiting(tasks: Tasks, t: TaskId) {
    t in tasks && (tasks[t].status == Backlog || tasks[t].status == Blocked)
  }

  ghost function ToReady(tasks: Tasks, edges: D.EdgeTable): set<TaskId> {
    set t | t in tasks && Waiting(tasks, t) && IsReady(tasks, edges, t)
  }

  ghost function ToBlocked(tasks: Tasks, edges: D.EdgeTable): set<TaskId> {
    set t | t in tasks && tasks[t].status == Backlog && !IsReady(tasks, edges, t)
  }

  /** Where the pass leaves one task, judged on the state it started from. */
  ghost function Moved(tasks: Tasks, edges: D.EdgeTable, t: TaskId): Task
    requires t in tasks
  {
    var row := tasks[t];
    if t in ToReady(tasks, edges) then row.(status := Ready, version := row.version + 1)
    else if t in ToBlocked(tasks, edges) then row.(status := Blocked, version := row.version + 1)
    else row
  }

  ghost function Reconciled(tasks: Tasks, edges: D.EdgeTable): Tasks {
    map t | t in tasks :: Moved(tasks, edges, t)
  }

  /** What a pass does to one row: a waiting task with nothing pending becomes READY, one in the backlog
      with something pending becomes BLOCKED, and every other row stays as it is. */
  lemma PassWrites(tasks: Tasks, edges: D.EdgeTable, t: TaskId)
    requires t in tasks
    ensures var row, after := tasks[t], Reconciled(tasks, edges)[t];
            var blocked := exists id :: PendingBlock(tasks, edges, t, id);
            && (row.status in {Backlog, Blocked} && !blocked ==>
                 after == row.(status := Ready, version := row.version + 1))
            && (row.status == Backlog && blocked ==> after == row.(status := Blocked, version := row.version + 1))
            && (row.status !in {Backlog, Blocked} || (row.status == Blocked && blocked) ==> after == row)
    ensures Reconciled(tasks, edges).Keys == tasks.Keys
  {
    ReadyIffNothingPending(tasks, edges, t);
  }

  lemma ReadyIffNothingPending(tasks: Tasks, edges: D.EdgeTable, t: TaskId)
    ensures IsReady(tasks, edges, t) <==> !exists id :: PendingBlock(tasks, edges, t, id)
  {
    if !exists id :: PendingBlock(tasks, edges, t, id) {
      forall id | id in edges && edges[id].taskId == t && HardBlock(edges[id])
        ensures IsDone(tasks, edges[id].dependsOnTaskId)
      {
        assert !PendingBlock(tasks, edges, t, id);
      }
    }
  }

  ghost predicate SameDone(a: Tasks, b: Tasks) {
    forall t :: IsDone(a, t) <==> IsDone(b, t)
  }

  lemma SameDoneSameReady(a: Tasks, b: Tasks, edges: D.EdgeTable, t: TaskId)
    requires SameDone(a, b)
    ensures IsReady(a, edges, t) <==> IsReady(b, edges, t)
  {
  }

  method FindByStatus(tasks: Tasks, status: TaskStatus) returns (ids: seq<TaskId>)
    ensures Distinct(ids)
    ensures forall t :: t in ids <==> t in tasks && tasks[t].status == status
  {
    var rest := set t | t in tasks && tasks[t].status == status;
    ids := [];
    while rest != {}
      invariant Distinct(ids)
      invariant forall t :: t in ids ==> t !in rest
      invariant forall t :: t in ids || t in rest <==> t in tasks && tasks[t].status == status
    {
      var t :| t in rest;
      ids := ids + [t];
      rest := rest - {t};
    }
  }

  /** The readiness query: the task is ready unless some hard-block prerequisite is missing or not DONE. */
  method ComputeReadiness(tasks: Tasks, edges: D.EdgeTable, taskId: TaskId) returns (r: Result<ReadinessResult, Error>)
    ensures r.Err? <==> taskId !in tasks
    ensures r.Ok? ==> (r.value.TaskReady? <==> IsReady(tasks, edges, taskId))
    ensures r.Ok? ==> (r.value.TaskReady? <==> !exists id :: PendingBlock(tasks, edges, taskId, id))
    ensures r.Ok? && r.value.TaskBlocked? ==> r.value.reasons != []
    ensures r.Ok? && r.value.TaskBlocked? ==>
              forall why :: why in r.value.reasons ==> TrueReason(tasks, edges, taskId, why)
    ensures r.Ok? && r.value.TaskBlocked? ==>
              forall id :: id in edges && edges[id].taskId == taskId && HardBlock(edges[id])
                           && !IsDone(tasks, edges[id].dependsOnTaskId) ==>
                             exists why :: why in r.value.reasons && why.dependsOnTaskId == edges[id].dependsOnTaskId
  {
    if taskId !in tasks {
      return Err(NotFound);
    }
    ReadyIffNothingPending(tasks, edges, taskId);
    var hardBlocks := set id | id in edges && edges[id].taskId == taskId && HardBlock(edges[id]);
    var rest := hardBlocks;
    var reasons: seq<BlockingReason> := [];
    while rest != {}
      invariant rest <= hardBlocks
      invariant forall why :: why in reasons ==> TrueReason(tasks, edges, taskId, why)
      invariant forall id :: id in hardBlocks && id !in rest && !IsDone(tasks, edges[id].dependsOnTaskId) ==>
                               Reported(reasons, edges[id].dependsOnTaskId)
    {
      var id :| id in rest;
      rest := rest - {id};
      var prerequisite := edges[id].dependsOnTaskId;
      ghost var before := reasons;
      assert HardBlocks(edges, taskId, prerequisite);
      if prerequisite !in tasks {
        reasons := reasons + [BlockingReason(prerequisite, Backlog)];
        assert reasons[|before|].dependsOnTaskId == prerequisite;
      } else if tasks[prerequisite].status != Done {
        reasons := reasons + [BlockingReason(prerequisite, tasks[prerequisite].status)];
        assert reasons[|before|].dependsOnTaskId == prerequisite;
      }
      forall d | Reported(before, d)
        ensures Reported(reasons, d)
      {
        var why :| why in before && why.dependsOnTaskId == d;
        assert why in reasons;
      }
    }
    if reasons == [] {
      return Ok(TaskReady);
    }
    assert TrueReason(tasks, edges, taskId, reasons[0]);
    r := Ok(TaskBlocked(reasons));
  }

  ghost predicate HardBlocks(edges: D.EdgeTable, t: TaskId, prerequisite: TaskId) {
    exists id :: id in edges && edges[id].taskId == t && HardBlock(edges[id])
        && edges[id].dependsOnTaskId == prerequisite
  }

  /** A hard-block prerequisite of the task that is not DONE, with its status; a missing one counts as BACKLOG. */
  ghost predicate TrueReason(tasks: Tasks, edges: D.EdgeTable, t: TaskId, why: BlockingReason) {
    var p := why.dependsOnTaskId;
    && HardBlocks(edges, t, p) && !IsDone(tasks, p)
    && why.prerequisiteStatus == if p in tasks then tasks[p].status else Backlog
  }

  ghost predicate Reported(reasons: seq<BlockingReason>, d: TaskId) {
    exists why :: why in reasons && why.dependsOnTaskId == d
  }

  /** The members of the prefix that belong to a set: how far a counter has come. */
  ghost function Seen(candidates: seq<TaskId>, i: nat, moved: set<TaskId>): set<TaskId>
    requires i <= |candidates|
  {
    set t | t in candidates[..i] && t in moved
  }

  lemma SeenNext(candidates: seq<TaskId>, i: nat, moved: set<TaskId>)
    requires i < |candidates| && Distinct(candidates)
    ensures |Seen(candidates, i + 1, moved)| == |Seen(candidates, i, moved)| + (if candidates[i] in moved then 1 else 0)
  {
    assert candidates[..i + 1] == candidates[..i] + [candidates[i]];
    if candidates[i] in moved {
      assert Seen(candidates, i + 1, moved) == Seen(candidates, i, moved) + {candidates[i]};
      assert candidates[i] !in candidates[..i];
    } else {
      assert Seen(candidates, i + 1, moved) == Seen(candidates, i, moved);
    }
  }

  /** What the loop has done after its first i candidates. */
  ghost predicate Progress(before: Tasks, now: Tasks, edges: D.EdgeTable, candidates: seq<TaskId>, i: nat)
    requires i <= |candidates|
  {
    && now.Keys == before.Keys
    && forall t :: t in before ==> now[t] == if t in candidates[..i] then Moved(before, edges, t) else before[t]
  }

  ghost predicate Candidates(before: Tasks, candidates: seq<TaskId>) {
    Distinct(candidates) && forall t :: t in candidates <==> Waiting(before, t)
  }

  /** The moves made so far leave the next candidate, and the verdict on it, as they were at the start. */
  lemma VerdictUnchanged(before: Tasks, now: Tasks, edges: D.EdgeTable, candidates: seq<TaskId>, i: nat)
    requires Candidates(before, candidates) && i < |candidates| && Progress(before, now, edges, candidates, i)
    ensures var t := candidates[i];
            && t in before && t in now && now[t] == before[t]
            && (t in ToReady(now, edges) <==> t in ToReady(before, edges))
            && (t in ToBlocked(now, edges) <==> t in ToBlocked(before, edges))
            && Moved(now, edges, t) == Moved(before, edges, t)
  {
    var t := candidates[i];
    assert t in candidates && t !in candidates[..i];
    assert SameDone(before, now);
    SameDoneSameReady(before, now, edges, t);
  }

  lemma ProgressNext(before: Tasks, now: Tasks, next: Tasks, edges: D.EdgeTable, candidates: seq<TaskId>, i: nat)
    requires i < |candidates| && Progress(before, now, edges, candidates, i) && candidates[i] in before
    requires next == now[candidates[i] := Moved(before, edges, candidates[i])]
    ensures Progress(before, next, edges, candidates, i + 1)
  {
    assert candidates[..i + 1] == candidates[..i] + [candidates[i]];
  }

  lemma PassEnds(before: Tasks, end: Tasks, edges: D.EdgeTable, candidates: seq<TaskId>)
    requires Candidates(before, candidates) && Progress(before, end, edges, candidates, |candidates|)
    ensures end == Reconciled(before, edges)
    ensures Seen(candidates, |candidates|, ToReady(before, edges)) == ToReady(before, edges)
    ensures Seen(candidates, |candidates|, ToBlocked(before, edges)) == ToBlocked(before, edges)
    ensures |candidates| == |set t | t in before && Waiting(before, t)|
  {
    assert candidates[..|candidates|] == candidates;
    DistinctCardinality(candidates);
    assert (set t | t in candidates) == (set t | t in before && Waiting(before, t));
  }

  /** The body of the pass for one candidate, whose status in the snapshot is given. */
  method ReconcileOne(db: Database, edges: D.EdgeTable, taskId: TaskId, status: TaskStatus)
    returns (moved: Option<TaskStatus>)
    requires Waiting(db.tasks, taskId) && db.tasks[taskId].status == status
    modifies db
    ensures db.tasks == old(db.tasks)[taskId := Moved(old(db.tasks), edges, taskId)]
    ensures db.leases == old(db.leases)
    ensures |db.audit| == |old(db.audit)| + (if moved.Some? then 1 else 0)
    ensures moved == if taskId in ToReady(old(db.tasks), edges) then Some(Ready)
                     else if taskId in ToBlocked(old(db.tasks), edges) then Some(Blocked)
                     else None
  {
    var readiness := ComputeReadiness(db.tasks, edges, taskId);
    moved := None;
    if status == Backlog && readiness.value.TaskReady? {
      var error := db.TransitionTask(taskId, Ready, Flags({AllDependenciesResolved}));
      if error.None? {
        moved := Some(Ready);
      }
    } else if status == Backlog && readiness.value.TaskBlocked? {
      var error := db.TransitionTask(taskId, Blocked, Flags({HasBlockers}));
      if error.None? {
        moved := Some(Blocked);
      }
    } else if status == Blocked && readiness.value.TaskReady? {
      var error := db.TransitionTask(taskId, Ready, Flags({AllDependenciesResolved}));
      if error.None? {
        moved := Some(Ready);
      }
    }
  }

  /** The snapshot the pass works through: the backlog, then the blocked tasks. */
  method FindCandidates(tasks: Tasks) returns (candidates: seq<TaskId>)
    ensures Candidates(tasks, candidates)
  {
    var backlog := FindByStatus(tasks, Backlog);
    var blocked := FindByStatus(tasks, Blocked);
    candidates := backlog + blocked;
    DistinctConcat(backlog, blocked);
  }

  /** One pass moves every waiting task exactly as readiness of the starting state says, counts
      the moves, touches no lease, and needs no luck: every transition it tries is accepted. */
  method ReconcileTaskReadiness(db: Database, edges: D.EdgeTable)
    returns (evaluatedCount: nat, transitionedToReady: nat, transitionedToBlocked: nat)
    modifies db
    ensures db.tasks == Reconciled(old(db.tasks), edges)
    ensures db.leases == old(db.leases)
    ensures evaluatedCount == |set t | t in old(db.tasks) && Waiting(old(db.tasks), t)|
    ensures transitionedToReady == |ToReady(old(db.tasks), edges)|
    ensures transitionedToBlocked == |ToBlocked(old(db.tasks), edges)|
    ensures |db.audit| == |old(db.audit)| + transitionedToReady + transitionedToBlocked
  {
    var before := db.tasks;
    var candidates := FindCandidates(before);
    ghost var ready, block := ToReady(before, edges), ToBlocked(before, edges);

    transitionedToReady, transitionedToBlocked := 0, 0;
    for i := 0 to |candidates|
      invariant Progress(before, db.tasks, edges, candidates, i)
      invariant db.leases == old(db.leases)
      invariant transitionedToReady == |Seen(candidates, i, ready)|
      invariant transitionedToBlocked == |Seen(candidates, i, block)|
      invariant |db.audit| == |old(db.audit)| + transitionedToReady + transitionedToBlocked
    {
      var taskId := candidates[i];
      ghost var now := db.tasks;
      VerdictUnchanged(before, now, edges, candidates, i);
      SeenNext(candidates, i, ready);
      SeenNext(candidates, i, block);
      assert taskId in candidates;

      var moved := ReconcileOne(db, edges, taskId, before[taskId].status);
      if moved == Some(Ready) {
        transitionedToReady := transitionedToReady + 1;
      } else if moved == Some(Blocked) {
        transitionedToBlocked := transitionedToBlocked + 1;
      }
      ProgressNext(before, now, db.tasks, edges, candidates, i);
    }
    PassEnds(before, db.tasks, edges, candidates);
    evaluatedCount := |candidates|;
  }

  /** A second pass at once finds nothing to do: one pass reaches the fixpoint. */
  lemma SecondPassChangesNothing(tasks: Tasks, edges: D.EdgeTable)
    ensures var once := Reconciled(tasks, edges);
            && Reconciled(once, edges) == once
            && ToReady(once, edges) == {} && ToBlocked(once, edges) == {}
  {
    var once := Reconciled(tasks, edges);
    assert SameDone(tasks, once);
    forall t | t in once
      ensures t !in ToReady(once, edges) && t !in ToBlocked(once, edges)
    {
      SameDoneSameReady(tasks, once, edges, t);
    }
  }

  ghost function HardPairs(edges: D.EdgeTable): set<(TaskId, TaskId)> {
    set id | id in edges && HardBlock(edges[id]) :: (edges[id].taskId, edges[id].dependsOnTaskId)
  }

  /** No number of passes frees a waiting task that sits on a hard-block cycle with nothing DONE on it. */
  lemma CycleStaysBlocked(tasks: Tasks, edges: D.EdgeTable, cycle: seq<TaskId>, k: nat, passes: nat)
    requires G.Cycle(HardPairs(edges), cycle) && k < |cycle|
    requires forall t :: t in cycle ==> !IsDone(tasks, t)
    requires Waiting(tasks, cycle[k])
    ensures var end := Passes(tasks, edges, passes + 1);
            cycle[k] in end && end[cycle[k]].status == Blocked
  {
    var i := if k + 1 < |cycle| then k else 0;
    assert G.StepAt(HardPairs(edges), cycle, i);
    var id :| id in edges && HardBlock(edges[id]) && edges[id].taskId == cycle[i]
        && edges[id].dependsOnTaskId == cycle[i + 1];
    assert cycle[i + 1] in cycle;
    assert !IsReady(tasks, edges, cycle[k]);
    PassesSettle(tasks, edges, passes);
  }

  ghost function Passes(tasks: Tasks, edges: D.EdgeTable, n: nat): Tasks {
    if n == 0 then tasks else Reconciled(Passes(tasks, edges, n - 1), edges)
  }

  lemma {:induction false} PassesSettle(tasks: Tasks, edges: D.EdgeTable, n: nat)
    ensures Passes(tasks, edges, n + 1) == Reconciled(tasks, edges)
  {
    if n > 0 {
      PassesSettle(tasks, edges, n - 1);
      SecondPassChangesNothing(tasks, edges);
    } else {
      assert Passes(tasks, edges, 0) == tasks;
    }
  }
}
