/** Optimistic concurrency on the task table: what versions say about every interleaving of writers. */
module TaskVersions {

  import opened Wrappers
  import opened Collections
  import opened StateMachines
  import opened LeaseStore

  /** The task whose row a step sets out to write. */
  function Target(s: Store, e: Event): Option<TaskId> {
    match e
    case AcquireLease(t, _, _, _, _) => Some(t)
    case TransitionTask(t, _, _) => Some(t)
    case RerunReview(t) => Some(t)
    case Reopen(t) => Some(t)
    case ChangePriority(t, _) => Some(t)
    case UpdateMetadata(t, _, _, _) => Some(t)
    case ReclaimLease(l, _, _, _, _) =>
      if l in s.leases && s.leases[l].taskId in s.tasks && AtWork(s.tasks[s.leases[l].taskId])
      then Some(s.leases[l].taskId) else None
    case _ => None
  }

  predicate AtWork(task: Task) {
    task.status == Assigned || task.status == InDevelopment
  }

  predicate CommitsOn(s: Store, e: Event, t: TaskId) {
    Apply(s, e).Commit? && Target(s, e) == Some(t)
  }

  /** The version a writer's update is conditional on: the one the caller quotes, or the one the step
      reads in its own transaction. */
  function Quotes(s: Store, e: Event, t: TaskId): nat
    requires t in s.tasks
  {
    if e.UpdateMetadata? then e.quotedVersion else s.tasks[t].version
  }

  /** A row changes exactly when a writer of it commits, and then its version rises by exactly one
      from the version that writer quoted. */
  lemma RowChangesIffCommitted(s: Store, e: Event, t: TaskId)
    requires t in s.tasks
    ensures t in Next(s, e).tasks
    ensures Next(s, e).tasks[t] != s.tasks[t] <==> CommitsOn(s, e, t)
    ensures CommitsOn(s, e, t) ==> Quotes(s, e, t) == s.tasks[t].version
    ensures Next(s, e).tasks[t].version == s.tasks[t].version + (if CommitsOn(s, e, t) then 1 else 0)
  {
    assert CommitsOn(s, e, t) ==> Next(s, e).tasks[t].version == s.tasks[t].version + 1;
  }

  /** Only a creation adds a task, with the initial version. */
  lemma NoTaskNoCommit(s: Store, e: Event, t: TaskId)
    requires t !in s.tasks
    ensures !CommitsOn(s, e, t)
    ensures t in Next(s, e).tasks ==> Next(s, e).tasks[t].version == INITIAL_VERSION
  {
  }

  /** How many steps of a run committed a write of the task's row. */
  function CommitCount(s: Store, events: seq<Event>, t: TaskId): nat {
    if events == [] then 0
    else CommitCount(s, Init(events), t) + (if CommitsOn(After(s, Init(events)), Last(events), t) then 1 else 0)
  }

  /** From any store on, a version has risen by the number of committed writes of the row. */
  lemma {:induction false} VersionsRiseByCommits(s: Store, events: seq<Event>, t: TaskId)
    requires t in s.tasks
    ensures t in After(s, events).tasks
    ensures After(s, events).tasks[t].version == s.tasks[t].version + CommitCount(s, events, t)
  {
    if events != [] {
      VersionsRiseByCommits(s, Init(events), t);
      RowChangesIffCommitted(After(s, Init(events)), Last(events), t);
    }
  }

  /** Over every run from the empty database a task's version is one more than the number of
      committed writes of its row. */
  lemma {:induction false} VersionsCountCommits(events: seq<Event>, t: TaskId)
    ensures t in After(EMPTY, events).tasks ==>
              After(EMPTY, events).tasks[t].version == INITIAL_VERSION + CommitCount(EMPTY, events, t)
    ensures t !in After(EMPTY, events).tasks ==> CommitCount(EMPTY, events, t) == 0
  {
    if events != [] {
      var before := After(EMPTY, Init(events));
      VersionsCountCommits(Init(events), t);
      if t in before.tasks {
        RowChangesIffCommitted(before, Last(events), t);
      } else {
        NoTaskNoCommit(before, Last(events), t);
      }
    }
  }

  /** A caller reads a task's version, other steps run, and the caller edits: the edit commits exactly
      when no write of that row committed in between. No update is lost, and none refused in vain. */
  lemma {:induction false} EditCommitsIffUntouched(s: Store, events: seq<Event>, t: TaskId,
                                                   newPriority: Option<string>, newMetadata: Option<string>)
    requires t in s.tasks
    ensures Apply(After(s, events), UpdateMetadata(t, s.tasks[t].version, newPriority, newMetadata)).Commit? <==>
            CommitCount(s, events, t) == 0
  {
    VersionsRiseByCommits(s, events, t);
  }

  /** The state right before the i-th step of a run. */
  function Before(s: Store, events: seq<Event>, i: nat): Store
    requires i <= |events|
  {
    After(s, events[..i])
  }

  lemma {:induction false} BetweenSteps(s: Store, events: seq<Event>, i: nat, j: nat, t: TaskId)
    requires i < j <= |events| && t in Before(s, events, i).tasks
    ensures t in Before(s, events, j).tasks
    ensures Before(s, events, j).tasks[t].version >=
            Before(s, events, i).tasks[t].version + (if CommitsOn(Before(s, events, i), events[i], t) then 1 else 0)
    decreases j
  {
    assert Init(events[..j]) == events[..j - 1] && Last(events[..j]) == events[j - 1];
    if i < j - 1 {
      BetweenSteps(s, events, i, j - 1, t);
    }
    RowChangesIffCommitted(Before(s, events, j - 1), events[j - 1], t);
  }

  /** Of two writers of one row that quote the same version, at most one commits, whichever steps
      they are and however the run interleaves them with others. */
  lemma {:induction false} SameVersionCommitsOnce(s: Store, events: seq<Event>, i: nat, j: nat, t: TaskId)
    requires i < j < |events| && t in Before(s, events, i).tasks && t in Before(s, events, j).tasks
    requires Quotes(Before(s, events, i), events[i], t) == Quotes(Before(s, events, j), events[j], t)
    ensures !(CommitsOn(Before(s, events, i), events[i], t) && CommitsOn(Before(s, events, j), events[j], t))
  {
    BetweenSteps(s, events, i, j, t);
    RowChangesIffCommitted(Before(s, events, i), events[i], t);
    RowChangesIffCommitted(Before(s, events, j), events[j], t);
  }

  /** The race can be lost: two callers read the same version, both edit, and the second is refused. */
  lemma SecondEditIsRefused(s: Store, t: TaskId, first: string, second: string)
    requires t in s.tasks
    ensures var v := s.tasks[t].version;
            var won := Apply(s, UpdateMetadata(t, v, None, Some(first)));
            won.Commit? && Apply(won.store, UpdateMetadata(t, v, None, Some(second))) == Rollback(VersionConflict)
  {
  }

  // ----- The audit trail -----

  /** Steps that write an audit row: all that commit, but for creations and edits. */
  predicate Audited(s: Store, e: Event) {
    Apply(s, e).Commit? && !e.CreateTask? && !e.UpdateMetadata?
  }

  lemma StepAudits(s: Store, e: Event)
    ensures |Next(s, e).audit| == |s.audit| + (if Audited(s, e) then 1 else 0)
    ensures s.audit <= Next(s, e).audit
  {
  }

  function AuditedSteps(s: Store, events: seq<Event>): nat {
    if events == [] then 0
    else AuditedSteps(s, Init(events)) + (if Audited(After(s, Init(events)), Last(events)) then 1 else 0)
  }

  /** The audit trail only grows, by one row for each committed step other than a creation or an edit. */
  lemma {:induction false} AuditTrailGrows(s: Store, events: seq<Event>)
    ensures s.audit <= After(s, events).audit
    ensures |After(s, events).audit| == |s.audit| + AuditedSteps(s, events)
  {
    if events != [] {
      AuditTrailGrows(s, Init(events));
      StepAudits(After(s, Init(events)), Last(events));
    }
  }
}
