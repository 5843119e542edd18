/** What holds over every interleaving of the task and lease transactions. */
module LeaseRuns {

  import opened Wrappers
  import opened Collections
  import opened StateMachines
  import opened LeaseStore

  // ----- At most one active lease per task -----

  ghost predicate Named(s: Store, l: LeaseId)
    requires l in s.leases
  {
    var t := s.leases[l].taskId;
    t in s.tasks && s.tasks[t].currentLeaseId == Some(l)
  }

  ghost predicate NamedIfActive(s: Store, l: LeaseId)
    requires l in s.leases
  {
    s.leases[l].taskId in s.tasks && (ActiveLease(s.leases[l].status) ==> Named(s, l))
  }

  /** Every active lease is the one its task's currentLeaseId names, and no lease is orphaned. */
  ghost predicate LeasesNamed(s: Store) {
    forall l :: l in s.leases ==> NamedIfActive(s, l)
  }

  /** A grant drops no link in use: the task had no active lease. */
  lemma AcquireKeepsNamed(s: Store, e: Event, l: LeaseId)
    requires LeasesNamed(s) && e.AcquireLease? && l in Next(s, e).leases
    ensures NamedIfActive(Next(s, e), l)
  {
    if l in s.leases && ActiveLease(s.leases[l].status) {
      assert Named(s, l);
      assert s.leases[l].taskId == e.taskId ==> HasActiveLease(s, e.taskId);
    }
  }

  /** A reclaim drops the link of the lease it ends, and under the invariant of no other. */
  lemma ReclaimKeepsNamed(s: Store, e: Event, l: LeaseId)
    requires LeasesNamed(s) && e.ReclaimLease? && l in Next(s, e).leases
    ensures NamedIfActive(Next(s, e), l)
  {
    if ActiveLease(s.leases[l].status) {
      assert Named(s, l);
    }
  }

  lemma StepKeepsLeasesNamed(s: Store, e: Event)
    requires LeasesNamed(s)
    ensures LeasesNamed(Next(s, e))
  {
    forall l | l in Next(s, e).leases
      ensures NamedIfActive(Next(s, e), l)
    {
      match e
      case AcquireLease(_, _, _, _, _) => AcquireKeepsNamed(s, e, l);
      case ReclaimLease(_, _, _, _, _) => ReclaimKeepsNamed(s, e, l);
      case _ =>
        if ActiveLease(s.leases[l].status) {
          assert Named(s, l);
        }
    }
  }

  /** The one-active-lease invariant holds in every run from any store that has it. */
  lemma {:induction false} EveryRunKeepsLeasesNamed(s: Store, events: seq<Event>)
    requires LeasesNamed(s)
    ensures LeasesNamed(After(s, events))
  {
    if events != [] {
      EveryRunKeepsLeasesNamed(s, Init(events));
      StepKeepsLeasesNamed(After(s, Init(events)), Last(events));
    }
  }

  /** Two active leases of one task are the same lease, after any run from the empty database. */
  lemma AtMostOneActiveLease(events: seq<Event>, l1: LeaseId, l2: LeaseId)
    requires var s := After(EMPTY, events);
             && l1 in s.leases && l2 in s.leases && s.leases[l1].taskId == s.leases[l2].taskId
             && ActiveLease(s.leases[l1].status) && ActiveLease(s.leases[l2].status)
    ensures l1 == l2
  {
    EveryRunKeepsLeasesNamed(EMPTY, events);
    var s := After(EMPTY, events);
    assert Named(s, l1) && Named(s, l2);
  }

  /** The override write to BACKLOG keeps the invariant exactly when the reopen guard's lease
      check would pass: dropping that check is what would break it. */
  lemma ReopenNeedsItsGuard(s: Store, taskId: TaskId)
    requires LeasesNamed(s) && taskId in s.tasks && s.tasks[taskId].status in REOPENABLE
    ensures var o := Override(s, taskId, Backlog, REOPENABLE, "task.operator.reopen");
            o.Commit? && (LeasesNamed(o.store) <==> !HasActiveLease(s, taskId))
  {
    var s' := Override(s, taskId, Backlog, REOPENABLE, "task.operator.reopen").store;
    if HasActiveLease(s, taskId) {
      var l :| l in s.leases && s.leases[l].taskId == taskId && ActiveLease(s.leases[l].status);
      assert !Named(s', l);
    } else {
      forall l | l in s'.leases && ActiveLease(s'.leases[l].status)
        ensures Named(s', l)
      {
        assert Named(s, l);
      }
    }
  }

  // ----- Leases only move forward -----

  /** No step moves a lease back, changes its task or shortens its life; finished states absorb. */
  ghost predicate Forward(before: Lease, after: Lease) {
    && after.taskId == before.taskId
    && after.leasedAt == before.leasedAt
    && LeaseRank(before.status) <= LeaseRank(after.status)
    && (LeaseRank(before.status) == LeaseRank(after.status) ==> after.status == before.status)
    && before.expiresAt <= after.expiresAt
  }

  lemma StepMovesForward(s: Store, e: Event, l: LeaseId)
    requires l in s.leases
    ensures l in Next(s, e).leases && Forward(s.leases[l], Next(s, e).leases[l])
  {
  }

  lemma {:induction false} LeasesMoveForward(s: Store, events: seq<Event>, l: LeaseId)
    requires l in s.leases
    ensures l in After(s, events).leases && Forward(s.leases[l], After(s, events).leases[l])
  {
    if events != [] {
      LeasesMoveForward(s, Init(events), l);
      StepMovesForward(After(s, Init(events)), Last(events), l);
    }
  }

  // ----- A completed lease blocks its task for good -----

  lemma CompletingAbsorbs(s: Store, e: Event, l: LeaseId)
    requires l in s.leases && s.leases[l].status == Completing
    ensures l in Next(s, e).leases && Next(s, e).leases[l].status == Completing
    ensures Next(s, e).leases[l].taskId == s.leases[l].taskId
  {
  }

  lemma {:induction false} CompletingForever(s: Store, events: seq<Event>, l: LeaseId)
    requires l in s.leases && s.leases[l].status == Completing
    ensures l in After(s, events).leases && After(s, events).leases[l].status == Completing
    ensures After(s, events).leases[l].taskId == s.leases[l].taskId
  {
    if events != [] {
      CompletingForever(s, Init(events), l);
      CompletingAbsorbs(After(s, Init(events)), Last(events), l);
    }
  }

  /** COMPLETING is final for the state machine but active for the lease repository, so once a
      worker completes, its task can never again be leased nor reopened, whatever happens. */
  lemma CompletedTaskIsNeverLeasedAgain(s: Store, l: LeaseId, events: seq<Event>, e: Event)
    requires l in s.leases && s.leases[l].status == Completing
    requires (e.AcquireLease? || e.Reopen?) && e.taskId == s.leases[l].taskId
    requires e.taskId in After(s, events).tasks
    ensures Apply(After(s, events), e).Rollback?
  {
    CompletingForever(s, events, l);
    assert HasActiveLease(After(s, events), e.taskId);
  }

  /** A lease is granted exactly when the task is eligible, the actor may assign it, the id is
      new, and no lease of the task is still in a status the repository counts as active. */
  lemma AcquireGrantedIff(s: Store, taskId: TaskId, leaseId: LeaseId, now: int, ttlSeconds: int, operator: bool)
    ensures Acquire(s, taskId, leaseId, now, ttlSeconds, operator).Commit? <==>
            && taskId in s.tasks
            && leaseId !in s.leases
            && (s.tasks[taskId].status in {Ready, ChangesRequested}
                || (s.tasks[taskId].status == Escalated && operator))
            && forall l :: l in s.leases && s.leases[l].taskId == taskId ==>
                s.leases[l].status in {TimedOut, Crashed, Reclaimed}
  {
    assert HasActiveLease(s, taskId) <==>
           exists l :: l in s.leases && s.leases[l].taskId == taskId
               && s.leases[l].status !in {TimedOut, Crashed, Reclaimed};
  }

  /** A reopen commits exactly when the task is terminal and no lease of it is in a status the
      repository counts as active: COMPLETING is one. */
  lemma ReopenCommitsIff(s: Store, taskId: TaskId)
    ensures ReopenTask(s, taskId).Commit? <==>
            && taskId in s.tasks && s.tasks[taskId].status in {Done, Failed, Cancelled}
            && forall l :: l in s.leases && s.leases[l].taskId == taskId ==>
                s.leases[l].status in {TimedOut, Crashed, Reclaimed}
  {
    assert HasActiveLease(s, taskId) <==>
           exists l :: l in s.leases && s.leases[l].taskId == taskId
               && s.leases[l].status !in {TimedOut, Crashed, Reclaimed};
  }

  /** Under the invariant a reclaim commits exactly when the lease is starting, running or heartbeating. */
  lemma ReclaimCommitsIff(s: Store, leaseId: LeaseId, reason: ReclaimReason, policy: RetryPolicy,
                          onTimeout: Option<EscalationAction>, hasFailureSummary: bool)
    requires LeasesNamed(s)
    ensures Reclaim(s, leaseId, reason, policy, onTimeout, hasFailureSummary).Commit? <==>
            leaseId in s.leases && Reclaimable(s.leases[leaseId].status)
  {
  }

  // ----- Terminal tasks and retries -----

  lemma TerminalStatusStays(s: Store, e: Event, t: TaskId)
    requires t in s.tasks && TerminalTask(s.tasks[t].status) && e != Reopen(t)
    ensures t in Next(s, e).tasks
    ensures Next(s, e).tasks[t].status == s.tasks[t].status
  {
  }

  /** "Immutable except via reopen" is true of the status only: short of a reopen, a step rewrites a
      terminal task's row exactly when it is a priority change of that task, or an edit of it that
      quotes the stored version. */
  lemma TerminalRowChangesIff(s: Store, e: Event, t: TaskId)
    requires t in s.tasks && TerminalTask(s.tasks[t].status) && e != Reopen(t)
    ensures t in Next(s, e).tasks
    ensures Next(s, e).tasks[t] != s.tasks[t] <==>
            || (e.ChangePriority? && e.taskId == t)
            || (e.UpdateMetadata? && e.taskId == t && e.quotedVersion == s.tasks[t].version)
  {
    if (e.ChangePriority? || (e.UpdateMetadata? && e.quotedVersion == s.tasks[t].version)) && e.taskId == t {
      assert Next(s, e).tasks[t].version == s.tasks[t].version + 1;
    }
  }

  /** A terminal task leaves its status only by a reopen of that task. */
  lemma {:induction false} TerminalUntilReopened(s: Store, events: seq<Event>, t: TaskId)
    requires t in s.tasks && TerminalTask(s.tasks[t].status)
    requires forall i :: 0 <= i < |events| ==> events[i] != Reopen(t)
    ensures t in After(s, events).tasks && After(s, events).tasks[t].status == s.tasks[t].status
  {
    if events != [] {
      TerminalUntilReopened(s, Init(events), t);
      TerminalStatusStays(After(s, Init(events)), Last(events), t);
    }
  }

  /** The step is a reclaim that sends the task back to be worked on again. */
  predicate Retries(s: Store, e: Event, t: TaskId) {
    && e.ReclaimLease? && e.leaseId in s.leases && s.leases[e.leaseId].taskId == t && t in s.tasks
    && Reclaimable(s.leases[e.leaseId].status)
    && (s.tasks[t].status == Assigned || s.tasks[t].status == InDevelopment)
    && s.tasks[t].retryCount < e.policy.maxAttempts
    && (e.policy.requireFailureSummary ==> e.hasFailureSummary)
  }

  /** A task's retry count rises by one exactly when a reclaim of one of its leases finds the lease
      reclaimable, the task at work, an attempt left and the summary its policy asks for; then the
      task is READY again. No other step touches the count. */
  lemma RetryCountRisesIff(s: Store, e: Event, t: TaskId)
    requires t in s.tasks
    ensures t in Next(s, e).tasks
    ensures Next(s, e).tasks[t].retryCount == s.tasks[t].retryCount + (if Retries(s, e, t) then 1 else 0)
    ensures Retries(s, e, t) ==> Next(s, e).tasks[t].status == Ready
  {
  }

  /** The steps of a run that retried the task. */
  function RetrySteps(s: Store, events: seq<Event>, t: TaskId): nat {
    if events == [] then 0
    else RetrySteps(s, Init(events), t) + (if Retries(After(s, Init(events)), Last(events), t) then 1 else 0)
  }

  lemma TaskOrigin(s: Store, e: Event, t: TaskId)
    requires t !in s.tasks && t in Next(s, e).tasks
    ensures e.CreateTask? && e.taskId == t
    ensures Next(s, e).tasks[t] == Task(e.status, INITIAL_VERSION, None, 0, e.priority, e.metadata)
  {
  }

  lemma {:induction false} NoTaskNoRetry(s: Store, events: seq<Event>, t: TaskId)
    requires t !in After(s, events).tasks
    ensures RetrySteps(s, events, t) == 0
  {
    if events != [] {
      var before := After(s, Init(events));
      if t in before.tasks {
        RetryCountRisesIff(before, Last(events), t);
      }
      NoTaskNoRetry(s, Init(events), t);
    }
  }

  /** Over every run the count is the number of retrying steps. */
  lemma {:induction false} RetriesCounted(events: seq<Event>, t: TaskId)
    requires t in After(EMPTY, events).tasks
    ensures After(EMPTY, events).tasks[t].retryCount == RetrySteps(EMPTY, events, t)
  {
    if events != [] {
      var before := After(EMPTY, Init(events));
      if t in before.tasks {
        RetriesCounted(Init(events), t);
        RetryCountRisesIff(before, Last(events), t);
      } else {
        NoTaskNoRetry(EMPTY, Init(events), t);
        TaskOrigin(before, Last(events), t);
      }
    }
  }

  /** If every reclaim runs under a policy of at most `max` attempts, no task is retried more often. */
  lemma {:induction false} RetriesBounded(events: seq<Event>, max: nat, t: TaskId)
    requires forall i :: 0 <= i < |events| && events[i].ReclaimLease? ==> events[i].policy.maxAttempts <= max
    requires t in After(EMPTY, events).tasks
    ensures After(EMPTY, events).tasks[t].retryCount <= max
  {
    if events != [] {
      var before := After(EMPTY, Init(events));
      assert Last(events).ReclaimLease? ==> Last(events).policy.maxAttempts <= max;
      if t in before.tasks {
        RetriesBounded(Init(events), max, t);
        RetryCountRisesIff(before, Last(events), t);
      } else {
        TaskOrigin(before, Last(events), t);
      }
    }
  }

  /** The default policy asks for a failure summary, and the supervisor reclaims without one:
      under such reclaims no step is ever a retry, whatever the attempt allowance. */
  lemma {:induction false} NoSummaryNoRetry(events: seq<Event>, t: TaskId)
    requires forall i :: 0 <= i < |events| && events[i].ReclaimLease? ==>
                           events[i].policy.requireFailureSummary && !events[i].hasFailureSummary
    ensures RetrySteps(EMPTY, events, t) == 0
    ensures t in After(EMPTY, events).tasks ==> After(EMPTY, events).tasks[t].retryCount == 0
  {
    if events != [] {
      assert Last(events).ReclaimLease? ==>
             Last(events).policy.requireFailureSummary && !Last(events).hasFailureSummary;
      NoSummaryNoRetry(Init(events), t);
    }
    if t in After(EMPTY, events).tasks {
      RetriesCounted(events, t);
    }
  }

  // ----- Witness runs -----

  /** A task is created ready and leased. */
  function LeasedRun(t: TaskId, l: LeaseId): seq<Event> {
    [CreateTask(t, Ready, "medium", ""), AcquireLease(t, l, 0, 60, false)]
  }

  /** Then its worker process is spawned. */
  function StartedRun(t: TaskId, l: LeaseId): seq<Event> {
    LeasedRun(t, l) + [TransitionLease(l, Starting, {WorkerProcessSpawned})]
  }

  lemma Snoc(s: Store, events: seq<Event>, e: Event)
    ensures After(s, events + [e]) == Next(After(s, events), e)
  {
    assert Init(events + [e]) == events && Last(events + [e]) == e;
  }

  /** LEASED and STARTING leases arise. */
  lemma LeaseIsLeasedAndStarted(t: TaskId, l: LeaseId)
    ensures var s := After(EMPTY, LeasedRun(t, l));
            l in s.leases && s.leases[l] == NewLease(t, 0, 60) && t in s.tasks
    ensures var s := After(EMPTY, StartedRun(t, l));
            l in s.leases && s.leases[l].status == Starting && s.leases[l].taskId == t
            && t in s.tasks && s.tasks[t].status == Assigned
  {
    var create, acquire := CreateTask(t, Ready, "medium", ""), AcquireLease(t, l, 0, 60, false);
    Snoc(EMPTY, [], create);
    Snoc(EMPTY, [create], acquire);
    assert [] + [create] == [create] && [create] + [acquire] == LeasedRun(t, l);
    assert !HasActiveLease(After(EMPTY, [create]), t);
    Snoc(EMPTY, LeasedRun(t, l), TransitionLease(l, Starting, {WorkerProcessSpawned}));
  }

  /** So does a COMPLETING one: the worker reports that it is done. */
  lemma LeaseCompletes(t: TaskId, l: LeaseId)
    ensures var s := After(EMPTY, StartedRun(t, l) + [ReceiveHeartbeat(l, true, None, 1000)]);
            l in s.leases && s.leases[l].status == Completing && s.leases[l].taskId == t
  {
    LeaseIsLeasedAndStarted(t, l);
    Snoc(EMPTY, StartedRun(t, l), ReceiveHeartbeat(l, true, None, 1000));
  }

  /** From there on, whatever happens, the task is never leased nor reopened again. */
  lemma CompletedTaskArises(t: TaskId, l: LeaseId, events: seq<Event>, e: Event)
    requires (e.AcquireLease? || e.Reopen?) && e.taskId == t
    ensures var s := After(After(EMPTY, StartedRun(t, l) + [ReceiveHeartbeat(l, true, None, 1000)]), events);
            Apply(s, e).Rollback?
  {
    LeaseCompletes(t, l);
    var s := After(EMPTY, StartedRun(t, l) + [ReceiveHeartbeat(l, true, None, 1000)]);
    if t in After(s, events).tasks {
      CompletedTaskIsNeverLeasedAgain(s, l, events, e);
    }
  }

  /** A committed reclaim leaves its lease CRASHED when the worker died and TIMED_OUT otherwise. */
  lemma ReclaimLeavesLeaseFailed(s: Store, e: Event)
    requires e.ReclaimLease? && Apply(s, e).Commit?
    ensures e.leaseId in Next(s, e).leases
    ensures Next(s, e).leases[e.leaseId].status == if e.reason == WorkerDied then Crashed else TimedOut
  {
  }

  /** And such a lease arises: the worker misses its heartbeats and is reclaimed. */
  lemma LeaseTimesOut(t: TaskId, l: LeaseId, policy: RetryPolicy)
    ensures var s := After(EMPTY, StartedRun(t, l) + [ReclaimLease(l, MissedHeartbeats, policy, None, false)]);
            l in s.leases && s.leases[l].status == TimedOut && s.leases[l].taskId == t
  {
    LeaseIsLeasedAndStarted(t, l);
    var reclaim := ReclaimLease(l, MissedHeartbeats, policy, None, false);
    Snoc(EMPTY, StartedRun(t, l), reclaim);
    assert Apply(After(EMPTY, StartedRun(t, l)), reclaim).Commit?;
    ReclaimLeavesLeaseFailed(After(EMPTY, StartedRun(t, l)), reclaim);
  }
}
