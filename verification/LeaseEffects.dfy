/** What each committed step writes, column by column, and what it leaves alone. */
module LeaseEffects {

  import opened Wrappers
  import opened Collections
  import opened StateMachines
  import opened LeaseStore
  import opened LeaseRuns

  // ----- Leases -----

  /** A grant: the lease is LEASED from now until the time to live runs out, and the task is assigned to it. */
  lemma AcquireWrites(s: Store, t: TaskId, l: LeaseId, now: int, ttlSeconds: int, operator: bool)
    requires Acquire(s, t, l, now, ttlSeconds, operator).Commit?
    ensures var s' := Acquire(s, t, l, now, ttlSeconds, operator).store;
            && l in s'.leases && t in s'.tasks
            && s'.leases[l].taskId == t && s'.leases[l].status == Leased
            && s'.leases[l].leasedAt == now / 1000 && s'.leases[l].heartbeatAt == None
            && s'.leases[l].expiresAt == now / 1000 + ttlSeconds && s'.leases[l].reclaimReason == None
            && s'.tasks[t].status == Assigned && s'.tasks[t].currentLeaseId == Some(l)
            && KeepsRest(s.tasks[t], s'.tasks[t])
  {
  }

  /** The descriptive columns and the retry count stay. */
  predicate KeepsRest(before: Task, after: Task) {
    after.retryCount == before.retryCount && after.priority == before.priority && after.metadata == before.metadata
  }

  /** A heartbeat is accepted exactly for a starting, running or heartbeating lease. */
  lemma HeartbeatCommitsIff(s: Store, l: LeaseId, completing: bool, graceSeconds: Option<int>, now: int)
    ensures Heartbeat(s, l, completing, graceSeconds, now).Commit? <==>
            l in s.leases && s.leases[l].status in {Starting, Running, Heartbeating}
  {
  }

  /** It records its time, moves the status by one, and moves the expiry only for a completing worker with
      a positive grace period, to the later of the old expiry and the end of that period. */
  lemma HeartbeatWrites(s: Store, l: LeaseId, completing: bool, graceSeconds: Option<int>, now: int)
    requires Heartbeat(s, l, completing, graceSeconds, now).Commit?
    ensures var s' := Heartbeat(s, l, completing, graceSeconds, now).store;
            && l in s.leases && l in s'.leases
            && s'.leases[l].heartbeatAt == Some(now / 1000)
            && s'.leases[l].status ==
               (if completing then Completing else if s.leases[l].status == Starting then Running else Heartbeating)
            && s'.leases[l].expiresAt == HeartbeatExpiry(s.leases[l].expiresAt, completing, graceSeconds, now)
            && s'.leases[l].taskId == s.leases[l].taskId && s'.leases[l].leasedAt == s.leases[l].leasedAt
            && s'.leases[l].reclaimReason == s.leases[l].reclaimReason && s'.tasks == s.tasks
  {
  }

  function HeartbeatExpiry(expiresAt: int, completing: bool, graceSeconds: Option<int>, now: int): int {
    match graceSeconds
    case Some(grace) => if completing && grace > 0 then Max(expiresAt, now / 1000 + grace) else expiresAt
    case None => expiresAt
  }

  function Max(a: int, b: int): int {
    if a < b then b else a
  }

  lemma TransitionLeaseWrites(s: Store, l: LeaseId, target: LeaseStatus, context: set<LeaseFlag>)
    ensures MoveLease(s, l, target, context).Commit? <==>
            l in s.leases && ValidLeaseTransition(s.leases[l].status, target, context)
    ensures MoveLease(s, l, target, context).Commit? ==>
              var s' := MoveLease(s, l, target, context).store;
              && l in s'.leases && s'.leases[l].status == target && s'.tasks == s.tasks
              && s'.leases[l].taskId == s.leases[l].taskId && s'.leases[l].leasedAt == s.leases[l].leasedAt
              && s'.leases[l].heartbeatAt == s.leases[l].heartbeatAt
              && s'.leases[l].expiresAt == s.leases[l].expiresAt
              && s'.leases[l].reclaimReason == s.leases[l].reclaimReason
  {
  }

  /** A reclaim ends the lease with its reason. A task at work loses its link and goes back to READY while
      attempts are left, to FAILED if the policy says to fail first, and to ESCALATED otherwise. */
  lemma ReclaimWrites(s: Store, e: Event)
    requires e.ReclaimLease? && Apply(s, e).Commit?
    ensures var s', l := Next(s, e), e.leaseId;
            && l in s.leases && l in s'.leases && s.leases[l].taskId in s.tasks && s.leases[l].taskId in s'.tasks
            && s'.leases[l].reclaimReason == Some(e.reason)
            && s'.leases[l].status == (if e.reason == WorkerDied then Crashed else TimedOut)
            && s'.leases[l].taskId == s.leases[l].taskId && s'.leases[l].leasedAt == s.leases[l].leasedAt
            && s'.leases[l].heartbeatAt == s.leases[l].heartbeatAt && s'.leases[l].expiresAt == s.leases[l].expiresAt
    ensures var before, after := s.tasks[s.leases[e.leaseId].taskId], Next(s, e).tasks[s.leases[e.leaseId].taskId];
            if before.status in {Assigned, InDevelopment} then
              && after.currentLeaseId == None && after.priority == before.priority && after.metadata == before.metadata
              && after.status == (if Retries(s, e, s.leases[e.leaseId].taskId) then Ready
                                  else if e.onTimeout == Some(FailThenEscalate) then Failed
                                  else Escalated)
            else after == before
  {
  }

  // ----- Tasks -----

  lemma TransitionTaskWrites(s: Store, t: TaskId, target: TaskStatus, context: TaskContext)
    ensures MoveTask(s, t, target, context).Commit? <==>
            t in s.tasks && ValidTaskTransition(s.tasks[t].status, target, context)
    ensures MoveTask(s, t, target, context).Commit? ==>
              var s' := MoveTask(s, t, target, context).store;
              && t in s'.tasks && s'.tasks[t].status == target && s'.leases == s.leases
              && s'.tasks[t].currentLeaseId == s.tasks[t].currentLeaseId && KeepsRest(s.tasks[t], s'.tasks[t])
  {
  }

  /** A reopened task is back in the backlog without a lease; its retries stay counted. */
  lemma ReopenWrites(s: Store, t: TaskId)
    requires ReopenTask(s, t).Commit?
    ensures var s' := ReopenTask(s, t).store;
            && t in s.tasks && t in s'.tasks && s'.leases == s.leases
            && s'.tasks[t].status == Backlog && s'.tasks[t].currentLeaseId == None && KeepsRest(s.tasks[t], s'.tasks[t])
  {
  }

  /** A rerun review takes an approved task, or one in review, back to DEV_COMPLETE with its lease link. */
  lemma RerunReviewWrites(s: Store, t: TaskId)
    ensures Apply(s, RerunReview(t)).Commit? <==> t in s.tasks && s.tasks[t].status in {Approved, InReview}
    ensures Apply(s, RerunReview(t)).Commit? ==>
              var s' := Next(s, RerunReview(t));
              && t in s'.tasks && s'.leases == s.leases
              && s'.tasks[t].status == DevComplete && s'.tasks[t].currentLeaseId == s.tasks[t].currentLeaseId
              && KeepsRest(s.tasks[t], s'.tasks[t])
  {
  }

  lemma PriorityWrites(s: Store, t: TaskId, priority: string)
    ensures Reprioritise(s, t, priority).Commit? <==> t in s.tasks
    ensures t in s.tasks ==>
              var s' := Reprioritise(s, t, priority).store;
              && t in s'.tasks && s'.leases == s.leases && s'.tasks[t].priority == priority
              && s'.tasks[t].status == s.tasks[t].status && s'.tasks[t].currentLeaseId == s.tasks[t].currentLeaseId
              && s'.tasks[t].retryCount == s.tasks[t].retryCount && s'.tasks[t].metadata == s.tasks[t].metadata
  {
  }

  /** An edit writes what it is given, each column on its own, and keeps what it is not. */
  lemma EditWrites(s: Store, t: TaskId, version: nat, newPriority: Option<string>, newMetadata: Option<string>)
    ensures Edit(s, t, version, newPriority, newMetadata).Commit? <==> t in s.tasks && s.tasks[t].version == version
    ensures Edit(s, t, version, newPriority, newMetadata).Commit? ==>
              var s' := Edit(s, t, version, newPriority, newMetadata).store;
              && t in s'.tasks && s'.leases == s.leases && s'.audit == s.audit
              && (newPriority.Some? ==> s'.tasks[t].priority == newPriority.value)
              && (newPriority.None? ==> s'.tasks[t].priority == s.tasks[t].priority)
              && (newMetadata.Some? ==> s'.tasks[t].metadata == newMetadata.value)
              && (newMetadata.None? ==> s'.tasks[t].metadata == s.tasks[t].metadata)
              && s'.tasks[t].status == s.tasks[t].status && s'.tasks[t].currentLeaseId == s.tasks[t].currentLeaseId
              && s'.tasks[t].retryCount == s.tasks[t].retryCount
  {
  }

  lemma CreateWrites(s: Store, t: TaskId, status: TaskStatus, priority: string, metadata: string)
    ensures Create(s, t, status, priority, metadata).Commit? <==> t !in s.tasks
    ensures t !in s.tasks ==>
              var s' := Create(s, t, status, priority, metadata).store;
              && t in s'.tasks && s'.leases == s.leases
              && s'.tasks[t].status == status && s'.tasks[t].priority == priority && s'.tasks[t].metadata == metadata
              && s'.tasks[t].version == 1 && s'.tasks[t].currentLeaseId == None && s'.tasks[t].retryCount == 0
  {
  }

  // ----- Refusals -----

  /** Why a lease is refused: the first of these that applies. */
  lemma AcquireRefusals(s: Store, t: TaskId, l: LeaseId, now: int, ttlSeconds: int, operator: bool)
    requires Acquire(s, t, l, now, ttlSeconds, operator).Rollback?
    ensures var error := Acquire(s, t, l, now, ttlSeconds, operator).error;
            if t !in s.tasks then error == NotFound
            else if s.tasks[t].status !in {Ready, ChangesRequested, Escalated} then error == NotReadyForLease
            else if exists k :: k in s.leases && s.leases[k].taskId == t
                                && s.leases[k].status !in {TimedOut, Crashed, Reclaimed}
            then error == ExclusivityViolation
            else if s.tasks[t].status == Escalated && !operator then error == InvalidTransition
            else error == DuplicateKey && l in s.leases
  {
    assert HasActiveLease(s, t) <==> exists k :: k in s.leases && s.leases[k].taskId == t
                                                 && s.leases[k].status !in {TimedOut, Crashed, Reclaimed};
  }

  /** An unknown id is not found; a known lease or task in the wrong state is named as such. */
  lemma Refusals(s: Store, e: Event)
    requires Apply(s, e).Rollback?
    ensures var error := Apply(s, e).error;
            match e
            case AcquireLease(_, _, _, _, _) => true
            case CreateTask(_, _, _, _) => error == DuplicateKey
            case ReceiveHeartbeat(l, _, _, _) => error == if l !in s.leases then NotFound else LeaseNotActive
            case TransitionLease(l, _, _) => error == if l !in s.leases then NotFound else InvalidTransition
            case ReclaimLease(l, _, _, _, _) =>
              error == if l !in s.leases then NotFound
                       else if s.leases[l].status !in {Starting, Running, Heartbeating} then LeaseNotReclaimable
                       else NotFound
            case TransitionTask(t, _, _) => error == if t !in s.tasks then NotFound else InvalidTransition
            case RerunReview(t) => error == if t !in s.tasks then NotFound else BadRequest
            case Reopen(t) => error == if t !in s.tasks then NotFound else BadRequest
            case ChangePriority(_, _) => error == NotFound
            case UpdateMetadata(t, _, _, _) => error == if t !in s.tasks then NotFound else VersionConflict
  {
  }

  // ----- Frames -----

  /** The lease a step is about. */
  function LeaseOf(e: Event): Option<LeaseId> {
    match e
    case AcquireLease(_, l, _, _, _) => Some(l)
    case ReceiveHeartbeat(l, _, _, _) => Some(l)
    case TransitionLease(l, _, _) => Some(l)
    case ReclaimLease(l, _, _, _, _) => Some(l)
    case _ => None
  }

  /** No step changes a lease it is not about, and an acquired lease is a new one. */
  lemma OtherLeasesStay(s: Store, e: Event, l: LeaseId)
    requires l in s.leases
    ensures l in Next(s, e).leases
    ensures LeaseOf(e) != Some(l) || e.AcquireLease? ==> Next(s, e).leases[l] == s.leases[l]
  {
  }

  /** A step that enters DONE is a transition of that task on a passed post-merge validation, or by an
      operator out of escalation: no reclaim, override or edit completes a task. */
  lemma DoneNeedsEvidence(s: Store, e: Event, t: TaskId)
    requires t in s.tasks && s.tasks[t].status != Done && t in Next(s, e).tasks && Next(s, e).tasks[t].status == Done
    ensures e.TransitionTask? && e.taskId == t && e.target == Done
    ensures (s.tasks[t].status == PostMergeValidation && e.context.postMergePassed == Some(true))
            || (s.tasks[t].status == Escalated && IsOperator in e.context.flags)
  {
  }

  /** The audit row of a step names the entity it is about and what happened to it. */
  lemma AuditSays(s: Store, e: Event)
    requires Apply(s, e).Commit? && !e.CreateTask? && !e.UpdateMetadata?
    ensures var row := Last(Next(s, e).audit);
            match e
            case AcquireLease(t, _, _, _, _) => row == AuditRow(t, "lease.acquired")
            case ReceiveHeartbeat(l, completing, _, _) =>
              row == AuditRow(l, if completing then "lease.completing" else "lease.heartbeat")
            case TransitionLease(l, _, _) => row == AuditRow(l, "task-lease.transition")
            case ReclaimLease(l, _, _, _, _) => row == AuditRow(l, "lease.reclaimed")
            case TransitionTask(t, _, _) => row == AuditRow(t, "task.transition")
            case RerunReview(t) => row == AuditRow(t, "task.operator.rerun_review")
            case Reopen(t) => row == AuditRow(t, "task.operator.reopen")
            case ChangePriority(t, _) => row == AuditRow(t, "task.operator.change_priority")
            case _ => true
  {
  }
}
