/** Tasks, leases and audit rows, and the transactions that change them: lease acquisition,
    heartbeats, reclaim, state transitions and the operator overrides. */
module LeaseStore {

  import opened Wrappers
  import opened Collections
  import opened StateMachines

  type TaskId = string
  type LeaseId = string

  /** A task row; `metadata` stands for the title, the description and the other descriptive columns. */
  datatype Task = Task(
    status: TaskStatus,
    version: nat,
    currentLeaseId: Option<LeaseId>,
    retryCount: nat,
    priority: string,
    metadata: string)

  datatype ReclaimReason = MissedHeartbeats | TtlExpired | WorkerDied

  /** Timestamps are stored in whole seconds. */
  datatype Lease = Lease(
    taskId: TaskId,
    status: LeaseStatus,
    leasedAt: int,
    heartbeatAt: Option<int>,
    expiresAt: int,
    reclaimReason: Option<ReclaimReason>)

  datatype AuditRow = AuditRow(entityId: string, eventType: string)

  datatype Store = Store(tasks: map<TaskId, Task>, leases: map<LeaseId, Lease>, audit: seq<AuditRow>)

  datatype Error =
    | NotFound
    | DuplicateKey
    | NotReadyForLease
    | ExclusivityViolation
    | InvalidTransition
    | VersionConflict
    | LeaseNotActive
    | LeaseNotReclaimable
    | BadRequest

  /** A transaction either commits a new store or throws, which rolls everything back. */
  datatype Outcome = Commit(store: Store) | Rollback(error: Error)

  const INITIAL_VERSION: nat := 1

  /** A date in milliseconds as the timestamp column keeps it. */
  function Seconds(ms: int): int { ms / 1000 }

  // ----- Policies -----

  datatype RetryPolicy = RetryPolicy(maxAttempts: nat, requireFailureSummary: bool)

  datatype EscalationAction = Escalate | FailThenEscalate | RetryOrEscalate | DisableProfileAndEscalate

  predicate ShouldRetry(retryCount: nat, hasFailureSummary: bool, policy: RetryPolicy) {
    retryCount < policy.maxAttempts && (policy.requireFailureSummary ==> hasFailureSummary)
  }

  /** The heartbeat-timeout trigger always fires; an absent action counts as escalate. */
  function ReclaimTarget(task: Task, policy: RetryPolicy, onTimeout: Option<EscalationAction>,
                         hasFailureSummary: bool): TaskStatus {
    if ShouldRetry(task.retryCount, hasFailureSummary, policy) then Ready
    else if onTimeout == Some(FailThenEscalate) then Failed
    else Escalated
  }

  function ReclaimContext(target: TaskStatus): TaskContext {
    match target
    case Ready => Flags({LeaseReclaimedRetryEligible})
    case Failed => Flags({LeaseTimedOutNoRetry})
    case Escalated => Flags({HasEscalationTrigger})
    case _ => Flags({})
  }

  function ReclaimLeaseTarget(reason: ReclaimReason): LeaseStatus {
    if reason == WorkerDied then Crashed else TimedOut
  }

  // ----- The steps as functions on the store -----

  datatype Event =
    | CreateTask(taskId: TaskId, status: TaskStatus, priority: string, metadata: string)
    | UpdateMetadata(taskId: TaskId, quotedVersion: nat, newPriority: Option<string>, newMetadata: Option<string>)
    | AcquireLease(taskId: TaskId, leaseId: LeaseId, now: int, ttlSeconds: int, operator: bool)
    | ReceiveHeartbeat(leaseId: LeaseId, completing: bool, graceSeconds: Option<int>, now: int)
    | TransitionLease(leaseId: LeaseId, leaseTarget: LeaseStatus, leaseContext: set<LeaseFlag>)
    | ReclaimLease(leaseId: LeaseId, reason: ReclaimReason, policy: RetryPolicy,
                   onTimeout: Option<EscalationAction>, hasFailureSummary: bool)
    | TransitionTask(taskId: TaskId, target: TaskStatus, context: TaskContext)
    | RerunReview(taskId: TaskId)
    | Reopen(taskId: TaskId)
    | ChangePriority(taskId: TaskId, priority: string)

  predicate HasActiveLease(s: Store, taskId: TaskId) {
    exists l :: l in s.leases && s.leases[l].taskId == taskId && ActiveLease(s.leases[l].status)
  }

  predicate LeaseEligible(status: TaskStatus) {
    status == Ready || status == ChangesRequested || status == Escalated
  }

  predicate Reclaimable(status: LeaseStatus) {
    status == Starting || status == Running || status == Heartbeating
  }

  function AcquireContext(operator: bool): TaskContext {
    Flags(if operator then {LeaseAcquired, IsOperator} else {LeaseAcquired})
  }

  function NewLease(taskId: TaskId, now: int, ttlSeconds: int): Lease {
    Lease(taskId, Leased, Seconds(now), None, Seconds(now + ttlSeconds * 1000), None)
  }

  /** A row update and the audit row written with it; the version rises by one. */
  function WithTask(s: Store, id: TaskId, row: Task, entityId: string, eventType: string): Store
    requires id in s.tasks
  {
    s.(tasks := s.tasks[id := row.(version := s.tasks[id].version + 1)],
       audit := s.audit + [AuditRow(entityId, eventType)])
  }

  function WithLease(s: Store, id: LeaseId, row: Lease, eventType: string): Store {
    s.(leases := s.leases[id := row], audit := s.audit + [AuditRow(id, eventType)])
  }

  function Acquire(s: Store, taskId: TaskId, leaseId: LeaseId, now: int, ttlSeconds: int, operator: bool): Outcome {
    if taskId !in s.tasks then Rollback(NotFound)
    else
      var task := s.tasks[taskId];
      if !LeaseEligible(task.status) then Rollback(NotReadyForLease)
      else if HasActiveLease(s, taskId) then Rollback(ExclusivityViolation)
      else if !ValidTaskTransition(task.status, Assigned, AcquireContext(operator)) then Rollback(InvalidTransition)
      else if leaseId in s.leases then Rollback(DuplicateKey)
      else
        var leased := s.(leases := s.leases[leaseId := NewLease(taskId, now, ttlSeconds)]);
        Commit(WithTask(leased, taskId, task.(status := Assigned, currentLeaseId := Some(leaseId)),
                        taskId, "lease.acquired"))
  }

  function HeartbeatTarget(status: LeaseStatus, completing: bool): LeaseStatus {
    if completing then Completing else if status == Starting then Running else Heartbeating
  }

  function HeartbeatFlags(status: LeaseStatus, completing: bool): set<LeaseFlag> {
    if completing then {CompletionSignalReceived}
    else if status == Starting then {FirstHeartbeatReceived} else {HeartbeatReceived}
  }

  /** Only a terminal heartbeat with a positive grace period moves the expiry, and never backwards. */
  function ExtendedExpiry(lease: Lease, completing: bool, graceSeconds: Option<int>, now: int): int {
    if completing && graceSeconds.Some? && graceSeconds.value > 0
       && now + graceSeconds.value * 1000 > lease.expiresAt * 1000
    then Seconds(now + graceSeconds.value * 1000)
    else lease.expiresAt
  }

  function Heartbeat(s: Store, leaseId: LeaseId, completing: bool, graceSeconds: Option<int>, now: int): Outcome {
    if leaseId !in s.leases then Rollback(NotFound)
    else
      var lease := s.leases[leaseId];
      var target := HeartbeatTarget(lease.status, completing);
      if !Reclaimable(lease.status) then Rollback(LeaseNotActive)
      else if !ValidLeaseTransition(lease.status, target, HeartbeatFlags(lease.status, completing)) then
        Rollback(InvalidTransition)
      else
        var row := lease.(status := target, heartbeatAt := Some(Seconds(now)),
                          expiresAt := ExtendedExpiry(lease, completing, graceSeconds, now));
        Commit(WithLease(s, leaseId, row, if completing then "lease.completing" else "lease.heartbeat"))
  }

  function MoveLease(s: Store, leaseId: LeaseId, target: LeaseStatus, context: set<LeaseFlag>): Outcome {
    if leaseId !in s.leases then Rollback(NotFound)
    else if !ValidLeaseTransition(s.leases[leaseId].status, target, context) then Rollback(InvalidTransition)
    else Commit(WithLease(s, leaseId, s.leases[leaseId].(status := target), "task-lease.transition"))
  }

  function LeaseFlagsFor(target: LeaseStatus): set<LeaseFlag> {
    if target == TimedOut then {HeartbeatTimedOut} else {WorkerCrashed}
  }

  function Release(s: Store, leaseId: LeaseId, taskId: TaskId, policy: RetryPolicy,
                   onTimeout: Option<EscalationAction>, hasFailureSummary: bool): Outcome
    requires taskId in s.tasks
  {
    var task := s.tasks[taskId];
    if task.status != Assigned && task.status != InDevelopment then
      Commit(s.(audit := s.audit + [AuditRow(leaseId, "lease.reclaimed")]))
    else
      var next := ReclaimTarget(task, policy, onTimeout, hasFailureSummary);
      if !ValidTaskTransition(task.status, next, ReclaimContext(next)) then Rollback(InvalidTransition)
      else
        var retries := task.retryCount + (if next == Ready then 1 else 0);
        Commit(WithTask(s, taskId, task.(status := next, retryCount := retries, currentLeaseId := None),
                        leaseId, "lease.reclaimed"))
  }

  function Reclaim(s: Store, leaseId: LeaseId, reason: ReclaimReason, policy: RetryPolicy,
                   onTimeout: Option<EscalationAction>, hasFailureSummary: bool): Outcome
  {
    if leaseId !in s.leases then Rollback(NotFound)
    else
      var lease := s.leases[leaseId];
      var target := ReclaimLeaseTarget(reason);
      if !Reclaimable(lease.status) then Rollback(LeaseNotReclaimable)
      else if !ValidLeaseTransition(lease.status, target, LeaseFlagsFor(target)) then Rollback(InvalidTransition)
      else if lease.taskId !in s.tasks then Rollback(NotFound)
      else
        var row := lease.(status := target, reclaimReason := Some(reason));
        Release(s.(leases := s.leases[leaseId := row]), leaseId, lease.taskId, policy, onTimeout, hasFailureSummary)
  }

  function MoveTask(s: Store, taskId: TaskId, target: TaskStatus, context: TaskContext): Outcome {
    if taskId !in s.tasks then Rollback(NotFound)
    else if !ValidTaskTransition(s.tasks[taskId].status, target, context) then Rollback(InvalidTransition)
    else Commit(WithTask(s, taskId, s.tasks[taskId].(status := target), taskId, "task.transition"))
  }

  /** The override transaction, which bypasses the state machine. */
  function Override(s: Store, taskId: TaskId, target: TaskStatus, from: set<TaskStatus>, action: string): Outcome {
    if taskId !in s.tasks then Rollback(NotFound)
    else
      var task := s.tasks[taskId];
      if task.status !in from then Rollback(BadRequest)
      else
        var row := task.(status := target, currentLeaseId := if target == Backlog then None else task.currentLeaseId);
        Commit(WithTask(s, taskId, row, taskId, action))
  }

  const REOPENABLE: set<TaskStatus> := {Done, Failed, Cancelled}
  const REVIEWED: set<TaskStatus> := {Approved, InReview}

  /** The guard run before the reopen transaction. */
  predicate GuardReopen(s: Store, taskId: TaskId) {
    taskId in s.tasks ==> TerminalTask(s.tasks[taskId].status) && !HasActiveLease(s, taskId)
  }

  function ReopenTask(s: Store, taskId: TaskId): Outcome {
    if !GuardReopen(s, taskId) then Rollback(BadRequest)
    else Override(s, taskId, Backlog, REOPENABLE, "task.operator.reopen")
  }

  function Reprioritise(s: Store, taskId: TaskId, priority: string): Outcome {
    if taskId !in s.tasks then Rollback(NotFound)
    else Commit(WithTask(s, taskId, s.tasks[taskId].(priority := priority), taskId, "task.operator.change_priority"))
  }

  /** The edit of a task's descriptive columns, in any status: the version is the one the caller
      read at some earlier time, and no audit row is written. */
  function Edit(s: Store, taskId: TaskId, quotedVersion: nat, newPriority: Option<string>,
                newMetadata: Option<string>): Outcome {
    if taskId !in s.tasks then Rollback(NotFound)
    else
      var task := s.tasks[taskId];
      if task.version != quotedVersion then Rollback(VersionConflict)
      else Commit(s.(tasks := s.tasks[taskId := EditedRow(task, newPriority, newMetadata)]))
  }

  function EditedRow(task: Task, newPriority: Option<string>, newMetadata: Option<string>): Task {
    task.(priority := if newPriority.Some? then newPriority.value else task.priority,
          metadata := if newMetadata.Some? then newMetadata.value else task.metadata,
          version := task.version + 1)
  }

  function Create(s: Store, taskId: TaskId, status: TaskStatus, priority: string, metadata: string): Outcome {
    if taskId in s.tasks then Rollback(DuplicateKey)
    else Commit(s.(tasks := s.tasks[taskId := Task(status, INITIAL_VERSION, None, 0, priority, metadata)]))
  }

  function Apply(s: Store, e: Event): Outcome {
    match e
    case CreateTask(t, status, priority, metadata) => Create(s, t, status, priority, metadata)
    case UpdateMetadata(t, quoted, priority, metadata) => Edit(s, t, quoted, priority, metadata)
    case AcquireLease(t, l, now, ttl, operator) => Acquire(s, t, l, now, ttl, operator)
    case ReceiveHeartbeat(l, completing, grace, now) => Heartbeat(s, l, completing, grace, now)
    case TransitionLease(l, target, context) => MoveLease(s, l, target, context)
    case ReclaimLease(l, reason, policy, onTimeout, summary) => Reclaim(s, l, reason, policy, onTimeout, summary)
    case TransitionTask(t, target, context) => MoveTask(s, t, target, context)
    case RerunReview(t) => Override(s, t, DevComplete, REVIEWED, "task.operator.rerun_review")
    case Reopen(t) => ReopenTask(s, t)
    case ChangePriority(t, priority) => Reprioritise(s, t, priority)
  }

  function Next(s: Store, e: Event): Store {
    var o := Apply(s, e);
    if o.Commit? then o.store else s
  }

  function After(s: Store, events: seq<Event>): Store {
    if events == [] then s else Next(After(s, Init(events)), Last(events))
  }

  const EMPTY: Store := Store(map[], map[], [])

  // ----- The transactions as methods on the database -----

  /** The database connection; each public method is one write transaction. */
  class Database {

    var tasks: map<TaskId, Task>
    var leases: map<LeaseId, Lease>
    var audit: seq<AuditRow>

    function State(): Store
      reads this
    {
      Store(tasks, leases, audit)
    }

    constructor ()
      ensures State() == EMPTY
    {
      tasks, leases, audit := map[], map[], [];
    }

    /** The versioned row update: it matches only the version the caller read. */
    method UpdateTask(id: TaskId, expectedVersion: nat, row: Task) returns (ok: bool)
      modifies this`tasks
      ensures ok <==> id in old(tasks) && old(tasks)[id].version == expectedVersion
      ensures ok ==> tasks == old(tasks)[id := row.(version := expectedVersion + 1)]
      ensures !ok ==> tasks == old(tasks)
    {
      if id !in tasks || tasks[id].version != expectedVersion {
        return false;
      }
      tasks := tasks[id := row.(version := expectedVersion + 1)];
      ok := true;
    }

    /** Compare-and-set on a lease's status. */
    method UpdateLease(id: LeaseId, expectedStatus: LeaseStatus, row: Lease) returns (ok: bool)
      modifies this`leases
      ensures ok <==> id in old(leases) && old(leases)[id].status == expectedStatus
      ensures ok ==> leases == old(leases)[id := row]
      ensures !ok ==> leases == old(leases)
    {
      if id !in leases || leases[id].status != expectedStatus {
        return false;
      }
      leases := leases[id := row];
      ok := true;
    }

    method WriteAudit(entityId: string, eventType: string)
      modifies this`audit
      ensures audit == old(audit) + [AuditRow(entityId, eventType)]
    {
      audit := audit + [AuditRow(entityId, eventType)];
    }

    method RestoreTo(before: Store)
      modifies this
      ensures State() == before
    {
      tasks, leases, audit := before.tasks, before.leases, before.audit;
    }

    /** Insert the lease, then link it to the task. */
    method AcquireLease(taskId: TaskId, leaseId: LeaseId, now: int, ttlSeconds: int, operator: bool)
      returns (error: Option<Error>)
      modifies this
      ensures Performs(old(State()), Acquire(old(State()), taskId, leaseId, now, ttlSeconds, operator), State(), error)
    {
      if taskId !in tasks {
        return Some(NotFound);
      }
      var task := tasks[taskId];
      if !LeaseEligible(task.status) {
        return Some(NotReadyForLease);
      }
      if HasActiveLease(State(), taskId) {
        return Some(ExclusivityViolation);
      }
      if !ValidTaskTransition(task.status, Assigned, AcquireContext(operator)) {
        return Some(InvalidTransition);
      }
      if leaseId in leases {
        return Some(DuplicateKey);
      }
      leases := leases[leaseId := NewLease(taskId, now, ttlSeconds)];
      var ok := UpdateTask(taskId, task.version, task.(status := Assigned, currentLeaseId := Some(leaseId)));
      assert ok;  // read in this same transaction, so the compare-and-set still matches
      WriteAudit(taskId, "lease.acquired");
      error := None;
    }

    method ReceiveHeartbeat(leaseId: LeaseId, completing: bool, graceSeconds: Option<int>, now: int)
      returns (error: Option<Error>)
      modifies this
      ensures Performs(old(State()), Heartbeat(old(State()), leaseId, completing, graceSeconds, now), State(), error)
    {
      if leaseId !in leases {
        return Some(NotFound);
      }
      var lease := leases[leaseId];
      if !Reclaimable(lease.status) {
        return Some(LeaseNotActive);
      }
      var target := HeartbeatTarget(lease.status, completing);
      if !ValidLeaseTransition(lease.status, target, HeartbeatFlags(lease.status, completing)) {
        return Some(InvalidTransition);
      }
      var expiresAt := lease.expiresAt;
      if completing && graceSeconds.Some? && graceSeconds.value > 0 {
        var deadline := now + graceSeconds.value * 1000;
        if deadline > lease.expiresAt * 1000 {
          expiresAt := Seconds(deadline);
        }
      }
      var row := lease.(status := target, heartbeatAt := Some(Seconds(now)), expiresAt := expiresAt);
      var ok := UpdateLease(leaseId, lease.status, row);
      assert ok;  // read in this same transaction, so the compare-and-set still matches
      WriteAudit(leaseId, if completing then "lease.completing" else "lease.heartbeat");
      error := None;
    }

    /** The lease row is written first; when the task step throws, that write is undone too. */
    method ReclaimLease(leaseId: LeaseId, reason: ReclaimReason, policy: RetryPolicy,
                        onTimeout: Option<EscalationAction>, hasFailureSummary: bool)
      returns (error: Option<Error>)
      modifies this
      ensures Performs(old(State()), Reclaim(old(State()), leaseId, reason, policy, onTimeout, hasFailureSummary),
          State(), error)
    {
      var before := State();
      if leaseId !in leases {
        return Some(NotFound);
      }
      var lease := leases[leaseId];
      if !Reclaimable(lease.status) {
        return Some(LeaseNotReclaimable);
      }
      var target := ReclaimLeaseTarget(reason);
      if !ValidLeaseTransition(lease.status, target, LeaseFlagsFor(target)) {
        return Some(InvalidTransition);
      }
      var ok := UpdateLease(leaseId, lease.status, lease.(status := target, reclaimReason := Some(reason)));
      assert ok;  // read in this same transaction, so the compare-and-set still matches
      if lease.taskId !in tasks {
        RestoreTo(before);
        return Some(NotFound);
      }
      error := ReleaseTask(leaseId, lease.taskId, policy, onTimeout, hasFailureSummary);
      if error.Some? {
        RestoreTo(before);
      }
    }

    /** The task's half of a reclaim: a task at work is sent back, failed or escalated and loses its link. */
    method ReleaseTask(leaseId: LeaseId, taskId: TaskId, policy: RetryPolicy, onTimeout: Option<EscalationAction>,
                       hasFailureSummary: bool) returns (error: Option<Error>)
      requires taskId in tasks
      modifies this`tasks, this`audit
      ensures Performs(old(State()), Release(old(State()), leaseId, taskId, policy, onTimeout, hasFailureSummary),
          State(), error)
    {
      var task := tasks[taskId];
      if task.status != Assigned && task.status != InDevelopment {
        WriteAudit(leaseId, "lease.reclaimed");
        return None;
      }
      var next := ReclaimTarget(task, policy, onTimeout, hasFailureSummary);
      if !ValidTaskTransition(task.status, next, ReclaimContext(next)) {
        return Some(InvalidTransition);
      }
      var retries := task.retryCount;
      if next == Ready {
        retries := retries + 1;
      }
      var ok := UpdateTask(taskId, task.version, task.(status := next, retryCount := retries, currentLeaseId := None));
      assert ok;  // read in this same transaction, so the compare-and-set still matches
      WriteAudit(leaseId, "lease.reclaimed");
      error := None;
    }

    method TransitionLease(leaseId: LeaseId, target: LeaseStatus, context: set<LeaseFlag>)
      returns (error: Option<Error>)
      modifies this
      ensures Performs(old(State()), MoveLease(old(State()), leaseId, target, context), State(), error)
    {
      if leaseId !in leases {
        return Some(NotFound);
      }
      var lease := leases[leaseId];
      if !ValidLeaseTransition(lease.status, target, context) {
        return Some(InvalidTransition);
      }
      var ok := UpdateLease(leaseId, lease.status, lease.(status := target));
      assert ok;
      WriteAudit(leaseId, "task-lease.transition");
      error := None;
    }

    method TransitionTask(taskId: TaskId, target: TaskStatus, context: TaskContext) returns (error: Option<Error>)
      modifies this
      ensures Performs(old(State()), MoveTask(old(State()), taskId, target, context), State(), error)
    {
      if taskId !in tasks {
        return Some(NotFound);
      }
      var task := tasks[taskId];
      if !ValidTaskTransition(task.status, target, context) {
        return Some(InvalidTransition);
      }
      var ok := UpdateTask(taskId, task.version, task.(status := target));
      assert ok;
      WriteAudit(taskId, "task.transition");
      error := None;
    }

    method ExecuteOverride(taskId: TaskId, target: TaskStatus, from: set<TaskStatus>, action: string)
      returns (error: Option<Error>)
      modifies this
      ensures Performs(old(State()), Override(old(State()), taskId, target, from, action), State(), error)
    {
      if taskId !in tasks {
        return Some(NotFound);
      }
      var task := tasks[taskId];
      if task.status !in from {
        return Some(BadRequest);
      }
      var row := task.(status := target);
      if target == Backlog {
        row := row.(currentLeaseId := None);
      }
      var ok := UpdateTask(taskId, task.version, row);
      assert ok;
      WriteAudit(taskId, action);
      error := None;
    }

    method Reopen(taskId: TaskId) returns (error: Option<Error>)
      modifies this
      ensures Performs(old(State()), ReopenTask(old(State()), taskId), State(), error)
    {
      if !GuardReopen(State(), taskId) {
        return Some(BadRequest);
      }
      error := ExecuteOverride(taskId, Backlog, REOPENABLE, "task.operator.reopen");
    }

    method ChangePriority(taskId: TaskId, priority: string) returns (error: Option<Error>)
      modifies this
      ensures Performs(old(State()), Reprioritise(old(State()), taskId, priority), State(), error)
    {
      if taskId !in tasks {
        return Some(NotFound);
      }
      var task := tasks[taskId];
      var ok := UpdateTask(taskId, task.version, task.(priority := priority));
      assert ok;
      WriteAudit(taskId, "task.operator.change_priority");
      error := None;
    }

    /** The one writer that quotes a version read in another transaction: it can lose the race. */
    method UpdateMetadata(taskId: TaskId, version: nat, newPriority: Option<string>, newMetadata: Option<string>)
      returns (error: Option<Error>)
      modifies this
      ensures Performs(old(State()), Edit(old(State()), taskId, version, newPriority, newMetadata), State(), error)
    {
      if taskId !in tasks {
        return Some(NotFound);
      }
      var row := tasks[taskId];
      if newPriority.Some? {
        row := row.(priority := newPriority.value);
      }
      if newMetadata.Some? {
        row := row.(metadata := newMetadata.value);
      }
      var ok := UpdateTask(taskId, version, row);
      if !ok {
        return Some(VersionConflict);
      }
      error := None;
    }
  }

  /** The database took the step the outcome names: all of it, or none of it. */
  ghost predicate Performs(before: Store, o: Outcome, after: Store, error: Option<Error>) {
    match o
    case Commit(store) => error.None? && after == store
    case Rollback(e) => error == Some(e) && after == before
  }
}
