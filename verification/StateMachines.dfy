/** The task and worker-lease state machines: which status changes are legal, and under which context. */
module StateMachines {

  import opened Wrappers

  datatype TaskStatus =
    | Backlog | Ready | Blocked | Assigned | InDevelopment | DevComplete | InReview | ChangesRequested
    | Approved | QueuedForMerge | Merging | PostMergeValidation | Done | Failed | Escalated | Cancelled

  /** The context fields a caller may set to true. */
  datatype TaskFlag =
    | AllDependenciesResolved | HasPolicyBlockers | HasBlockers | LeaseAcquired | HasHeartbeat
    | HasDevResultPacket | RequiredValidationsPassed | HasReviewRoutingDecision | MergeSuccessful
    | HasUnrecoverableFailure | LeaseTimedOutNoRetry | LeaseReclaimedRetryEligible | IsOperator
    | HasEscalationTrigger

  datatype ReviewDecision = ReviewApproved | ApprovedWithFollowUp | ReviewChangesRequested | ReviewEscalated

  datatype ConflictClass = Reworkable | NonReworkable

  datatype TaskContext = TaskContext(
    flags: set<TaskFlag>,
    review: Option<ReviewDecision>,
    conflict: Option<ConflictClass>,
    postMergePassed: Option<bool>)

  function Flags(flags: set<TaskFlag>): TaskContext {
    TaskContext(flags, None, None, None)
  }

  predicate TerminalTask(status: TaskStatus) {
    status == Done || status == Failed || status == Cancelled
  }

  /** The explicit transition map with its guards, then the two wildcard rules. */
  predicate ValidTaskTransition(current: TaskStatus, target: TaskStatus, c: TaskContext) {
    match (current, target)
    case (Backlog, Ready) => AllDependenciesResolved in c.flags && HasPolicyBlockers !in c.flags
    case (Backlog, Blocked) => HasBlockers in c.flags || HasPolicyBlockers in c.flags
    case (Blocked, Ready) => AllDependenciesResolved in c.flags && HasPolicyBlockers !in c.flags
    case (Ready, Assigned) => LeaseAcquired in c.flags
    case (Assigned, InDevelopment) => HasHeartbeat in c.flags
    case (Assigned, Ready) => LeaseReclaimedRetryEligible in c.flags
    case (Assigned, Failed) => LeaseTimedOutNoRetry in c.flags
    case (InDevelopment, DevComplete) => HasDevResultPacket in c.flags && RequiredValidationsPassed in c.flags
    case (InDevelopment, Failed) => HasUnrecoverableFailure in c.flags || LeaseTimedOutNoRetry in c.flags
    case (InDevelopment, Ready) => LeaseReclaimedRetryEligible in c.flags
    case (DevComplete, InReview) => HasReviewRoutingDecision in c.flags
    case (InReview, ChangesRequested) => c.review == Some(ReviewChangesRequested) || c.review == Some(ReviewEscalated)
    case (InReview, Approved) => c.review == Some(ReviewApproved) || c.review == Some(ApprovedWithFollowUp)
    case (ChangesRequested, Assigned) => LeaseAcquired in c.flags
    case (Approved, QueuedForMerge) => true
    case (QueuedForMerge, Merging) => true
    case (Merging, PostMergeValidation) => MergeSuccessful in c.flags
    case (Merging, ChangesRequested) => c.conflict == Some(Reworkable)
    case (Merging, Failed) => c.conflict == Some(NonReworkable)
    case (PostMergeValidation, Done) => c.postMergePassed == Some(true)
    case (PostMergeValidation, Failed) => c.postMergePassed == Some(false)
    case (Escalated, Assigned) => IsOperator in c.flags && LeaseAcquired in c.flags
    case (Escalated, Cancelled) => IsOperator in c.flags
    case (Escalated, Done) => IsOperator in c.flags
    case (_, Escalated) =>
      !TerminalTask(current) && current != Escalated && (IsOperator in c.flags || HasEscalationTrigger in c.flags)
    case (_, Cancelled) => !TerminalTask(current) && IsOperator in c.flags
    case _ => false
  }

  datatype LeaseStatus =
    | Idle | Leased | Starting | Running | Heartbeating | Completing | TimedOut | Crashed | Reclaimed

  datatype LeaseFlag =
    | LeaseTaken | WorkerProcessSpawned | FirstHeartbeatReceived | HeartbeatReceived
    | CompletionSignalReceived | HeartbeatTimedOut | WorkerCrashed | ReclaimRequested

  predicate ValidLeaseTransition(current: LeaseStatus, target: LeaseStatus, c: set<LeaseFlag>) {
    match (current, target)
    case (Idle, Leased) => LeaseTaken in c
    case (Leased, Starting) => WorkerProcessSpawned in c
    case (Starting, Running) => FirstHeartbeatReceived in c
    case (Running, Heartbeating) => HeartbeatReceived in c
    case (Heartbeating, Heartbeating) => HeartbeatReceived in c
    case (Starting, Completing) => CompletionSignalReceived in c
    case (Running, Completing) => CompletionSignalReceived in c
    case (Heartbeating, Completing) => CompletionSignalReceived in c
    case (Starting, TimedOut) => HeartbeatTimedOut in c
    case (Running, TimedOut) => HeartbeatTimedOut in c
    case (Heartbeating, TimedOut) => HeartbeatTimedOut in c
    case (Starting, Crashed) => WorkerCrashed in c
    case (Running, Crashed) => WorkerCrashed in c
    case (Heartbeating, Crashed) => WorkerCrashed in c
    case (TimedOut, Reclaimed) => ReclaimRequested in c
    case (Crashed, Reclaimed) => ReclaimRequested in c
    case _ => false
  }

  /** How far along its life a lease is. */
  function LeaseRank(status: LeaseStatus): nat {
    match status
    case Idle => 0
    case Leased => 1
    case Starting => 2
    case Running => 3
    case Heartbeating => 4
    case Completing => 5
    case TimedOut => 5
    case Crashed => 5
    case Reclaimed => 6
  }

  /** The lease repository's test for an active lease: not in one of the statuses
      COMPLETED (which no lease has), TIMED_OUT, CRASHED and RECLAIMED. */
  predicate ActiveLease(status: LeaseStatus) {
    status != TimedOut && status != Crashed && status != Reclaimed
  }
}
