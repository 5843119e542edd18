/** The two state machines read by the state entered: all the ways in, with the evidence each asks for. */
module StatusLaws {

  import opened Wrappers
  import opened StateMachines

  /** Work states: each is entered from the states listed, on the evidence listed, and in no other way. */
  lemma WorkStatesEnteredBy(from: TaskStatus, c: TaskContext)
    ensures !ValidTaskTransition(from, Backlog, c)
    ensures ValidTaskTransition(from, Ready, c) <==>
            || (from in {Backlog, Blocked} && AllDependenciesResolved in c.flags && HasPolicyBlockers !in c.flags)
            || (from in {Assigned, InDevelopment} && LeaseReclaimedRetryEligible in c.flags)
    ensures ValidTaskTransition(from, Blocked, c) <==>
            from == Backlog && (HasBlockers in c.flags || HasPolicyBlockers in c.flags)
    ensures ValidTaskTransition(from, Assigned, c) <==>
            && LeaseAcquired in c.flags
            && (from in {Ready, ChangesRequested} || (from == Escalated && IsOperator in c.flags))
    ensures ValidTaskTransition(from, InDevelopment, c) <==> from == Assigned && HasHeartbeat in c.flags
    ensures ValidTaskTransition(from, DevComplete, c) <==>
            from == InDevelopment && HasDevResultPacket in c.flags && RequiredValidationsPassed in c.flags
  {
  }

  /** Review and merge: a task is approved only in review and only on an approving decision, sent back
      only on a rejecting one or a reworkable conflict. */
  lemma ReviewStatesEnteredBy(from: TaskStatus, c: TaskContext)
    ensures ValidTaskTransition(from, InReview, c) <==> from == DevComplete && HasReviewRoutingDecision in c.flags
    ensures ValidTaskTransition(from, Approved, c) <==>
            from == InReview && c.review in {Some(ReviewApproved), Some(ApprovedWithFollowUp)}
    ensures ValidTaskTransition(from, ChangesRequested, c) <==>
            || (from == InReview && c.review in {Some(ReviewChangesRequested), Some(ReviewEscalated)})
            || (from == Merging && c.conflict == Some(Reworkable))
    ensures ValidTaskTransition(from, QueuedForMerge, c) <==> from == Approved
    ensures ValidTaskTransition(from, Merging, c) <==> from == QueuedForMerge
    ensures ValidTaskTransition(from, PostMergeValidation, c) <==> from == Merging && MergeSuccessful in c.flags
  {
  }

  /** Endings: DONE needs a passed post-merge validation or an operator on an escalated task; no ending
      leads anywhere by a transition. */
  lemma EndingsEnteredBy(from: TaskStatus, c: TaskContext)
    ensures ValidTaskTransition(from, Done, c) <==>
            || (from == PostMergeValidation && c.postMergePassed == Some(true))
            || (from == Escalated && IsOperator in c.flags)
    ensures ValidTaskTransition(from, Failed, c) <==>
            || (from in {Assigned, InDevelopment} && LeaseTimedOutNoRetry in c.flags)
            || (from == InDevelopment && HasUnrecoverableFailure in c.flags)
            || (from == Merging && c.conflict == Some(NonReworkable))
            || (from == PostMergeValidation && c.postMergePassed == Some(false))
    ensures ValidTaskTransition(from, Escalated, c) <==>
            from !in {Done, Failed, Cancelled, Escalated} && (IsOperator in c.flags || HasEscalationTrigger in c.flags)
    ensures ValidTaskTransition(from, Cancelled, c) <==> from !in {Done, Failed, Cancelled} && IsOperator in c.flags
    ensures forall target :: ValidTaskTransition(from, target, c) ==> from !in {Done, Failed, Cancelled}
  {
  }

  lemma LeaseStatesEnteredBy(from: LeaseStatus, c: set<LeaseFlag>)
    ensures !ValidLeaseTransition(from, Idle, c)
    ensures ValidLeaseTransition(from, Leased, c) <==> from == Idle && LeaseTaken in c
    ensures ValidLeaseTransition(from, Starting, c) <==> from == Leased && WorkerProcessSpawned in c
    ensures ValidLeaseTransition(from, Running, c) <==> from == Starting && FirstHeartbeatReceived in c
    ensures ValidLeaseTransition(from, Heartbeating, c) <==> from in {Running, Heartbeating} && HeartbeatReceived in c
    ensures ValidLeaseTransition(from, Completing, c) <==>
            from in {Starting, Running, Heartbeating} && CompletionSignalReceived in c
    ensures ValidLeaseTransition(from, TimedOut, c) <==>
            from in {Starting, Running, Heartbeating} && HeartbeatTimedOut in c
    ensures ValidLeaseTransition(from, Crashed, c) <==> from in {Starting, Running, Heartbeating} && WorkerCrashed in c
    ensures ValidLeaseTransition(from, Reclaimed, c) <==> from in {TimedOut, Crashed} && ReclaimRequested in c
  {
  }
}
