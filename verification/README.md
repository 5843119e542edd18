# A verified model of the software factory's control plane

The control plane keeps tasks, worker leases, queued jobs, dependency edges and audit rows in one
shared store, and changes them by small transactions. This project models those transactions and
the loops around them in Dafny 4.11, and proves what holds over every input, every run and every
interleaving of them. `dafny verify dfyconfig.toml` checks everything.

The model takes the form of the source. Services that update rows, maps or directories are classes
whose methods are proved against functions of the old state; loops stay loops; query chains,
state machines and the version parser are functions. Transactions are synchronous in the source (one
SQLite connection, no `await` inside), so one method is one atomic step and a run is a sequence of
steps.

| module | models |
|---|---|
| Wrappers, Collections, Graphs | options and results; filters, stable sort, pigeonhole; walks, reachability and cycles |
| JobQueue, JobQueueRuns | the dependency-gated job queue, and its safety and progress over runs |
| DependencyGraph | depth-first cycle detection and the task dependency graph |
| StateMachines, StatusLaws, LeaseStore, LeaseEffects, LeaseRuns, TaskVersions | the task and lease state machines, the transactions on tasks and leases, what each writes, their invariants, and optimistic concurrency over runs |
| StaleLeases, LeaseSweep | staleness detection at one-second granularity, what reclaim can do with its result, and the sweep over it |
| Readiness | the readiness query and the reconciliation pass |
| ReadyQuery | the scheduler's priority query |
| ConfigResolver | the layered configuration resolver with provenance |
| ImportStore, ImportRuns, ImportGraph, ImportedCycles | import execution: deduplication, wiring, idempotence, uniqueness and cycles |
| HeartbeatThrottle, OutputBatching | heartbeat throttling with eviction; output batching with timers and shutdown |
| WorkspaceCleanup, WorkspaceSafety | the startup sweep of orphaned worktrees |
| SchemaVersion | the version pattern, its numbers and the compatibility check |
| ShutdownDrain | the polling loop before shutdown |

## Where the code and its documentation differ

The model follows the code; the lemmas named with each point state exactly when it occurs.

- COMPLETING is final for the lease state machine (worker-lease-state-machine.ts:280-283) but active for the
  lease repository, whose list names a status COMPLETED that no lease has (task-lease.repository.ts:24). A
  task whose worker completed can therefore never be leased again nor reopened
  (`CompletedTaskIsNeverLeasedAgain`, `AcquireGrantedIff`, `ReopenCommitsIff`).
- An expired LEASED lease is detected as stale but the reclaim service refuses it, although the worker
  supervisor relies on the sweep for that case (`DetectedIsReclaimableIff`, `UnstartedLeaseStuckIff`, `StuckLeaseBlocks`).
- A reclaim leaves its lease TIMED_OUT or CRASHED, and the workspace cleanup protects those, so the
  worktree stays until an explicit lease transition (`ReclaimPinsWorktreeIff`).
- With the default retry policy a reclaim without a failure summary never retries (`NoSummaryNoRetry`; exactly
  when a reclaim retries is `RetryCountRisesIff`). The reconciliation sweep uses those defaults and gives no
  summary, so it escalates and never retries (`SweepNeverRetries`).
- A DONE task is documented as immutable except by reopening (task-state-machine.ts:585-587), but a priority
  change or an edit of its descriptive columns rewrites its row (`TerminalRowChangesIff`).
- The reported dependency cycle repeats its last element rather than its first (`DetectCycle`).
- A null override keeps the lower layer's value yet takes the credit for it (`SourceNamesSupplierIff`,
  `NullTakesCredit`).
- The import does not extend its deduplication set while inserting, and does not look for cycles
  (`ImportKeepsRefsUniqueIff`, `ImportStaysAcyclicIff`); tasks on an imported cycle never become ready
  (`ImportedCycleStaysBlocked`).
- Eviction of throttle entries is invisible for more clocks than non-decreasing ones, and from any
  starting time; the exact slack is 25 001 ms (`EvictionInvisibleIff`, `SpacedIff`).
- Above 2^53 two different version strings can parse alike (`RoundTripIff`, `ConfusedVersions`).
- A failed lease count reads as drained, and LEASED leases do not hold the shutdown (`NothingCountedIff`,
  `DrainedIff`). A completed worker's COMPLETING lease does, for good: from then on a drain that can read
  the database always runs to its timeout (`CompletedWorkerForcesTimeout`).

## Model

| member | source | states |
|---|---|---|
| `JobQueue.JobStore.ClaimNextByType` | apps/control-plane/src/automation/application-adapters.ts:289-317 | the filter, sort and loop meet the port's contract: an eligible job of least creation time is granted, every job its column lists being completed or failed, with status, owner and attempt count written and no other row changed; or nothing is eligible and nothing changes |
| `JobQueue.EligibleIff` | packages/application/src/ports/job-queue.ports.ts:126-144 | eligible means the port's four conditions on the stored columns |
| `JobQueue.StringArrayMembers` | apps/control-plane/src/automation/application-adapters.ts:101-107 | the strings read from a dependency column are exactly those its array holds |
| `JobQueue.StringArrayItemwise` | apps/control-plane/src/automation/application-adapters.ts:101-107 | conversion goes item by item, in order and with repeats |
| `JobQueue.StringArrayOfOne` | apps/control-plane/src/automation/application-adapters.ts:101-107 | a string item is kept and any other dropped, and what is not an array holds nothing |
| `JobQueue.StringArrayOfStrings` | apps/control-plane/src/automation/application-adapters.ts:101-107 | an array of strings alone comes out as it is |
| `JobQueue.CandidatesSorted` | apps/control-plane/src/automation/application-adapters.ts:290-294 | the candidate list is oldest first and holds exactly the eligible jobs once dependencies are met |
| `JobQueue.JobStore.ClaimJob` | apps/control-plane/src/infrastructure/repositories/job.repository.ts:92-104 | a claim takes effect exactly on a pending row; owner, status and attempt count change together |
| `JobQueue.JobStore.UpdateStatus` | apps/control-plane/src/automation/application-adapters.ts:318-329 | compare-and-set: succeeds exactly when the expected status is the stored one |
| `JobQueue.JobStore.Create` | packages/application/src/services/job-queue.service.ts:277-296 | a new row is pending with zero attempts; a taken key leaves the table alone |
| `JobQueue.JobStore.StartJob` | packages/application/src/services/job-queue.service.ts:312-348 | only a claimed job starts; a missing job and a wrong status are told apart and leave the table unchanged |
| `JobQueue.JobStore.CompleteJob` | packages/application/src/services/job-queue.service.ts:350-389 | only a claimed or running job completes; a missing job and a wrong status are told apart and leave the table unchanged |
| `JobQueue.JobStore.FailJob` | packages/application/src/services/job-queue.service.ts:391-430 | only a claimed or running job fails; a missing job and a wrong status are told apart and leave the table unchanged |
| `JobQueue.JobStore.AreJobDependenciesMet` | packages/application/src/services/job-queue.service.ts:432-464 | the loop's verdict agrees with the claim's own test, and the two lists are exactly the missing and the unfinished dependencies |
| `JobQueueRuns.ClaimsFollowTopologicalOrder` | apps/control-plane/src/automation/application-adapters.ts:289-329 | in every run the grants form a topological order: each job once, after all its dependencies were granted and finished |
| `JobQueueRuns.StartedJobsHaveSettledDependencies` | apps/control-plane/src/automation/application-adapters.ts:83-86 | in every run a claimed, running, completed or failed job has every job its stored column lists present and completed or failed |
| `JobQueueRuns.AttemptedOnce` | apps/control-plane/src/infrastructure/repositories/job.repository.ts:92-104 | over every run a job that was ever granted has one attempt and the owner that claimed it, and a pending one neither |
| `JobQueueRuns.FinishedForever` | packages/application/src/services/job-queue.service.ts:350-430 | a completed or failed row never changes again, whatever follows |
| `JobQueueRuns.CyclicJobsNeverClaimed` | apps/control-plane/src/automation/application-adapters.ts:296-307 | no job on a dependency cycle is ever claimed, in any run |
| `JobQueueRuns.ClaimableIffNotWaiting` | apps/control-plane/src/automation/application-adapters.ts:296-307 | when nothing is in flight, a pending job is claimable exactly when it waits on no pending job |
| `JobQueueRuns.StuckOnlyByCycle` | apps/control-plane/src/automation/application-adapters.ts:289-317 | a quiescent queue with pending work and nothing claimable holds a dependency cycle of pending jobs |
| `JobQueueRuns.ClaimGrantsIff` | apps/control-plane/src/automation/application-adapters.ts:289-317 | a claim of a type grants a job exactly when some job of the type is eligible |
| `JobQueueRuns.SomeClaimSucceeds` | apps/control-plane/src/automation/application-adapters.ts:289-317 | with an acyclic graph and pending work there is a job type whose next claim, by any owner, grants a job |
| `JobQueueRuns.RoundMakesProgress` | apps/control-plane/src/automation/application-adapters.ts:289-329 | any claim-and-finish round, completed or failed, keeps the queue drainable and removes one pending job |
| `JobQueueRuns.QueueDrains` | apps/control-plane/src/automation/application-adapters.ts:289-329 | some run of one claim and one completion per pending job empties the queue |
| `JobQueueRuns.EveryRoundSequenceDrains` | apps/control-plane/src/automation/application-adapters.ts:289-329 | however rounds are chosen, n of them leave exactly n pending jobs fewer, so none goes on longer than the pending jobs are many |
| `JobQueueRuns.RoundAvailable` | apps/control-plane/src/automation/application-adapters.ts:289-329 | until nothing is pending a further round exists, completed or failed |
| `JobQueueRuns.MoveWorksOff` | apps/control-plane/src/automation/application-adapters.ts:289-329 | with jobs in flight too: every claim, start, completion or failure that changes the table lowers 3 pending + 2 claimed + running and keeps the queue live |
| `JobQueueRuns.MoveAvailable` | apps/control-plane/src/automation/application-adapters.ts:289-329 | with an acyclic graph, live dependencies and passed delays, any unfinished job means some such step is possible |
| `JobQueueRuns.EveryScheduleDrains` | apps/control-plane/src/automation/application-adapters.ts:289-329 | under every interleaving of any number of workers such steps number at most the work there was, and a schedule that cannot go on has finished every job |
| `DependencyGraph.CycleSearch.Dfs` | packages/application/src/services/dependency.service.ts:152-174 | a found path is a real walk ending at the target; otherwise every node newly visited has all its successors visited and the path stack is as before |
| `DependencyGraph.DetectCycle` | packages/application/src/services/dependency.service.ts:140-188 | exact: a path is reported just when the target is reachable, and it is a real walk with the target written twice at its end |
| `DependencyGraph.DependencyService.AddDependency` | packages/application/src/services/dependency.service.ts:205-250 | in any table, cyclic or not, an edge is accepted exactly when both tasks exist, it is new and its prerequisite does not lead back to its task; an acyclic graph stays so; a refusal changes nothing |
| `DependencyGraph.AcceptsIffStaysAcyclic` | packages/application/src/services/dependency.service.ts:205-250 | on an acyclic graph that guard accepts a new edge exactly when the graph stays acyclic with it |
| `DependencyGraph.DependencyService.RemoveDependency` | packages/application/src/services/dependency.service.ts:252-257 | removes just that row and keeps the graph acyclic |
| `DependencyGraph.EveryRunStaysAcyclic` | packages/application/src/services/dependency.service.ts:205-257 | no sequence of inserts and removals makes the graph cyclic |
| `LeaseStore.Database.UpdateTask` | apps/control-plane/src/infrastructure/repositories/task.repository.ts:107-127 | the versioned update commits exactly for the stored version, and then raises it by one |
| `LeaseStore.Database.UpdateLease` | apps/control-plane/src/automation/application-adapters.ts:868-899 | compare-and-set on the lease status |
| `LeaseStore.Database.AcquireLease` | packages/application/src/services/lease.service.ts:126-212 | performs the acquire step whole or not at all, with the error of the first check that fails |
| `LeaseEffects.AcquireWrites` | packages/application/src/services/lease.service.ts:126-212 | the new lease runs from now for its time to live without a heartbeat, and the task is assigned to it |
| `LeaseEffects.AcquireRefusals` | packages/application/src/services/lease.service.ts:126-212 | a refused lease gets the error of the first condition that fails, in terms of status, other leases, actor and key |
| `LeaseStore.Database.ReceiveHeartbeat` | packages/application/src/services/heartbeat.service.ts:304-389 | performs the heartbeat step whole or not at all; what it writes is stated by the next two rows |
| `LeaseEffects.HeartbeatCommitsIff` | packages/application/src/services/heartbeat.service.ts:62-66 | accepted exactly for a starting, running or heartbeating lease |
| `LeaseEffects.HeartbeatWrites` | packages/application/src/services/heartbeat.service.ts:304-389 | the row records the time in whole seconds, the next status, and an expiry moved only for a completing worker's positive grace period and never back; nothing else changes |
| `LeaseStore.Database.ReclaimLease` | packages/application/src/services/lease-reclaim.service.ts:328-500 | performs the reclaim whole or not at all: when the task step fails the lease row written before it is restored |
| `LeaseEffects.ReclaimWrites` | packages/application/src/services/lease-reclaim.service.ts:223-313 | the lease ends with its reason; a task at work goes to READY while attempts are left, to FAILED if the policy fails first, else to ESCALATED, and loses its link; any other task is untouched |
| `LeaseStore.Database.TransitionLease` | packages/application/src/services/transition.service.ts:303-349 | a lease moves only along the lease state machine |
| `LeaseEffects.TransitionLeaseWrites` | packages/application/src/services/transition.service.ts:303-349 | exactly the status changes |
| `StatusLaws.LeaseStatesEnteredBy` | packages/domain/src/state-machines/worker-lease-state-machine.ts:242-333 | each lease status is entered from the listed ones, on the listed signal, and in no other way |
| `LeaseStore.Database.TransitionTask` | packages/application/src/services/transition.service.ts:196-254 | a task moves only along the task state machine |
| `LeaseEffects.TransitionTaskWrites` | packages/application/src/services/transition.service.ts:196-254 | exactly the status changes |
| `StatusLaws.WorkStatesEnteredBy` | packages/domain/src/state-machines/task-state-machine.ts:551-572 | each state up to DEV_COMPLETE is entered from the listed ones, on the listed evidence, and in no other way |
| `StatusLaws.ReviewStatesEnteredBy` | packages/domain/src/state-machines/task-state-machine.ts:551-572 | likewise review and merge: approved only on an approving decision, sent back only on a rejecting one or a reworkable conflict |
| `StatusLaws.EndingsEnteredBy` | packages/domain/src/state-machines/task-state-machine.ts:551-682 | likewise the endings, and no transition leaves DONE, FAILED or CANCELLED |
| `LeaseEffects.DoneNeedsEvidence` | packages/domain/src/state-machines/task-state-machine.ts:573-576 | a step that completes a task is a transition on a passed post-merge validation or by an operator out of escalation |
| `LeaseStore.Database.ExecuteOverride` | apps/control-plane/src/operator-actions/operator-actions.service.ts:647-709 | an operator override bypasses the state machine from the listed states, and drops the lease link when it goes to BACKLOG |
| `LeaseEffects.RerunReviewWrites` | apps/control-plane/src/operator-actions/operator-actions.service.ts:458-469 | exactly from APPROVED or IN_REVIEW, to DEV_COMPLETE, keeping the lease link |
| `LeaseEffects.ReopenWrites` | apps/control-plane/src/operator-actions/operator-actions.service.ts:559-572 | back to BACKLOG without a lease, with its retries still counted |
| `LeaseStore.Database.Reopen` | apps/control-plane/src/operator-actions/operator-action-guards.ts:134-166 | reopen runs its guard, then the override |
| `LeaseStore.Database.ChangePriority` | apps/control-plane/src/operator-actions/operator-actions.service.ts:348-388 | rewrites the priority of any task, terminal ones included |
| `LeaseEffects.PriorityWrites` | apps/control-plane/src/operator-actions/operator-actions.service.ts:348-388 | exactly the priority changes, to the value given |
| `LeaseStore.Database.UpdateMetadata` | apps/control-plane/src/tasks/tasks.service.ts:250-288 | the edit commits exactly for the version the caller quotes, in any status, and writes no audit row |
| `LeaseEffects.EditWrites` | apps/control-plane/src/tasks/tasks.service.ts:250-288 | each given column is written on its own and each other column kept |
| `LeaseEffects.CreateWrites` | apps/control-plane/src/tasks/tasks.service.ts:87-113 | a new task starts at version one with its given columns, no lease and no retries |
| `LeaseEffects.OtherLeasesStay` | apps/control-plane/src/automation/application-adapters.ts:868-899 | no step changes a lease it is not about |
| `LeaseEffects.Refusals` | packages/application/src/errors.ts:84-106 | every other refused step: an unknown id is not found, a wrong state is named as such, a stale version is a conflict |
| `LeaseEffects.AuditSays` | apps/control-plane/src/automation/application-adapters.ts:959-1051 | each audit row names its entity and what happened to it |
| `LeaseRuns.StepKeepsLeasesNamed` | apps/control-plane/src/automation/application-adapters.ts:173-248 | every step keeps: each active lease is the one its task names |
| `LeaseRuns.EveryRunKeepsLeasesNamed` | apps/control-plane/src/automation/application-adapters.ts:173-248 | so does every interleaving of all the steps |
| `LeaseRuns.AtMostOneActiveLease` | apps/control-plane/src/infrastructure/repositories/task-lease.repository.ts:67-78 | after any run from an empty database a task has at most one active lease |
| `LeaseRuns.ReopenNeedsItsGuard` | apps/control-plane/src/operator-actions/operator-action-guards.ts:155-165 | the override to BACKLOG keeps the lease invariant if and only if the guard's lease check passes |
| `LeaseRuns.LeasesMoveForward` | packages/domain/src/state-machines/worker-lease-state-machine.ts:242-333 | over every run a lease keeps its task, never moves back, never swaps one final state for another and never loses lifetime |
| `LeaseRuns.CompletingForever` | packages/domain/src/state-machines/worker-lease-state-machine.ts:276-283 | a completing lease stays so in every run |
| `LeaseRuns.CompletedTaskIsNeverLeasedAgain` | apps/control-plane/src/infrastructure/repositories/task-lease.repository.ts:24 | because COMPLETING counts as active here, a task whose worker completed can never be leased or reopened again |
| `LeaseRuns.AcquireGrantedIff` | packages/application/src/services/lease.service.ts:126-212 | exactly when a lease is granted, in terms of task status, actor, key and the statuses of the task's other leases |
| `LeaseRuns.ReopenCommitsIff` | apps/control-plane/src/operator-actions/operator-actions.service.ts:559-572 | a reopen commits exactly when the task is terminal and each of its leases is TIMED_OUT, CRASHED or RECLAIMED |
| `LeaseRuns.ReclaimCommitsIff` | packages/application/src/services/lease-reclaim.service.ts:68-83 | under the invariant a reclaim commits exactly for a starting, running or heartbeating lease |
| `TaskVersions.RowChangesIffCommitted` | apps/control-plane/src/infrastructure/repositories/task.repository.ts:107-127 | a task row changes exactly when a writer of it commits, and then its version rises by one from the version that writer quoted |
| `TaskVersions.VersionsCountCommits` | apps/control-plane/src/infrastructure/repositories/task.repository.ts:107-127 | over every run of all the steps a task's version is one plus the number of committed writes of its row |
| `TaskVersions.EditCommitsIffUntouched` | apps/control-plane/src/tasks/tasks.service.ts:250-288 | an edit quoting a version read earlier commits exactly when no write of that row committed in between |
| `TaskVersions.SameVersionCommitsOnce` | apps/control-plane/src/infrastructure/repositories/task.repository.ts:107-127 | in any run, two writers of one row that quote the same version never both commit |
| `TaskVersions.SecondEditIsRefused` | apps/control-plane/src/tasks/tasks.service.ts:271-288 | of two edits quoting the version both read, the second gets the version conflict |
| `TaskVersions.AuditTrailGrows` | apps/control-plane/src/automation/application-adapters.ts:959-1051 | the audit trail only grows, by one row per committed step other than a creation or an edit |
| `LeaseRuns.TerminalUntilReopened` | packages/domain/src/state-machines/task-state-machine.ts:551-682 | a terminal task keeps its status until it is reopened |
| `LeaseRuns.TerminalRowChangesIff` | apps/control-plane/src/operator-actions/operator-actions.service.ts:348-388 | short of a reopen, a terminal task's row changes exactly by a priority change of that task or an edit of it quoting the stored version |
| `LeaseRuns.RetryCountRisesIff` | packages/application/src/services/lease-reclaim.service.ts:328-500 | a retry count rises, by one, exactly when a reclaim finds its lease reclaimable, the task at work, an attempt left and the summary its policy asks for; no other step touches it |
| `LeaseRuns.RetriesCounted` | packages/application/src/services/lease-reclaim.service.ts:328-500 | over every run the retry count is the number of such steps |
| `LeaseRuns.RetriesBounded` | packages/domain/src/policies/retry-policy.ts:210-241 | no task is retried more often than the largest attempt allowance in the run |
| `LeaseRuns.NoSummaryNoRetry` | packages/application/src/services/worker-supervisor.service.ts:488-505 | when every reclaim's policy asks for a failure summary and none is given, no step of the run is a retry |
| `LeaseRuns.ReclaimLeavesLeaseFailed` | packages/application/src/services/lease-reclaim.service.ts:328-500 | a committed reclaim leaves its lease CRASHED if the worker died and TIMED_OUT otherwise |
| `LeaseRuns.CompletedTaskArises` | apps/control-plane/src/infrastructure/repositories/task-lease.repository.ts:24 | a run from the empty database after which the task is never leased nor reopened again |
| `StaleLeases.StaleQueryExact` | apps/control-plane/src/automation/application-adapters.ts:901-941 | a lease is returned exactly when it is stale by a whole second on the stored instants |
| `StaleLeases.StaleQueryAgainstTrueTimes` | packages/application/src/ports/heartbeat.ports.ts:64-74 | every returned lease is stale under the port's millisecond contract, and every lease stale by a full second is returned |
| `StaleLeases.StaleQueryDistinct` | packages/application/src/ports/heartbeat.ports.ts:64-74 | no lease is returned twice, even when both conditions hold |
| `StaleLeases.DetectedIff` | packages/application/src/services/heartbeat.service.ts:421-436 | in the policy's own fields: detected exactly when silent for threshold intervals plus grace since the last heartbeat, or the start, or when the expiry has passed, by a whole second |
| `StaleLeases.LiveWorkerNotDetected` | packages/application/src/services/heartbeat.service.ts:304-436 | over every run, a lease with an accepted heartbeat is in no detection within a window of it and before its expiry |
| `StaleLeases.ReasonIsTrue` | packages/application/src/services/heartbeat.service.ts:421-450 | the reason is the expiry exactly when that has passed, and otherwise the lease has been silent for a whole window |
| `StaleLeases.DetectedIsReclaimableIff` | packages/application/src/services/lease-reclaim.service.ts:68-72 | of the stored leases the detector finds, exactly those not still LEASED can be reclaimed |
| `StaleLeases.UnstartedLeaseStuckIff` | packages/application/src/services/lease-reclaim.service.ts:68-72 | a LEASED row is unchanged by a run if and only if the run holds no granted move of it to STARTING |
| `StaleLeases.StuckLeaseBlocks` | packages/application/src/services/lease.service.ts:126-212 | until such a move neither its reclaim nor a new lease on its task commits |
| `StaleLeases.StuckLeaseArises` | packages/application/src/services/lease-reclaim.service.ts:68-72 | a run from the empty database whose expired lease is detected, refused and never replaced |
| `LeaseSweep.SweepStaleLeases` | packages/application/src/services/reconciliation-sweep.service.ts:343-380 | in any row order, one sweep leaves the leases and tasks that the starting store determines, with one action per detected lease, reclaimed exactly when it was not LEASED |
| `LeaseSweep.StaleIff` | packages/application/src/services/reconciliation-sweep.service.ts:348 | the sweep's list in the policy's own fields |
| `LeaseSweep.SweepEndsExactly` | packages/application/src/services/reconciliation-sweep.service.ts:343-380 | exactly the silent or expired leases that are not LEASED time out, with the true reason, and every other lease is untouched |
| `LeaseSweep.SweepNeverRetries` | packages/application/src/services/reconciliation-sweep.service.ts:349-362 | under the default policies no retry count rises and a task whose status changes is escalated |
| `LeaseSweep.SecondSweepReclaimsNothing` | packages/application/src/services/reconciliation-sweep.service.ts:343-380 | a second sweep at the same instant finds at most LEASED rows and changes nothing |
| `Readiness.ComputeReadiness` | packages/application/src/services/readiness.service.ts:167-246 | ready exactly when no hard edge of type blocks leads to a task that is missing or not DONE; the reasons name exactly those prerequisites, each with its status |
| `Readiness.ReconcileTaskReadiness` | apps/control-plane/src/automation/automation.service.ts:258-313 | one pass in any candidate order moves each waiting task as readiness of the starting state says; every tried transition is accepted; counters equal the tasks moved |
| `Readiness.PassWrites` | apps/control-plane/src/automation/automation.service.ts:258-313 | row by row: a waiting task with nothing pending becomes READY, a backlog task with something pending BLOCKED, and every other row stays |
| `Readiness.VerdictUnchanged` | apps/control-plane/src/automation/automation.service.ts:258-313 | the moves made so far in the pass do not change the verdict on the next candidate |
| `Readiness.SecondPassChangesNothing` | apps/control-plane/src/automation/automation.service.ts:258-313 | one pass reaches the fixpoint |
| `Readiness.PassesSettle` | apps/control-plane/src/automation/automation.service.ts:258-313 | any positive number of passes equals one |
| `Readiness.CycleStaysBlocked` | packages/application/src/services/readiness.service.ts:167-246 | no number of passes frees a waiting task on a hard-block cycle without a DONE task |
| `ReadyQuery.ReadyQueryExact` | apps/control-plane/src/automation/application-adapters.ts:346-368 | returned and omitted tasks together are the READY multiset; the size is what the limit allows; the result is in order and no omitted task precedes a returned one, unknown priorities included |
| `ReadyQuery.NoneOutOfTurn` | apps/control-plane/src/automation/application-adapters.ts:94-99 | critical before high before medium before low before any other name, older first: no task is returned before, or instead of, one that should precede it; exactly the READY tasks are returned or left out |
| `ReadyQuery.TiesKeepTableOrder` | apps/control-plane/src/automation/application-adapters.ts:347-359 | tasks of equal rank and age come out in table order, and the limit cuts off the latest of them |
| `ConfigResolver.ValidateLayerOrder` | packages/config/src/resolver.ts:131-144 | accepts exactly the lists whose layers all stand in the precedence list at positions that never fall, and a refusal names a layer at fault |
| `ConfigResolver.InitFieldSources` | packages/config/src/resolver.ts:81-90 | every key of the policy, and no other, gets the source |
| `ConfigResolver.UpdateFieldSources` | packages/config/src/resolver.ts:99-111 | exactly the fields the override gives anything but undefined are re-attributed |
| `ConfigResolver.ResolveConfig` | packages/config/src/resolver.ts:224-277 | an accepted list resolves every field to the value of its last supplier (else the default) and the source of its last mention |
| `ConfigResolver.SupplierHasMaximalPrecedence` | packages/config/src/resolver.ts:131-144 | no layer defining the field stands later in the precedence list than the supplying one |
| `ConfigResolver.PrecedenceIsPosition` | packages/config/src/types.ts:68-77 | a layer's precedence is its position in the list |
| `ConfigResolver.LastEntryWins` | packages/config/src/resolver.ts:249-274 | the value of the last entry defining a field is its resolved value, and the last entry mentioning it its recorded source |
| `ConfigResolver.DefaultsStay` | packages/config/src/resolver.ts:224-247 | a field nobody defines keeps its default, and one nobody mentions is attributed to the system defaults |
| `ConfigResolver.OperatorWins` | packages/config/src/types.ts:68-77 | in an accepted list the last operator override that defines a field decides it |
| `ConfigResolver.SystemYields` | packages/config/src/types.ts:68-77 | a system entry's value survives only if no other layer defines the field |
| `ConfigResolver.FieldBelongsTo` | packages/config/src/defaults/lease-policy.ts:71-81 | which policies each field belongs to, as the eight merge functions build them |
| `ConfigResolver.SourceNamesSupplierIff` | packages/config/src/resolver.ts:99-111 | the recorded source is taken from the supplying entry if and only if the last mention is not null |
| `ConfigResolver.RecordedSourceIsSuppliersIff` | packages/config/src/resolver.ts:99-111 | when no two entries carry the same layer and source text, the recorded source reads as the supplier's if and only if the last mention is not null |
| `ConfigResolver.TypedLayersAreAttributed` | packages/config/src/resolver.ts:224-277 | for layers of the declared type keys of values and sources agree and each source names its supplier |
| `ConfigResolver.NullTakesCredit` | packages/config/src/resolver.ts:99-111 | a null override keeps the lower layer's value and is recorded as its source |
| `ConfigResolver.ValueOfConcat` | packages/config/src/resolver.ts:246-274 | a field resolved through A followed by B has the value of B over the value of A |
| `ConfigResolver.ResolvingInTwoStages` | packages/config/src/resolver.ts:224-299 | resolving A then B equals resolving B over the extracted values of A, with B's sources where B mentions the field and A's elsewhere |
| `ConfigResolver.ExtractedIsWellFormed` | packages/config/src/resolver.ts:288-299 | the extracted values are again a full configuration, so they can serve as defaults |
| `ImportStore.Database.Execute` | apps/control-plane/src/import/import.service.ts:210-337 | the whole transaction is one function of the store, described by the rows below |
| `ImportRuns.ScaffoldingIsExact` | apps/control-plane/src/import/import.service.ts:219-248 | the named project and repository are the stored ones, or new ones with the request's name, URL and path; nothing else is added |
| `ImportStore.Database.BuildIndex` | apps/control-plane/src/import/import.service.ts:250-259 | the dedup set and the reference map are those of the repository's rows, the last row winning |
| `ImportStore.Database.InsertTasks` | apps/control-plane/src/import/import.service.ts:262-294 | appends the rows of the unskipped tasks and leaves the map equal to the index of the new table |
| `ImportStore.Database.WireEdges` | apps/control-plane/src/import/import.service.ts:297-326 | the nested loops leave the edges and the errors of the attempt list |
| `ImportStore.EveryReferenceIndexed` | apps/control-plane/src/import/import.service.ts:297-301 | every request task with a reference is in the map, so the wiring loop never misses its own task |
| `ImportRuns.AttemptsExact` | apps/control-plane/src/import/import.service.ts:297-304 | the attempts are exactly the pairs some task with a reference asks for |
| `ImportRuns.NewRowsAreTheUnskipped` | apps/control-plane/src/import/import.service.ts:266-294 | the k-th new row is the k-th unskipped task under the k-th fresh id |
| `ImportRuns.WireExact` | apps/control-plane/src/import/import.service.ts:303-326 | the edge set is the old one plus exactly the resolvable pairs; existing rows keep their kind, new ones are hard edges of type blocks |
| `ImportRuns.WireConserves` | apps/control-plane/src/import/import.service.ts:303-326 | each attempt adds one edge or logs one error |
| `ImportRuns.MissingReported` | apps/control-plane/src/import/import.service.ts:303-310 | a reference is reported missing exactly when it resolves to nothing |
| `ImportRuns.RepeatReported` | apps/control-plane/src/import/import.service.ts:312-326 | a failed insert is reported exactly for an attempt whose pair is stored already or was made by an earlier attempt |
| `ImportRuns.ImportIsExact` | apps/control-plane/src/import/import.service.ts:210-337 | created plus skipped is the request size, old rows stay, edges and errors are exact for the whole transaction |
| `ImportRuns.SecondImportAddsNoEdge` | apps/control-plane/src/import/import.service.ts:210-337 | importing any request again reuses project and repository, skips every task with a reference, creates just the others and adds no edge |
| `ImportRuns.ImportKeepsRefsUniqueIff` | apps/control-plane/src/import/import.service.ts:266-294 | references are unique afterwards if and only if they were before and no two tasks to be created share one |
| `ImportGraph.TwinsAreBothCreated` | apps/control-plane/src/import/import.service.ts:266-294 | two tasks of one request with the same new reference are both created |
| `ImportGraph.ImportKeepsSound` | apps/control-plane/src/import/import.service.ts:272-326 | task ids stay unique and edges join stored tasks |
| `ImportGraph.ImportKeepsKeys` | apps/control-plane/src/import/import.service.ts:219-248 | ids of projects and of repositories stay unique |
| `ImportGraph.ImportStaysAcyclicIff` | apps/control-plane/src/import/import.service.ts:297-326 | for every request the stored graph is acyclic afterwards if and only if the graph drawn beforehand from the stored edges and the request's references is |
| `ImportGraph.ImportCanStoreCycle` | apps/control-plane/src/import/import.service.ts:297-326 | an import can store a dependency cycle |
| `ImportedCycles.ImportedCycleStaysBlocked` | apps/control-plane/src/import/import.service.ts:312-319 | a task that an import puts on a cycle of new edges is BLOCKED after every readiness pass, while none on the cycle is DONE |
| `HeartbeatThrottle.Throttle.BroadcastHeartbeat` | apps/control-plane/src/events/queue-worker-events.service.ts:181-205 | sent exactly when the worker was quiet for five seconds and the broadcaster did not throw; the time is recorded either way |
| `HeartbeatThrottle.Throttle.CleanupThrottleMap` | apps/control-plane/src/events/queue-worker-events.service.ts:501-508 | the loop removes exactly the entries older than thirty seconds |
| `HeartbeatThrottle.EvictionInvisible` | apps/control-plane/src/events/queue-worker-events.service.ts:181-205 | eviction changes no answer of a run whose clock falls by at most 25 001 ms |
| `HeartbeatThrottle.EvictionInvisibleIff` | apps/control-plane/src/events/queue-worker-events.service.ts:501-508 | that bound is tight: eviction is invisible to all runs falling by at most d if and only if d is at most 25 001 |
| `HeartbeatThrottle.AcceptedIffQuiet` | apps/control-plane/src/events/queue-worker-events.service.ts:181-190 | with a clock that falls by at most 25 001 ms, accepted exactly when five seconds have passed since zero and since every earlier accepted heartbeat of the worker |
| `HeartbeatThrottle.AcceptedAreApart` | apps/control-plane/src/events/queue-worker-events.service.ts:181-190 | on such a clock accepted heartbeats of one worker are at least five seconds apart |
| `HeartbeatThrottle.SpacedIff` | apps/control-plane/src/events/queue-worker-events.service.ts:181-190 | the spacing holds on all clocks falling by at most d if and only if d is at most 25 001 |
| `OutputBatching.Batcher.BroadcastWorkerOutput` | apps/control-plane/src/events/queue-worker-events.service.ts:229-249 | a chunk joins its worker's batch, and a batch without a timer gets one |
| `OutputBatching.Batcher.FlushOutputBatch` | apps/control-plane/src/events/queue-worker-events.service.ts:251-275 | a non-empty batch is handed over once and removed, whether or not the broadcaster throws |
| `OutputBatching.Batcher.TimerFires` | apps/control-plane/src/events/queue-worker-events.service.ts:244-246 | a due timer, stale or not, is spent and flushes whatever batch its worker has |
| `OutputBatching.Batcher.OnModuleDestroy` | apps/control-plane/src/events/queue-worker-events.service.ts:156-167 | the loop hands over every waiting batch and leaves none |
| `OutputBatching.EveryRunConserves` | apps/control-plane/src/events/queue-worker-events.service.ts:229-275 | at every point of every interleaving, handed then waiting chunks equal the pushed ones per worker, in order |
| `OutputBatching.EveryRunKeepsValid` | apps/control-plane/src/events/queue-worker-events.service.ts:229-249 | every batch ever held is non-empty and has its own timer running |
| `OutputBatching.ShutdownHandsOverEverything` | apps/control-plane/src/events/queue-worker-events.service.ts:156-167 | after a shutdown nothing waits and all that was pushed has been handed over |
| `OutputBatching.SpentTimersStrandNothing` | apps/control-plane/src/events/queue-worker-events.service.ts:244-247 | once all timers have fired nothing waits |
| `OutputBatching.OwnTimerFlushes` | apps/control-plane/src/events/queue-worker-events.service.ts:244-275 | a batch's own timer hands over the whole batch |
| `WorkspaceCleanup.ProtectedIff` | apps/control-plane/src/workspace-cleanup/workspace-cleanup.service.ts:240-251 | the count query protects a task exactly when some lease is neither COMPLETING nor RECLAIMED |
| `WorkspaceCleanup.FileSystem.ScanWorkspaceDirectories` | apps/control-plane/src/workspace-cleanup/workspace-cleanup.service.ts:264-309 | the scan finds exactly the readable worktrees, each once |
| `WorkspaceCleanup.FileSystem.CleanEntries` | apps/control-plane/src/workspace-cleanup/workspace-cleanup.service.ts:390-418 | each entry gets its outcome and only removals change the tree |
| `WorkspaceCleanup.FileSystem.CleanEmptyRepoDirectories` | apps/control-plane/src/workspace-cleanup/workspace-cleanup.service.ts:450-470 | the sweep removes exactly the empty repository directories it can read and remove, and changes no other |
| `WorkspaceCleanup.FileSystem.CleanOrphanedWorkspaces` | apps/control-plane/src/workspace-cleanup/workspace-cleanup.service.ts:365-442 | the three phases composed, with the report's counts taken from the actions |
| `WorkspaceSafety.OnlyOrphansAreTouched` | apps/control-plane/src/workspace-cleanup/workspace-cleanup.service.ts:390-418 | under any faults only unleased worktrees past retention are touched, also through the sweep |
| `WorkspaceSafety.YoungWorktreeStays` | apps/control-plane/src/workspace-cleanup/workspace-cleanup.service.ts:396-412 | a worktree younger than the retention days, in milliseconds, stays in every run |
| `WorkspaceSafety.UnleasedGoneIff` | apps/control-plane/src/workspace-cleanup/workspace-cleanup.service.ts:396-412 | without faults an unleased worktree is gone exactly when it is not younger than that |
| `WorkspaceSafety.ActionsTellTheTruth` | apps/control-plane/src/workspace-cleanup/workspace-cleanup.service.ts:390-418 | each action's outcome is the true one in terms of query, leases, age and removal, and a deleted worktree is gone |
| `WorkspaceSafety.OnlyEmptiedRepositoriesGo` | apps/control-plane/src/workspace-cleanup/workspace-cleanup.service.ts:450-470 | a repository directory that disappears held nothing but orphans |
| `WorkspaceSafety.FaultFreeRunIsComplete` | apps/control-plane/src/workspace-cleanup/workspace-cleanup.service.ts:365-442 | without faults every orphan is gone, everything else stays and no empty repository directory is left |
| `WorkspaceSafety.FourCountsSum` | apps/control-plane/src/workspace-cleanup/workspace-cleanup.service.ts:423-430 | the four outcome counts sum to the scanned count |
| `WorkspaceSafety.SecondRunDeletesNothing` | apps/control-plane/src/workspace-cleanup/workspace-cleanup.service.ts:365-442 | after a fault-free run a second one at the same instant changes nothing, whatever fails in it |
| `WorkspaceSafety.DaysRemainingExact` | apps/control-plane/src/workspace-cleanup/workspace-cleanup.service.ts:406-410 | the days shown are the least whole number after which the worktree is old enough |
| `WorkspaceSafety.ReclaimPinsWorktreeIff` | apps/control-plane/src/workspace-cleanup/workspace-cleanup.service.ts:240-251 | a timed-out or crashed row is unchanged by a run, and still protects its task, if and only if the run holds no granted move of it to RECLAIMED |
| `WorkspaceSafety.PinnedWorktreeSurvives` | apps/control-plane/src/workspace-cleanup/workspace-cleanup.service.ts:365-442 | until such a move no cleanup, however late, removes that worktree |
| `WorkspaceSafety.PinnedWorktreeArises` | apps/control-plane/src/workspace-cleanup/workspace-cleanup.service.ts:365-442 | a run from the empty database whose reclaimed worktree every later cleanup keeps |
| `SchemaVersion.MatchExact` | packages/schemas/src/version.ts:52 | the match exists exactly for two numerals around a point, with those groups |
| `SchemaVersion.AcceptsExactlyCanonical` | packages/schemas/src/version.ts:84-95 | exactly the canonical decimal strings are accepted, with the doubles of their components |
| `SchemaVersion.ReadExactlyIff` | packages/schemas/src/version.ts:91-94 | a component is read exactly if and only if a double can hold it |
| `SchemaVersion.StepIsExact` | packages/schemas/src/version.ts:91-94 | above 2^53 a component is read in steps of the power of two that leaves 53 bits |
| `SchemaVersion.RoundsToNearest` | packages/schemas/src/version.ts:91-94 | it reads as a nearest such multiple, the even one of two |
| `SchemaVersion.InfinityIff` | packages/schemas/src/version.ts:91-94 | and overflows exactly when it rounds to 2^1024 or more |
| `SchemaVersion.SampleAccepted` | packages/schemas/src/version.ts:58-61 | the documented sample 1.0 |
| `SchemaVersion.SampleOfTwoDigits` | packages/schemas/src/version.ts:58-61 | the documented sample 10.3 |
| `SchemaVersion.SamplesRefused` | packages/schemas/src/version.ts:58-61 | the five documented samples that are refused |
| `SchemaVersion.RoundTripIff` | packages/schemas/src/version.ts:84-95 | parsing undoes printing if and only if both components are representable |
| `SchemaVersion.InjectiveOnRepresentable` | packages/schemas/src/version.ts:84-95 | strings with representable components parse alike only if equal |
| `SchemaVersion.ConfusedVersions` | packages/schemas/src/version.ts:91-94 | major versions 2^53 and 2^53 + 1 are confused |
| `SchemaVersion.CompatibleIff` | packages/schemas/src/version.ts:148-172 | for every expected number, compatible exactly when the string is canonical and its major reads as that number; below 2^53, exactly the expected major |
| `SchemaVersion.MismatchSays` | packages/schemas/src/version.ts:163-171 | a refusal for another major names the one expected and the one found, and a compatible packet has no reason |
| `SchemaVersion.InvalidFormatIff` | packages/schemas/src/version.ts:152-161 | the format reason, and the -1 marker, appear exactly for non-canonical strings |
| `ShutdownDrain.Drain` | apps/cli/src/shutdown.ts:97-126 | in every world in which some check ends the loop, it stops at the first: drained exactly when that check counts zero, otherwise the timeout has elapsed and its count is reported |
| `ShutdownDrain.PollBound` | apps/cli/src/shutdown.ts:113-124 | when each sleep takes at least a positive interval, at most ceil(timeout / interval) sleeps, for any lease counts |
| `ShutdownDrain.EndsInTime` | apps/cli/src/shutdown.ts:113-124 | and then some check does end the loop |
| `ShutdownDrain.NeverEndsIff` | apps/cli/src/shutdown.ts:116-123 | the loop ends nowhere exactly when every check finds leases and time left |
| `ShutdownDrain.NothingCountedIff` | apps/cli/src/shutdown.ts:65-81 | the count is zero exactly when the database is unreadable or no lease is STARTING, RUNNING, HEARTBEATING or COMPLETING |
| `ShutdownDrain.DrainedIff` | apps/cli/src/shutdown.ts:116-125 | drained exactly when some check the timeout did not cut off found the database unreadable or none of those leases |
| `ShutdownDrain.CompletedWorkerForcesTimeout` | apps/cli/src/shutdown.ts:97-126 | once a worker has completed, every drain with readable checks runs to its timeout and reports leases remaining |

## Left out

- REST controllers, DTO validation, response mapping, paginated listings, the web UI, CLI prompts, migrations and observability: plumbing with easy claims.
- Worker spawning, git, LLM calls and WebSocket delivery: foreign calls; the broadcaster, the file system, the clock and the database of the drain loop are inputs that may throw or vary.
- Domain events and metrics emitted after a commit: they do not feed back into the store.
- The other parts of the reconciliation sweep (orphaned jobs, stuck tasks, blocked tasks): they call the modelled fail, transition and readiness steps on the rows of a query.
- Scheduler pool selection and activeDispatches bookkeeping: they rank pools and never change the modelled tables.
- Review, merge-queue and validation services: only the task transitions they request are modelled, as arbitrary transition steps.
- Operator actions other than reopen, rerun review and change priority: they go through the modelled transition step, or write an audit row or a merge position and no task row.
- The reopen guard reads outside the write transaction in the source; both run in one synchronous call, so they are one step here.
- Version-conflict branches of steps that read the version in their own transaction are unreachable and appear as asserted successes; the edit, whose version comes from its caller, keeps its conflict branch.
- Row order of queries without ORDER BY: the claim, the readiness pass and the cleanup scan are proved for every order; the import's reference index assumes insertion order.
- Generated identifiers are a counter in the import model, which stands for the uniqueness of UUIDs; elsewhere they are parameters.
- Configuration values are opaque text, and a policy override that is itself null, which the merge functions would throw on, is not modelled.
- Priorities that name a property every JavaScript object inherits are not modelled: the rank table is a plain table.
- estimateDirectorySize and the freed-bytes total: a best-effort estimate that no decision depends on.
- Timer delays of output batches: timers may fire at any time and in any order, so no latency is claimed.
- The module shutdown also clears the throttle map; throttle runs end there.
- ShutdownDrain.Drain: a world in which every check waits is outside it, since the loop then never ends (`NeverEndsIff`); a poll interval enters only through the clock.
- Task columns other than status, version, lease link, retry count and priority are one opaque text; an edit replaces it or leaves it.
