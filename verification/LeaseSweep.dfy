/** The reconciliation sweep over stale leases: a loop that changes the table its query read. */
module LeaseSweep {

  import opened Wrappers
  import opened Collections
  import opened StateMachines
  import opened LeaseStore
  import opened LeaseRuns
  import opened StaleLeases

  const DEFAULT_RETRY_POLICY: RetryPolicy := RetryPolicy(2, true)

  /** The default action for the heartbeat-timeout trigger. */
  const DEFAULT_ON_TIMEOUT: Option<EscalationAction> := Some(RetryOrEscalate)

  datatype SweepAction = SweepAction(leaseId: LeaseId, reason: ReclaimReason, reclaimed: bool)

  // ----- What one sweep should do -----

  /** The detector's test on one lease. */
  predicate Stale(lease: Lease, staleness: StalenessPolicy, now: int) {
    || MissedHeartbeat(Row("", lease), Seconds(HeartbeatDeadline(staleness, now)))
    || OverTtl(Row("", lease), Seconds(now))
  }

  /** Detected, and not still LEASED. */
  predicate Reclaims(leases: map<LeaseId, Lease>, staleness: StalenessPolicy, now: int, l: LeaseId) {
    l in leases && leases[l].status != Leased && Stale(leases[l], staleness, now)
  }

  function Ended(lease: Lease, now: int): Lease {
    lease.(status := TimedOut, reclaimReason := Some(Classify(Row("", lease), now)))
  }

  /** A task at work is escalated and loses its lease: the defaults ask for a failure summary to retry,
      and the sweep never gives one. */
  function Escalates(task: Task): Task {
    if task.status == Assigned || task.status == InDevelopment
    then task.(status := Escalated, currentLeaseId := None, version := task.version + 1)
    else task
  }

  /** The leases after the given ones have been taken from the sweep's list. */
  function LeasesAfter(s: Store, done: set<LeaseId>, now: int): map<LeaseId, Lease> {
    map l | l in s.leases ::
        if l in done && Reclaimable(s.leases[l].status) then Ended(s.leases[l], now) else s.leases[l]
  }

  /** The task's current lease is one of them. */
  predicate Loses(s: Store, done: set<LeaseId>, t: TaskId)
    requires t in s.tasks
  {
    match s.tasks[t].currentLeaseId
    case None => false
    case Some(l) => l in done && l in s.leases && s.leases[l].taskId == t && Reclaimable(s.leases[l].status)
  }

  function TasksAfter(s: Store, done: set<LeaseId>): map<TaskId, Task> {
    map t | t in s.tasks :: if Loses(s, done, t) then Escalates(s.tasks[t]) else s.tasks[t]
  }

  ghost predicate SweptBy(s: Store, done: set<LeaseId>, now: int, s': Store) {
    s'.leases == LeasesAfter(s, done, now) && s'.tasks == TasksAfter(s, done)
  }

  ghost function StaleIds(s: Store, staleness: StalenessPolicy, now: int): set<LeaseId> {
    set l | l in s.leases && Stale(s.leases[l], staleness, now)
  }

  // ----- The sweep -----

  function SweepEvent(row: Row, now: int): Event {
    ReclaimLease(row.leaseId, Classify(row, now), DEFAULT_RETRY_POLICY, DEFAULT_ON_TIMEOUT, false)
  }

  /** One reclaim; a refused one is an error to be logged. */
  method ReclaimRow(db: Database, row: Row, now: int) returns (action: SweepAction)
    requires Listed(db.State(), row) && row.lease.taskId in db.tasks
    modifies db
    ensures ReclaimsRow(old(db.State()), row, now, db.State())
    ensures action == ActionFor(row, now)
  {
    var reason := Classify(row, now);
    ReclaimEffect(db.State(), row, now);
    var error := db.ReclaimLease(row.leaseId, reason, DEFAULT_RETRY_POLICY, DEFAULT_ON_TIMEOUT, false);
    action := SweepAction(row.leaseId, reason, error.None?);
  }

  /** The body of the loop, after the first `i` rows. */
  method SweepOne(db: Database, stale: seq<Row>, i: nat, now: int, ghost s: Store) returns (action: SweepAction)
    requires LeasesNamed(s) && ListedOnce(s, stale) && i < |stale|
    requires SweptBy(s, IdsOf(stale[..i]), now, db.State())
    modifies db
    ensures SweptBy(s, IdsOf(stale[..i + 1]), now, db.State())
    ensures action == ActionFor(stale[i], now)
  {
    ghost var done, before := IdsOf(stale[..i]), db.State();
    ListedOnceAt(s, stale, i);
    StillListed(s, done, stale[i], now, before);
    action := ReclaimRow(db, stale[i], now);
    OneMoreSwept(s, done, stale[i], now, before, db.State());
    IdsSnoc(stale, i);
  }

  method SweepRows(db: Database, stale: seq<Row>, now: int) returns (actions: seq<SweepAction>)
    requires LeasesNamed(db.State()) && ListedOnce(db.State(), stale)
    modifies db
    ensures SweptBy(old(db.State()), IdsOf(stale), now, db.State())
    ensures ActionsFor(stale, now, actions)
  {
    ghost var s := db.State();
    actions := [];
    NothingSwept(s, now);
    assert IdsOf(stale[..0]) == {};
    for i := 0 to |stale|
      invariant SweptBy(s, IdsOf(stale[..i]), now, db.State())
      invariant ActionsFor(stale[..i], now, actions)
    {
      var action := SweepOne(db, stale, i, now, s);
      actions := actions + [action];
    }
    assert stale[..|stale|] == stale;
  }

  /** Detect, then reclaim one by one. */
  method SweepStaleLeases(db: Database, staleness: StalenessPolicy, now: int) returns (actions: seq<SweepAction>)
    requires LeasesNamed(db.State())
    modifies db
    ensures SweptBy(old(db.State()), StaleIds(old(db.State()), staleness, now), now, db.State())
    ensures Logged(old(db.State()), StaleIds(old(db.State()), staleness, now), now, actions)
  {
    ghost var s := db.State();
    var table := ReadLeases(db.leases);
    DetectsExactly(s, table, staleness, now);
    var stale := DetectStaleLeases(table, staleness, now);
    actions := SweepRows(db, stale, now);
    ActionsLogged(s, stale, actions, now);
  }

  ghost predicate ActionsFor(rows: seq<Row>, now: int, actions: seq<SweepAction>) {
    |actions| == |rows| && forall k :: 0 <= k < |rows| ==> actions[k] == ActionFor(rows[k], now)
  }

  /** Rows of the store, no lease twice. */
  ghost predicate ListedOnce(s: Store, rows: seq<Row>) {
    && (forall row :: row in rows ==> Listed(s, row))
    && (forall i :: 0 <= i < |rows| ==> rows[i].leaseId !in IdsOf(rows[..i]))
  }

  lemma ListedOnceAt(s: Store, rows: seq<Row>, i: nat)
    requires ListedOnce(s, rows) && i < |rows|
    ensures Listed(s, rows[i]) && rows[i].leaseId !in IdsOf(rows[..i])
  {
    assert rows[i] in rows;
  }

  /** The row is one of the store, in a status the detector looks at. */
  ghost predicate Listed(s: Store, row: Row) {
    && row.leaseId in s.leases && s.leases[row.leaseId] == row.lease
    && (row.lease.status == Leased || Reclaimable(row.lease.status))
  }

  function ActionFor(row: Row, now: int): SweepAction {
    SweepAction(row.leaseId, Classify(row, now), row.lease.status != Leased)
  }

  /** One action per stale lease: reclaimed exactly when it was not LEASED, an error otherwise. */
  ghost predicate Logged(s: Store, stale: set<LeaseId>, now: int, actions: seq<SweepAction>) {
    && (forall l :: l in stale ==> l in s.leases && ActionFor(Row(l, s.leases[l]), now) in actions)
    && (forall a :: a in actions ==> a.leaseId in stale && a.leaseId in s.leases
                                     && a == ActionFor(Row(a.leaseId, s.leases[a.leaseId]), now))
    && |actions| == |stale|
  }

  ghost function IdsOf(rows: seq<Row>): set<LeaseId> {
    set row | row in rows :: row.leaseId
  }

  lemma IdsSnoc(rows: seq<Row>, i: nat)
    requires i < |rows|
    ensures IdsOf(rows[..i + 1]) == IdsOf(rows[..i]) + {rows[i].leaseId}
  {
    assert rows[..i + 1] == rows[..i] + [rows[i]];
  }

  lemma {:induction false} IdsCounted(rows: seq<Row>)
    requires forall i :: 0 <= i < |rows| ==> rows[i].leaseId !in IdsOf(rows[..i])
    ensures |IdsOf(rows)| == |rows|
  {
    if rows != [] {
      var most := Init(rows);
      assert most == rows[..|rows| - 1] && rows[..|most| + 1] == rows;
      forall i | 0 <= i < |most|
        ensures most[i].leaseId !in IdsOf(most[..i])
      {
        assert most[..i] == rows[..i];
      }
      IdsCounted(most);
      IdsSnoc(rows, |most|);
    }
  }

  lemma ActionsLogged(s: Store, stale: seq<Row>, actions: seq<SweepAction>, now: int)
    requires ActionsFor(stale, now, actions) && ListedOnce(s, stale)
    ensures Logged(s, IdsOf(stale), now, actions)
  {
    IdsCounted(stale);
    forall l | l in IdsOf(stale)
      ensures l in s.leases && ActionFor(Row(l, s.leases[l]), now) in actions
    {
      var row :| row in stale && row.leaseId == l;
      var k :| 0 <= k < |stale| && stale[k] == row;
      assert actions[k] in actions && row == Row(l, s.leases[l]);
    }
    forall a | a in actions
      ensures a.leaseId in IdsOf(stale) && a.leaseId in s.leases
      ensures a == ActionFor(Row(a.leaseId, s.leases[a.leaseId]), now)
    {
      var k :| 0 <= k < |actions| && actions[k] == a;
      assert stale[k] in stale && Listed(s, stale[k]) && stale[k] == Row(a.leaseId, s.leases[a.leaseId]);
    }
  }

  lemma NothingSwept(s: Store, now: int)
    ensures SweptBy(s, {}, now, s)
  {
    assert LeasesAfter(s, {}, now) == s.leases && TasksAfter(s, {}) == s.tasks;
  }

  /** The list holds the stale leases of the store, each once and as stored. */
  lemma DetectsExactly(s: Store, table: seq<Row>, staleness: StalenessPolicy, now: int)
    requires TableOf(s.leases, table)
    ensures var stale := DetectStaleLeases(table, staleness, now);
            IdsOf(stale) == StaleIds(s, staleness, now) && ListedOnce(s, stale)
  {
    var stale := DetectStaleLeases(table, staleness, now);
    forall row
      ensures row in stale <==> row in table && Stale(row.lease, staleness, now)
    {
      StaleQueryExact(table, HeartbeatDeadline(staleness, now), now, row);
    }
    forall l | l in StaleIds(s, staleness, now)
      ensures l in IdsOf(stale)
    {
      assert Row(l, s.leases[l]) in stale;
    }
    forall i | 0 <= i < |stale|
      ensures stale[i].leaseId !in IdsOf(stale[..i])
    {
      forall row | row in stale[..i]
        ensures row.leaseId != stale[i].leaseId
      {
        var k :| 0 <= k < i && stale[k] == row;
        StaleQueryDistinct(table, HeartbeatDeadline(staleness, now), now, k, i);
      }
    }
  }

  /** What one reclaim of the sweep does to a lease the detector lists: a LEASED one is refused. */
  ghost predicate ReclaimsRow(before: Store, row: Row, now: int, after: Store) {
    var l, t := row.leaseId, row.lease.taskId;
    if row.lease.status == Leased || t !in before.tasks then after == before
    else after.leases == before.leases[l := Ended(row.lease, now)]
         && after.tasks == before.tasks[t := Escalates(before.tasks[t])]
  }

  lemma ReclaimEffect(before: Store, row: Row, now: int)
    requires Listed(before, row) && row.lease.taskId in before.tasks
    ensures ReclaimsRow(before, row, now, Next(before, SweepEvent(row, now)))
    ensures Apply(before, SweepEvent(row, now)).Commit? <==> row.lease.status != Leased
  {
    assert before.tasks[row.lease.taskId := before.tasks[row.lease.taskId]] == before.tasks;
  }

  lemma LeasedSkipped(s: Store, done: set<LeaseId>, l: LeaseId, now: int)
    requires l in s.leases && s.leases[l].status == Leased
    ensures LeasesAfter(s, done + {l}, now) == LeasesAfter(s, done, now)
    ensures TasksAfter(s, done + {l}) == TasksAfter(s, done)
  {
    forall t | t in s.tasks
      ensures Loses(s, done + {l}, t) <==> Loses(s, done, t)
    {
    }
  }

  lemma OneMoreEnded(s: Store, done: set<LeaseId>, l: LeaseId, now: int)
    requires l in s.leases && Reclaimable(s.leases[l].status)
    ensures LeasesAfter(s, done + {l}, now) == LeasesAfter(s, done, now)[l := Ended(s.leases[l], now)]
  {
  }

  lemma OneMoreEscalated(s: Store, done: set<LeaseId>, l: LeaseId, t: TaskId)
    requires t in s.tasks && l in s.leases && s.leases[l].taskId == t && s.tasks[t].currentLeaseId == Some(l)
    requires Reclaimable(s.leases[l].status)
    ensures TasksAfter(s, done + {l}) == TasksAfter(s, done)[t := Escalates(s.tasks[t])]
  {
    forall u | u in s.tasks && u != t
      ensures Loses(s, done + {l}, u) <==> Loses(s, done, u)
    {
    }
  }

  /** The earlier reclaims of the loop have left this lease, and the task that names it, alone. */
  lemma StillListed(s: Store, done: set<LeaseId>, row: Row, now: int, before: Store)
    requires LeasesNamed(s) && SweptBy(s, done, now, before) && Listed(s, row) && row.leaseId !in done
    ensures Listed(before, row) && row.lease.taskId in before.tasks && row.lease.taskId in s.tasks
    ensures row.lease.status != Leased ==>
              s.tasks[row.lease.taskId].currentLeaseId == Some(row.leaseId)
              && before.tasks[row.lease.taskId] == s.tasks[row.lease.taskId]
  {
    assert NamedIfActive(s, row.leaseId);
    assert row.lease.status != Leased ==> Named(s, row.leaseId);
  }

  lemma OneMoreSwept(s: Store, done: set<LeaseId>, row: Row, now: int, before: Store, after: Store)
    requires LeasesNamed(s) && SweptBy(s, done, now, before) && Listed(s, row) && row.leaseId !in done
    requires ReclaimsRow(before, row, now, after)
    ensures SweptBy(s, done + {row.leaseId}, now, after)
  {
    StillListed(s, done, row, now, before);
    if row.lease.status == Leased {
      LeasedSkipped(s, done, row.leaseId, now);
    } else {
      OneMoreEnded(s, done, row.leaseId, now);
      OneMoreEscalated(s, done, row.leaseId, row.lease.taskId);
    }
  }

  // ----- What a sweep guarantees -----

  /** The sweep's list in the policy's own fields. */
  lemma StaleIff(s: Store, staleness: StalenessPolicy, now: int, l: LeaseId)
    ensures l in StaleIds(s, staleness, now) <==>
            l in s.leases && (Silent(s.leases[l], staleness, now) || Expired(s.leases[l], now))
  {
    if l in s.leases {
      var row := Row("", s.leases[l]);
      DetectedIff([row], staleness, now, row);
      StaleQueryExact([row], HeartbeatDeadline(staleness, now), now, row);
    }
  }

  /** Exactly the detected leases that are not LEASED end, as timed out; every other lease is untouched. */
  lemma SweepEndsExactly(s: Store, staleness: StalenessPolicy, now: int, s': Store, l: LeaseId)
    requires SweptBy(s, StaleIds(s, staleness, now), now, s') && l in s.leases
    ensures l in s'.leases
    ensures Reclaims(s.leases, staleness, now, l) <==>
            s.leases[l].status != Leased && (Silent(s.leases[l], staleness, now) || Expired(s.leases[l], now))
    ensures Reclaims(s.leases, staleness, now, l) ==>
              && s'.leases[l].status == TimedOut
              && s'.leases[l].reclaimReason ==
                 Some(if s.leases[l].expiresAt * 1000 < now then TtlExpired else MissedHeartbeats)
              && s'.leases[l].taskId == s.leases[l].taskId && s'.leases[l].heartbeatAt == s.leases[l].heartbeatAt
              && s'.leases[l].leasedAt == s.leases[l].leasedAt && s'.leases[l].expiresAt == s.leases[l].expiresAt
    ensures !Reclaims(s.leases, staleness, now, l) ==> s'.leases[l] == s.leases[l]
  {
    StaleIff(s, staleness, now, l);
  }

  /** No task is sent back to be tried again: one at work that loses its lease is escalated. */
  lemma SweepNeverRetries(s: Store, staleness: StalenessPolicy, now: int, s': Store, t: TaskId)
    requires SweptBy(s, StaleIds(s, staleness, now), now, s') && t in s.tasks
    ensures t in s'.tasks && s'.tasks[t].retryCount == s.tasks[t].retryCount
    ensures s'.tasks[t].status != s.tasks[t].status ==> s'.tasks[t].status == Escalated
  {
  }

  /** A second sweep at the same instant finds at most LEASED rows, and changes nothing. */
  lemma SecondSweepReclaimsNothing(s: Store, staleness: StalenessPolicy, now: int, once: Store, twice: Store)
    requires SweptBy(s, StaleIds(s, staleness, now), now, once)
    requires SweptBy(once, StaleIds(once, staleness, now), now, twice)
    ensures forall l :: l in StaleIds(once, staleness, now) ==> once.leases[l].status == Leased
    ensures twice.leases == once.leases && twice.tasks == once.tasks
  {
    var again := StaleIds(once, staleness, now);
    forall l | l in again
      ensures once.leases[l].status == Leased
    {
      assert l in s.leases;
      SweepEndsExactly(s, staleness, now, once, l);
    }
    assert LeasesAfter(once, again, now) == once.leases;
    forall t | t in once.tasks
      ensures !Loses(once, again, t)
    {
    }
    assert TasksAfter(once, again) == once.tasks;
  }
}
