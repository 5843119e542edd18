/** Staleness detection: the UNION query at one-second granularity, the classification of its
    rows, and what the reclaim service can do with them. */
module StaleLeases {

  import opened Wrappers
  import opened Collections
  import opened StateMachines
  import opened LeaseStore
  import opened LeaseRuns
  import opened LeaseEffects

  datatype Row = Row(leaseId: LeaseId, lease: Lease)

  datatype StalenessPolicy = StalenessPolicy(intervalSeconds: nat, missedThreshold: nat, graceSeconds: nat)

  /** COALESCE(heartbeat_at, leased_at), in seconds. */
  function LastSeen(lease: Lease): int {
    if lease.heartbeatAt.Some? then lease.heartbeatAt.value else lease.leasedAt
  }

  predicate MissedHeartbeat(row: Row, deadlineSeconds: int) {
    Reclaimable(row.lease.status) && LastSeen(row.lease) < deadlineSeconds
  }

  predicate OverTtl(row: Row, deadlineSeconds: int) {
    (row.lease.status == Leased || Reclaimable(row.lease.status)) && row.lease.expiresAt < deadlineSeconds
  }

  /** Row-wise duplicate removal, as UNION does. */
  function Unique(rows: seq<Row>): (r: seq<Row>) {
    if rows == [] then []
    else
      var rest := Unique(Init(rows));
      if Last(rows) in rest then rest else rest + [Last(rows)]
  }

  function FindStaleLeases(table: seq<Row>, heartbeatDeadlineMs: int, ttlDeadlineMs: int): (r: seq<Row>) {
    Unique(Filter(table, row => MissedHeartbeat(row, Seconds(heartbeatDeadlineMs)))
           + Filter(table, row => OverTtl(row, Seconds(ttlDeadlineMs))))
  }

  lemma {:induction false} UniqueSpec(rows: seq<Row>)
    ensures Distinct(Unique(rows))
    ensures forall row :: row in Unique(rows) <==> row in rows
  {
    if rows != [] {
      UniqueSpec(Init(rows));
      assert rows == Init(rows) + [Last(rows)];
    }
  }

  ghost predicate PrimaryKey(table: seq<Row>) {
    forall i, j :: 0 <= i < j < |table| ==> table[i].leaseId != table[j].leaseId
  }

  /** The port's contract, on stored instants: stale by a whole second is found, and nothing else. */
  lemma StaleQueryExact(table: seq<Row>, heartbeatDeadlineMs: int, ttlDeadlineMs: int, row: Row)
    ensures row in FindStaleLeases(table, heartbeatDeadlineMs, ttlDeadlineMs) <==>
            && row in table
            && (|| (Reclaimable(row.lease.status) && LastSeen(row.lease) * 1000 + 1000 <= heartbeatDeadlineMs)
                || ((row.lease.status == Leased || Reclaimable(row.lease.status))
                    && row.lease.expiresAt * 1000 + 1000 <= ttlDeadlineMs))
  {
    var missed := (r: Row) => MissedHeartbeat(r, Seconds(heartbeatDeadlineMs));
    var over := (r: Row) => OverTtl(r, Seconds(ttlDeadlineMs));
    FilterMembers(table, missed);
    FilterMembers(table, over);
    UniqueSpec(Filter(table, missed) + Filter(table, over));
  }

  /** The same against the true millisecond instants the columns were truncated from: every
      returned lease is stale, and every lease stale by at least a full second is returned. */
  lemma StaleQueryAgainstTrueTimes(table: seq<Row>, heartbeatDeadlineMs: int, ttlDeadlineMs: int, row: Row,
                                   seenMs: int, expiresMs: int)
    requires row in table && Seconds(seenMs) == LastSeen(row.lease) && Seconds(expiresMs) == row.lease.expiresAt
    ensures row in FindStaleLeases(table, heartbeatDeadlineMs, ttlDeadlineMs) ==>
              || (Reclaimable(row.lease.status) && seenMs < heartbeatDeadlineMs)
              || ((row.lease.status == Leased || Reclaimable(row.lease.status)) && expiresMs < ttlDeadlineMs)
    ensures (Reclaimable(row.lease.status) && seenMs + 1000 <= heartbeatDeadlineMs)
            || ((row.lease.status == Leased || Reclaimable(row.lease.status)) && expiresMs + 1000 <= ttlDeadlineMs) ==>
              row in FindStaleLeases(table, heartbeatDeadlineMs, ttlDeadlineMs)
  {
    StaleQueryExact(table, heartbeatDeadlineMs, ttlDeadlineMs, row);
  }

  /** No lease appears twice, even when both conditions hold. */
  lemma StaleQueryDistinct(table: seq<Row>, heartbeatDeadlineMs: int, ttlDeadlineMs: int, i: nat, j: nat)
    requires PrimaryKey(table)
    requires i < j < |FindStaleLeases(table, heartbeatDeadlineMs, ttlDeadlineMs)|
    ensures var r := FindStaleLeases(table, heartbeatDeadlineMs, ttlDeadlineMs);
            r[i].leaseId != r[j].leaseId
  {
    var r := FindStaleLeases(table, heartbeatDeadlineMs, ttlDeadlineMs);
    UniqueSpec(Filter(table, row => MissedHeartbeat(row, Seconds(heartbeatDeadlineMs)))
               + Filter(table, row => OverTtl(row, Seconds(ttlDeadlineMs))));
    StaleQueryExact(table, heartbeatDeadlineMs, ttlDeadlineMs, r[i]);
    StaleQueryExact(table, heartbeatDeadlineMs, ttlDeadlineMs, r[j]);
    var a :| 0 <= a < |table| && table[a] == r[i];
    var b :| 0 <= b < |table| && table[b] == r[j];
    assert a != b;
  }

  // ----- Detection and classification -----

  function HeartbeatDeadline(policy: StalenessPolicy, now: int): int {
    now - (policy.intervalSeconds * policy.missedThreshold + policy.graceSeconds) * 1000
  }

  function Classify(row: Row, now: int): ReclaimReason {
    if row.lease.expiresAt * 1000 < now then TtlExpired else MissedHeartbeats
  }

  function DetectStaleLeases(table: seq<Row>, policy: StalenessPolicy, now: int): seq<Row> {
    FindStaleLeases(table, HeartbeatDeadline(policy, now), now)
  }

  /** Nothing heard for a whole window, counted in the policy's own fields from the last heartbeat, or
      from the start of the lease if there was none, and rounded up to a whole second. */
  ghost predicate Silent(lease: Lease, policy: StalenessPolicy, now: int) {
    var seen := match lease.heartbeatAt case Some(h) => h case None => lease.leasedAt;
    && lease.status in {Starting, Running, Heartbeating}
    && seen * 1000 + 1000 + 1000 * policy.graceSeconds + 1000 * (policy.intervalSeconds * policy.missedThreshold) <= now
  }

  ghost predicate Expired(lease: Lease, now: int) {
    lease.status in {Leased, Starting, Running, Heartbeating} && lease.expiresAt * 1000 + 1000 <= now
  }

  /** The detector's answer on the policy's own fields. */
  lemma DetectedIff(table: seq<Row>, policy: StalenessPolicy, now: int, row: Row)
    ensures row in DetectStaleLeases(table, policy, now) <==>
            row in table && (Silent(row.lease, policy, now) || Expired(row.lease, now))
  {
    StaleQueryExact(table, HeartbeatDeadline(policy, now), now, row);
  }

  /** The reason given is always true of the lease: it is the expiry exactly when that has passed, and
      any other detected lease has been silent for a whole window. */
  lemma ReasonIsTrue(table: seq<Row>, policy: StalenessPolicy, now: int, row: Row)
    requires row in DetectStaleLeases(table, policy, now)
    ensures Classify(row, now) == TtlExpired <==> row.lease.expiresAt * 1000 < now
    ensures Classify(row, now) == TtlExpired || Classify(row, now) == MissedHeartbeats
    ensures Classify(row, now) == MissedHeartbeats ==> Silent(row.lease, policy, now)
  {
    DetectedIff(table, policy, now, row);
  }

  // ----- Heartbeats and detection together -----

  /** Heartbeats of the lease in the run, none of them dated before `since`. */
  predicate BeatsFrom(events: seq<Event>, l: LeaseId, since: int) {
    forall i :: 0 <= i < |events| && events[i].ReceiveHeartbeat? && events[i].leaseId == l ==> events[i].now >= since
  }

  lemma SeenStep(s: Store, e: Event, l: LeaseId, since: int)
    requires l in s.leases && s.leases[l].heartbeatAt.Some? && s.leases[l].heartbeatAt.value >= since / 1000
    requires e.ReceiveHeartbeat? && e.leaseId == l ==> e.now >= since
    ensures l in Next(s, e).leases && Next(s, e).leases[l].heartbeatAt.Some?
    ensures Next(s, e).leases[l].heartbeatAt.value >= since / 1000
  {
  }

  lemma {:induction false} SeenSince(s: Store, events: seq<Event>, l: LeaseId, since: int)
    requires l in s.leases && s.leases[l].heartbeatAt.Some? && s.leases[l].heartbeatAt.value >= since / 1000
    requires BeatsFrom(events, l, since)
    ensures l in After(s, events).leases && After(s, events).leases[l].heartbeatAt.Some?
    ensures After(s, events).leases[l].heartbeatAt.value >= since / 1000
  {
    if events != [] {
      assert forall i :: 0 <= i < |events| - 1 ==> Init(events)[i] == events[i];
      SeenSince(s, Init(events), l, since);
      assert Last(events) == events[|events| - 1];
      SeenStep(After(s, Init(events)), Last(events), l, since);
    }
  }

  /** A worker whose heartbeat was accepted is not taken for dead: whatever else runs, its lease is in no
      detection within a window of that heartbeat and before its expiry. */
  lemma {:induction false} LiveWorkerNotDetected(s: Store, l: LeaseId, completing: bool, graceSeconds: Option<int>,
                                                 since: int, events: seq<Event>, table: seq<Row>,
                                                 policy: StalenessPolicy, now: int, row: Row)
    requires Apply(s, ReceiveHeartbeat(l, completing, graceSeconds, since)).Commit? && BeatsFrom(events, l, since)
    requires var s' := After(Next(s, ReceiveHeartbeat(l, completing, graceSeconds, since)), events);
             TableOf(s'.leases, table) && row in table && row.leaseId == l
    requires now <= since + 1000 * (policy.intervalSeconds * policy.missedThreshold + policy.graceSeconds)
    requires now < row.lease.expiresAt * 1000 + 1000
    ensures row !in DetectStaleLeases(table, policy, now)
  {
    var beaten := Next(s, ReceiveHeartbeat(l, completing, graceSeconds, since));
    HeartbeatWrites(s, l, completing, graceSeconds, since);
    SeenSince(beaten, events, l, since);
    DetectedIff(table, policy, now, row);
    assert since / 1000 * 1000 + 1000 > since;
  }

  /** The rows of the lease table, in any order. */
  ghost predicate TableOf(leases: map<LeaseId, Lease>, table: seq<Row>) {
    PrimaryKey(table) && forall row :: row in table <==> row.leaseId in leases && leases[row.leaseId] == row.lease
  }

  method ReadLeases(leases: map<LeaseId, Lease>) returns (table: seq<Row>)
    ensures TableOf(leases, table)
  {
    table := [];
    var rest := leases.Keys;
    while rest != {}
      invariant rest <= leases.Keys && PrimaryKey(table)
      invariant forall row :: row in table ==> row.leaseId !in rest
      invariant forall row :: row in table <==>
          row.leaseId in leases && row.leaseId !in rest && leases[row.leaseId] == row.lease
    {
      var l :| l in rest;
      rest := rest - {l};
      table := table + [Row(l, leases[l])];
    }
  }

  /** Of the leases the detector hands to the reclaim service, exactly those not still LEASED can
      be reclaimed: an expired LEASED lease is detected but refused. */
  lemma DetectedIsReclaimableIff(s: Store, table: seq<Row>, staleness: StalenessPolicy, now: int, row: Row,
                                 policy: RetryPolicy, onTimeout: Option<EscalationAction>, summary: bool)
    requires LeasesNamed(s) && TableOf(s.leases, table) && row in DetectStaleLeases(table, staleness, now)
    ensures Reclaim(s, row.leaseId, Classify(row, now), policy, onTimeout, summary).Commit? <==>
        row.lease.status != Leased
  {
    StaleQueryExact(table, HeartbeatDeadline(staleness, now), now, row);
    ReclaimCommitsIff(s, row.leaseId, Classify(row, now), policy, onTimeout, summary);
  }

  // ----- A lease whose worker never starts -----

  /** A request to move the lease to STARTING that the state machine would grant a LEASED one. */
  predicate Starts(e: Event, l: LeaseId) {
    e.TransitionLease? && e.leaseId == l && e.leaseTarget == Starting && WorkerProcessSpawned in e.leaseContext
  }

  predicate StartsIn(events: seq<Event>, l: LeaseId) {
    exists i :: 0 <= i < |events| && Starts(events[i], l)
  }

  lemma StartsInSnoc(events: seq<Event>, l: LeaseId)
    requires events != []
    ensures StartsIn(events, l) <==> StartsIn(Init(events), l) || Starts(Last(events), l)
  {
    assert forall i :: 0 <= i < |events| - 1 ==> Init(events)[i] == events[i];
    if StartsIn(Init(events), l) {
      var i :| 0 <= i < |Init(events)| && Starts(Init(events)[i], l);
      assert Starts(events[i], l);
    }
    assert Starts(Last(events), l) ==> Starts(events[|events| - 1], l);
  }

  lemma UnstartedStep(s: Store, e: Event, l: LeaseId)
    requires l in s.leases && s.leases[l].status == Leased
    ensures l in Next(s, e).leases
    ensures !Starts(e, l) ==> Next(s, e).leases[l] == s.leases[l]
    ensures Starts(e, l) ==> Next(s, e).leases[l].status == Starting
  {
  }

  /** A LEASED row is as it was after a run exactly when the run holds no granted move to STARTING;
      refused moves, heartbeats, reclaims and all else leave it alone. */
  lemma {:induction false} UnstartedLeaseStuckIff(s: Store, events: seq<Event>, l: LeaseId)
    requires l in s.leases && s.leases[l].status == Leased
    ensures l in After(s, events).leases
    ensures After(s, events).leases[l] == s.leases[l] <==> !StartsIn(events, l)
    ensures After(s, events).leases[l].status == Leased <==> !StartsIn(events, l)
  {
    if events != [] {
      var before := After(s, Init(events));
      UnstartedLeaseStuckIff(s, Init(events), l);
      StartsInSnoc(events, l);
      if before.leases[l].status == Leased {
        UnstartedStep(before, Last(events), l);
      } else {
        LeasesMoveForward(s, Init(events), l);
        StepMovesForward(before, Last(events), l);
      }
    }
  }

  /** While it is stuck no reclaim of it and no new lease on its task commits. */
  lemma StuckLeaseBlocks(s: Store, events: seq<Event>, l: LeaseId, e: Event)
    requires l in s.leases && s.leases[l].status == Leased && !StartsIn(events, l)
    requires (e.ReclaimLease? && e.leaseId == l) || (e.AcquireLease? && e.taskId == s.leases[l].taskId)
    ensures Apply(After(s, events), e).Rollback?
  {
    UnstartedLeaseStuckIff(s, events, l);
    assert HasActiveLease(After(s, events), s.leases[l].taskId);
  }

  /** Such a lease arises: once leased and past its minute, it is detected, refused and never replaced,
      however long the run goes on without a granted move to STARTING. */
  lemma StuckLeaseArises(t: TaskId, l: LeaseId, events: seq<Event>, table: seq<Row>, staleness: StalenessPolicy,
                         now: int, e: Event)
    requires !StartsIn(events, l) && now >= 61_000
    requires TableOf(After(After(EMPTY, LeasedRun(t, l)), events).leases, table)
    requires (e.ReclaimLease? && e.leaseId == l) || (e.AcquireLease? && e.taskId == t)
    ensures var s := After(After(EMPTY, LeasedRun(t, l)), events);
            && l in s.leases && s.leases[l].status == Leased
            && Row(l, s.leases[l]) in DetectStaleLeases(table, staleness, now)
            && Apply(s, e).Rollback?
  {
    LeaseIsLeasedAndStarted(t, l);
    var first := After(EMPTY, LeasedRun(t, l));
    UnstartedLeaseStuckIff(first, events, l);
    StuckLeaseBlocks(first, events, l, e);
    StaleQueryExact(table, HeartbeatDeadline(staleness, now), now, Row(l, NewLease(t, 0, 60)));
  }
}
