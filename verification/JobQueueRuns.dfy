/** What holds over every run of the job queue: claims follow a topological order
    of the dependency graph, cyclic jobs are never claimed, and an acyclic queue drains. */
module JobQueueRuns {

  import opened Wrappers
  import opened Collections
  import opened JobQueue
  import G = Graphs

  /** One committed or rejected call on the queue. */
  datatype Event =
    | Create(id: JobId, jobType: string, runAfter: Option<int>, dependsOn: Json, createdAt: int)
    | Claim(jobType: string, owner: string, now: int, granted: Option<JobId>)
    | Start(id: JobId)
    | Complete(id: JobId)
    | Fail(id: JobId)

  function OrElse(r: Result<Jobs, Error>, jobs: Jobs): Jobs {
    if r.Ok? then r.value else jobs
  }

  ghost predicate Step(s: Jobs, e: Event, s': Jobs) {
    match e
    case Create(id, jobType, runAfter, deps, createdAt) =>
      s' == if id in s then s else s[id := NewRow(jobType, runAfter, deps, createdAt)]
    case Claim(jobType, owner, now, granted) => ClaimsOldest(s, s', jobType, owner, now, granted)
    case Start(id) => s' == OrElse(Advance(s, id, RUNNABLE, Running), s)
    case Complete(id) => s' == OrElse(Advance(s, id, FINISHABLE, Completed), s)
    case Fail(id) => s' == OrElse(Advance(s, id, FINISHABLE, Failed), s)
  }

  /** The events lead from one state of the table to another. */
  ghost predicate Steps(start: Jobs, events: seq<Event>, end: Jobs) {
    if events == [] then end == start
    else exists mid :: Steps(start, Init(events), mid) && Step(mid, Last(events), end)
  }

  function Granted(e: Event): seq<JobId> {
    if e.Claim? && e.granted.Some? then [e.granted.value] else []
  }

  /** The ids in the order in which claims granted them. */
  function ClaimOrder(events: seq<Event>): (r: seq<JobId>) {
    if events == [] then []
    else
      ClaimOrder(Init(events)) + Granted(Last(events))
  }

  predicate Started(s: Jobs, id: JobId) {
    id in s && s[id].status in {Claimed, Running, Completed, Failed}
  }

  /** The dependencies of the k-th granted job were granted earlier and are finished. */
  ghost predicate DependenciesBefore(s: Jobs, order: seq<JobId>, k: nat)
    requires k < |order|
  {
    forall d :: d in Dependencies(s, order[k]) ==> d in order[..k] && Settled(s, d)
  }

  ghost predicate TopologicalOrder(s: Jobs, order: seq<JobId>) {
    && Distinct(order)
    && (forall id :: id in order <==> Started(s, id))
    && (forall k: nat :: k < |order| ==> DependenciesBefore(s, order, k))
  }

  ghost predicate NoneCancelled(s: Jobs) {
    forall id :: id in s ==> s[id].status != Cancelled
  }

  lemma StepKeepsRows(s: Jobs, e: Event, s': Jobs, id: JobId)
    requires Step(s, e, s') && id in s
    ensures id in s' && Dependencies(s', id) == Dependencies(s, id)
    ensures Settled(s, id) ==> s'[id] == s[id]
    ensures Started(s, id) ==> Started(s', id)
  {
  }

  /** Outside a grant, a step neither starts a job nor un-starts one. */
  lemma StepStarts(s: Jobs, e: Event, s': Jobs, id: JobId)
    requires Step(s, e, s') && NoneCancelled(s)
    ensures NoneCancelled(s')
    ensures Started(s', id) <==> Started(s, id) || (e.Claim? && e.granted == Some(id))
  {
  }

  lemma StepKeepsOrder(s: Jobs, e: Event, s': Jobs, order: seq<JobId>)
    requires Step(s, e, s') && TopologicalOrder(s, order) && NoneCancelled(s)
    ensures NoneCancelled(s')
    ensures TopologicalOrder(s', order + Granted(e))
  {
    var next := order + Granted(e);
    StepStarts(s, e, s', "");
    if e.Claim? && e.granted.Some? {
      assert !Started(s, e.granted.value);
    }
    forall id
      ensures id in next <==> Started(s', id)
    {
      StepStarts(s, e, s', id);
    }
    forall k: nat | k < |next|
      ensures DependenciesBefore(s', next, k)
    {
      if k < |order| {
        assert DependenciesBefore(s, order, k);
        assert Started(s, order[k]);
        assert next[..k] == order[..k];
      }
      assert next[k] in s;
      StepKeepsRows(s, e, s', next[k]);
      forall d | d in Dependencies(s', next[k])
        ensures d in next[..k] && Settled(s', d)
      {
        assert Settled(s, d);
        StepKeepsRows(s, e, s', d);
        if k == |order| { assert next[..k] == order; }
      }
    }
  }

  /** In every run the grants form a topological order of the started jobs: each job is
      granted once, after all its dependencies were granted and finished. */
  lemma {:induction false} ClaimsFollowTopologicalOrder(events: seq<Event>, s: Jobs)
    requires Steps(map[], events, s)
    ensures TopologicalOrder(s, ClaimOrder(events)) && NoneCancelled(s)
  {
    if events != [] {
      var init, last := Init(events), Last(events);
      var mid :| Steps(map[], init, mid) && Step(mid, last, s);
      ClaimsFollowTopologicalOrder(init, mid);
      StepKeepsOrder(mid, last, s, ClaimOrder(init));
    }
  }

  /** Safety over runs: a claimed, running or finished job has every dependency present and finished. */
  lemma StartedJobsHaveSettledDependencies(events: seq<Event>, s: Jobs, id: JobId)
    requires Steps(map[], events, s)
    requires id in s && s[id].status in {Claimed, Running, Completed, Failed}
    ensures DependenciesMet(s, id)
    ensures forall d :: Lists(s[id].dependsOnJobIds, d) ==> d in s && s[d].status in {Completed, Failed}
  {
    ClaimsFollowTopologicalOrder(events, s);
    var order := ClaimOrder(events);
    assert id in order;
    var k: nat :| k < |order| && order[k] == id;
    assert DependenciesBefore(s, order, k);
    ListedAreFinishedIff(s, id);
  }

  /** Over every run a job has been attempted exactly once if it was ever granted, and then it keeps the
      owner that claimed it; a pending job has neither. */
  lemma {:induction false} AttemptedOnce(events: seq<Event>, s: Jobs, id: JobId)
    requires Steps(map[], events, s) && id in s
    ensures s[id].attemptCount == (if s[id].status == Pending then 0 else 1)
    ensures s[id].leaseOwner == None <==> s[id].status == Pending
    ensures s[id].leaseOwner.Some? ==> ClaimedBy(events, id, s[id].leaseOwner.value)
  {
    if events != [] {
      var init, e := Init(events), Last(events);
      var mid: Jobs :| Steps(map[], init, mid) && Step(mid, e, s);
      if id in mid {
        AttemptedOnce(init, mid, id);
        ClaimsFollowTopologicalOrder(init, mid);
        if mid[id].leaseOwner.Some? {
          ClaimedByMore(events, id, mid[id].leaseOwner.value);
        }
      }
      AttemptStep(mid, e, s, id);
      if e.Claim? && e.granted == Some(id) {
        assert IsClaimOf(events[|events| - 1], id, e.owner);
      }
    }
  }

  lemma ClaimedByMore(events: seq<Event>, id: JobId, owner: string)
    requires events != [] && ClaimedBy(Init(events), id, owner)
    ensures ClaimedBy(events, id, owner)
  {
    var k: nat :| k < |Init(events)| && IsClaimOf(Init(events)[k], id, owner);
    assert IsClaimOf(events[k], id, owner);
  }

  /** A job's attempts and owner are written when it is granted, and at no other time. */
  lemma AttemptStep(s: Jobs, e: Event, s': Jobs, id: JobId)
    requires Step(s, e, s') && id in s' && (id in s ==> s[id].status != Cancelled)
    ensures id !in s ==> s'[id].status == Pending && s'[id].attemptCount == 0 && s'[id].leaseOwner == None
    ensures id in s && e.Claim? && e.granted == Some(id) ==>
              s[id].status == Pending && s'[id].status == Claimed
              && s'[id].attemptCount == s[id].attemptCount + 1 && s'[id].leaseOwner == Some(e.owner)
    ensures id in s && !(e.Claim? && e.granted == Some(id)) ==>
              s'[id].attemptCount == s[id].attemptCount && s'[id].leaseOwner == s[id].leaseOwner
              && (s'[id].status == Pending <==> s[id].status == Pending)
  {
  }

  predicate IsClaimOf(e: Event, id: JobId, owner: string) {
    e.Claim? && e.granted == Some(id) && e.owner == owner
  }

  predicate ClaimedBy(events: seq<Event>, id: JobId, owner: string) {
    exists k: nat :: k < |events| && IsClaimOf(events[k], id, owner)
  }

  /** A finished job's row never changes again, whatever follows. */
  lemma {:induction false} FinishedForever(start: Jobs, events: seq<Event>, s: Jobs, id: JobId)
    requires Steps(start, events, s) && Settled(start, id)
    ensures id in s && s[id] == start[id]
  {
    if events != [] {
      var mid :| Steps(start, Init(events), mid) && Step(mid, Last(events), s);
      FinishedForever(start, Init(events), mid, id);
      StepKeepsRows(mid, Last(events), s, id);
    }
  }

  ghost function DependencyEdges(s: Jobs): set<(JobId, JobId)> {
    set id, d | id in s && d in Dependencies(s, id) :: (id, d)
  }

  /** Along a dependency walk from a started job, positions in the claim order strictly fall. */
  lemma {:induction false} PositionsFall(s: Jobs, order: seq<JobId>, walk: seq<JobId>, i: nat, j: nat, a: nat)
    returns (b: nat)
    requires TopologicalOrder(s, order) && G.Walk(DependencyEdges(s), walk)
    requires i <= j < |walk| && a < |order| && order[a] == walk[i]
    ensures b < |order| && order[b] == walk[j] && b + (j - i) <= a
    decreases j - i
  {
    if i == j {
      b := a;
    } else {
      assert DependenciesBefore(s, order, a);
      assert G.StepAt(DependencyEdges(s), walk, i);
      assert walk[i + 1] in order[..a];
      var c: nat :| c < a && order[c] == walk[i + 1];
      b := PositionsFall(s, order, walk, i + 1, j, c);
    }
  }

  lemma CyclicJobsNotStarted(s: Jobs, order: seq<JobId>, cycle: seq<JobId>, k: nat)
    requires TopologicalOrder(s, order) && G.Cycle(DependencyEdges(s), cycle) && k < |cycle|
    ensures cycle[k] !in order
  {
    if cycle[k] in order {
      var last := |cycle| - 1;
      var a: nat :| a < |order| && order[a] == cycle[k];
      var b := PositionsFall(s, order, cycle, k, last, a);
      var c := PositionsFall(s, order, cycle, 0, last, b);
    }
  }

  lemma CyclicJobsStored(s: Jobs, cycle: seq<JobId>, k: nat)
    requires G.Cycle(DependencyEdges(s), cycle) && k < |cycle|
    ensures cycle[k] in s
  {
    assert G.StepAt(DependencyEdges(s), cycle, if k + 1 < |cycle| then k else 0);
  }

  /** No job on a dependency cycle is ever claimed, in any run. */
  lemma CyclicJobsNeverClaimed(events: seq<Event>, s: Jobs, cycle: seq<JobId>, k: nat)
    requires Steps(map[], events, s)
    requires G.Cycle(DependencyEdges(s), cycle) && k < |cycle|
    ensures cycle[k] in s && s[cycle[k]].status == Pending
  {
    ClaimsFollowTopologicalOrder(events, s);
    var order := ClaimOrder(events);
    CyclicJobsStored(s, cycle, k);
    CyclicJobsNotStarted(s, order, cycle, k);
  }

  // ----- Progress -----

  /** Nothing is in flight, every delay has passed, and every dependency is present and not cancelled. */
  ghost predicate Quiescent(s: Jobs, now: int) {
    forall id :: id in s ==>
      s[id].status != Claimed && s[id].status != Running && Due(s, id, now) && DependenciesAlive(s, id)
  }

  predicate DependenciesAlive(s: Jobs, id: JobId) {
    forall d :: d in Dependencies(s, id) ==> d in s && s[d].status != Cancelled
  }

  ghost function PendingJobs(s: Jobs): set<JobId> {
    set id | id in s && s[id].status == Pending
  }

  ghost predicate WaitsOnPending(s: Jobs, id: JobId) {
    exists d :: d in Dependencies(s, id) && d in PendingJobs(s)
  }

  /** In a quiescent queue a pending job is claimable exactly when it waits on no pending job. */
  lemma ClaimableIffNotWaiting(s: Jobs, now: int, id: JobId)
    requires Quiescent(s, now) && id in PendingJobs(s)
    ensures Eligible(s, id, s[id].jobType, now) <==> !WaitsOnPending(s, id)
  {
    if !WaitsOnPending(s, id) {
      forall d | d in Dependencies(s, id)
        ensures Settled(s, d)
      {
        assert d !in PendingJobs(s);
      }
    } else {
      var d :| d in Dependencies(s, id) && d in PendingJobs(s);
      assert !Settled(s, d);
    }
  }

  /** A quiescent queue with pending work is stuck only if pending jobs form a dependency cycle. */
  lemma StuckOnlyByCycle(s: Jobs, now: int)
    requires Quiescent(s, now) && PendingJobs(s) != {}
    requires forall id, jobType :: !Eligible(s, id, jobType, now)
    ensures exists c :: G.Cycle(DependencyEdges(s), c) && forall id :: id in c ==> id in PendingJobs(s)
  {
    var nodes, edges := PendingJobs(s), DependencyEdges(s);
    forall id | id in nodes
      ensures G.HasSuccessorIn(edges, nodes, id)
    {
      ClaimableIffNotWaiting(s, now, id);
      assert !Eligible(s, id, s[id].jobType, now);
      var d :| d in Dependencies(s, id) && d in nodes;
      assert (id, d) in edges;
    }
    G.NoSinkMeansCycle(edges, nodes);
  }

  ghost predicate Drainable(s: Jobs, now: int) {
    Quiescent(s, now) && G.Acyclic(DependencyEdges(s))
  }

  lemma SomeJobEligible(s: Jobs, now: int) returns (id: JobId)
    requires Drainable(s, now) && PendingJobs(s) != {}
    ensures id in PendingJobs(s) && Eligible(s, id, s[id].jobType, now)
  {
    if forall id, jobType :: !Eligible(s, id, jobType, now) {
      StuckOnlyByCycle(s, now);
    }
    var i, t :| Eligible(s, i, t, now);
    id := i;
  }

  ghost predicate CanClaim(s: Jobs, jobType: string, owner: string, now: int) {
    exists id, s' :: Step(s, Claim(jobType, owner, now, Some(id)), s')
  }

  /** A claim of a type grants a job exactly when some job of the type is eligible. */
  lemma ClaimGrantsIff(s: Jobs, jobType: string, owner: string, now: int, granted: Option<JobId>, s': Jobs)
    requires Step(s, Claim(jobType, owner, now, granted), s')
    ensures granted.Some? <==> exists id :: Eligible(s, id, jobType, now)
  {
  }

  lemma ClaimOfEligible(s: Jobs, some: JobId, jobType: string, owner: string, now: int) returns (id: JobId, s': Jobs)
    requires Eligible(s, some, jobType, now)
    ensures Step(s, Claim(jobType, owner, now, Some(id)), s')
  {
    var pool := set i | i in s && Eligible(s, i, jobType, now);
    assert some in pool;
    id := OldestOf(s, pool);
    assert forall i :: Eligible(s, i, jobType, now) ==> i in pool;
    s' := s[id := ClaimedRow(s[id], owner)];
  }

  /** Progress: with an acyclic graph and pending work there is a job type whose next claim grants a
      job, whoever makes it and whichever job the table order favours. */
  lemma SomeClaimSucceeds(s: Jobs, now: int) returns (jobType: string)
    requires Drainable(s, now) && PendingJobs(s) != {}
    ensures forall owner, granted, s' :: Step(s, Claim(jobType, owner, now, granted), s') ==> granted.Some?
    ensures forall owner :: CanClaim(s, jobType, owner, now)
  {
    var some := SomeJobEligible(s, now);
    jobType := s[some].jobType;
    forall owner, granted, s' | Step(s, Claim(jobType, owner, now, granted), s')
      ensures granted.Some?
    {
      ClaimGrantsIff(s, jobType, owner, now, granted, s');
    }
    forall owner
      ensures CanClaim(s, jobType, owner, now)
    {
      var id, s' := ClaimOfEligible(s, some, jobType, owner, now);
    }
  }

  /** One round claims a job and finishes it, either way. */
  ghost predicate Round(s: Jobs, mid: Jobs, s': Jobs, id: JobId, jobType: string, owner: string, now: int, ok: bool) {
    && Step(s, Claim(jobType, owner, now, Some(id)), mid)
    && Step(mid, if ok then Complete(id) else Fail(id), s')
  }

  lemma RoundRow(s: Jobs, mid: Jobs, s': Jobs, id: JobId, jobType: string, owner: string, now: int, ok: bool)
    requires Round(s, mid, s', id, jobType, owner, now, ok)
    ensures id in s && s[id].status == Pending
    ensures s' == s[id := ClaimedRow(s[id], owner).(status := if ok then Completed else Failed)]
  {
  }

  /** Every round, however chosen, keeps the queue drainable and leaves one pending job fewer. */
  lemma RoundMakesProgress(s: Jobs, mid: Jobs, s': Jobs, id: JobId, jobType: string, owner: string, now: int, ok: bool)
    requires Drainable(s, now) && Round(s, mid, s', id, jobType, owner, now, ok)
    ensures Drainable(s', now)
    ensures PendingJobs(s') == PendingJobs(s) - {id} && id in PendingJobs(s)
  {
    RoundRow(s, mid, s', id, jobType, owner, now, ok);
    FinishingOneKeepsDrainable(s, s', id, now);
  }

  lemma SameDependencies(s: Jobs, s': Jobs, id: JobId)
    requires id in s && id in s' && s' == s[id := s'[id]] && s'[id].dependsOnJobIds == s[id].dependsOnJobIds
    ensures forall i :: Dependencies(s', i) == Dependencies(s, i)
    ensures DependencyEdges(s') == DependencyEdges(s)
  {
    assert forall i :: Dependencies(s', i) == Dependencies(s, i);
  }

  lemma FinishingOneKeepsDrainable(s: Jobs, s': Jobs, id: JobId, now: int)
    requires Drainable(s, now) && id in s && id in s' && s[id].status == Pending && Terminal(s'[id].status)
    requires s' == s[id := s'[id]]
    requires s'[id].runAfter == s[id].runAfter && s'[id].dependsOnJobIds == s[id].dependsOnJobIds
    ensures Drainable(s', now) && PendingJobs(s') == PendingJobs(s) - {id}
  {
    SameDependencies(s, s', id);
    forall i | i in s'
      ensures s'[i].status != Claimed && s'[i].status != Running && Due(s', i, now) && DependenciesAlive(s', i)
    {
      assert Dependencies(s', i) == Dependencies(s, i) && DependenciesAlive(s, i);
    }
  }

  /** A job of least creation time in a set: what the next claim grants. */
  lemma {:induction false} OldestOf(s: Jobs, pool: set<JobId>) returns (id: JobId)
    requires pool != {} && forall i :: i in pool ==> i in s
    ensures id in pool && forall i :: i in pool ==> s[id].createdAt <= s[i].createdAt
  {
    id :| id in pool;
    if pool != {id} {
      var rest := pool - {id};
      assert pool == rest + {id};
      var best := OldestOf(s, rest);
      if s[best].createdAt < s[id].createdAt { id := best; }
    }
  }

  /** Claim-and-finish drains the queue: exactly one round per pending job, and then none is left. */
  lemma {:induction false} QueueDrains(s: Jobs, owner: string, now: int) returns (events: seq<Event>, s': Jobs)
    requires Drainable(s, now)
    ensures Steps(s, events, s') && |events| == 2 * |PendingJobs(s)|
    ensures PendingJobs(s') == {} && Drainable(s', now)
    decreases |PendingJobs(s)|
  {
    if PendingJobs(s) == {} {
      events, s' := [], s;
    } else {
      var some := SomeJobEligible(s, now);
      var jobType := s[some].jobType;
      var id, mid := ClaimOfEligible(s, some, jobType, owner, now);
      var claim := Claim(jobType, owner, now, Some(id));
      var done := mid[id := mid[id].(status := Completed)];
      assert Step(mid, Complete(id), done);
      RoundMakesProgress(s, mid, done, id, jobType, owner, now, true);
      var rest;
      rest, s' := QueueDrains(done, owner, now);
      SingleStep(s, claim, mid);
      SingleStep(mid, Complete(id), done);
      StepsCompose(s, [claim], mid, [Complete(id)], done);
      StepsCompose(s, [claim] + [Complete(id)], done, rest, s');
      events := [claim] + [Complete(id)] + rest;
    }
  }

  /** A round as it is chosen: any type, owner, time and ending that the queue allows. */
  datatype RoundChoice = RoundChoice(id: JobId, jobType: string, owner: string, now: int, ok: bool)

  ghost predicate TakesRound(s: Jobs, c: RoundChoice, s': Jobs) {
    exists mid :: Round(s, mid, s', c.id, c.jobType, c.owner, c.now, c.ok)
  }

  /** Any sequence of rounds, none before `now`. */
  ghost predicate Rounds(s: Jobs, choices: seq<RoundChoice>, s': Jobs, now: int) {
    if choices == [] then s' == s
    else exists mid ::
        Rounds(s, Init(choices), mid, now) && TakesRound(mid, Last(choices), s') && Last(choices).now >= now
  }

  lemma RoundKeepsDrainable(s: Jobs, c: RoundChoice, s': Jobs, now: int)
    requires Drainable(s, now) && now <= c.now && TakesRound(s, c, s')
    ensures Drainable(s', now) && PendingJobs(s') == PendingJobs(s) - {c.id} && c.id in PendingJobs(s)
  {
    var mid :| Round(s, mid, s', c.id, c.jobType, c.owner, c.now, c.ok);
    RoundRow(s, mid, s', c.id, c.jobType, c.owner, c.now, c.ok);
    FinishingOneKeepsDrainable(s, s', c.id, now);
  }

  /** However its rounds are chosen, a drainable queue loses one pending job per round: n rounds leave
      n fewer, so no sequence of rounds is longer than the pending jobs are many. */
  lemma {:induction false} EveryRoundSequenceDrains(s: Jobs, choices: seq<RoundChoice>, s': Jobs, now: int)
    requires Drainable(s, now) && Rounds(s, choices, s', now)
    ensures Drainable(s', now) && |PendingJobs(s')| == |PendingJobs(s)| - |choices|
  {
    if choices != [] {
      var mid :| Rounds(s, Init(choices), mid, now) && TakesRound(mid, Last(choices), s') && Last(choices).now >= now;
      EveryRoundSequenceDrains(s, Init(choices), mid, now);
      RoundKeepsDrainable(mid, Last(choices), s', now);
    }
  }

  /** And until none is pending a further round exists. */
  lemma RoundAvailable(s: Jobs, owner: string, now: int, ok: bool) returns (c: RoundChoice, s': Jobs)
    requires Drainable(s, now) && PendingJobs(s) != {}
    ensures TakesRound(s, c, s') && c.now == now && c.owner == owner && c.ok == ok
  {
    var some := SomeJobEligible(s, now);
    var jobType := s[some].jobType;
    var id, mid := ClaimOfEligible(s, some, jobType, owner, now);
    c := RoundChoice(id, jobType, owner, now, ok);
    s' := mid[id := mid[id].(status := if ok then Completed else Failed)];
    assert Round(s, mid, s', id, jobType, owner, now, ok);
  }

  // ----- Progress with any number of workers -----

  /** Nothing but unfinished work in the way: an acyclic graph, every dependency present and not
      cancelled, every delay passed. Jobs may be in flight. */
  ghost predicate Live(s: Jobs, now: int) {
    G.Acyclic(DependencyEdges(s)) && forall id :: id in s ==> Due(s, id, now) && DependenciesAlive(s, id)
  }

  ghost function WithStatus(s: Jobs, status: JobStatus): set<JobId> {
    set id | id in s && s[id].status == status
  }

  ghost predicate Unfinished(s: Jobs) {
    exists id :: id in s && s[id].status in {Pending, Claimed, Running}
  }

  /** What is left to do: a pending job still takes three moves, a claimed one two, a running one one. */
  ghost function WorkLeft(s: Jobs): nat {
    3 * |WithStatus(s, Pending)| + 2 * |WithStatus(s, Claimed)| + |WithStatus(s, Running)|
  }

  /** A step of the workers that changes the table. */
  ghost predicate Moves(s: Jobs, e: Event, s': Jobs) {
    Step(s, e, s') && !e.Create? && s' != s
  }

  /** The one row a move rewrites, and how. */
  lemma MovedRow(s: Jobs, e: Event, s': Jobs) returns (id: JobId)
    requires Moves(s, e, s')
    ensures id in s && id in s' && s' == s[id := s'[id]]
    ensures s'[id].dependsOnJobIds == s[id].dependsOnJobIds && s'[id].runAfter == s[id].runAfter
    ensures (s[id].status == Pending && s'[id].status == Claimed)
            || (s[id].status == Claimed && s'[id].status in {Running, Completed, Failed})
            || (s[id].status == Running && s'[id].status in {Completed, Failed})
  {
    id := if e.Claim? then e.granted.value else e.id;
  }

  lemma SplitOff(ids: set<JobId>, id: JobId)
    ensures |ids| == |ids - {id}| + (if id in ids then 1 else 0)
  {
    assert ids == if id in ids then (ids - {id}) + {id} else ids - {id};
  }

  lemma OthersKeepStatus(s: Jobs, s': Jobs, id: JobId, status: JobStatus)
    requires id in s && id in s' && s' == s[id := s'[id]]
    ensures WithStatus(s', status) - {id} == WithStatus(s, status) - {id}
  {
    forall i | i != id
      ensures i in WithStatus(s', status) <==> i in WithStatus(s, status)
    {
      assert i in s' <==> i in s;
      assert i in s ==> s'[i] == s[i];
    }
  }

  lemma StatusSets(s: Jobs, s': Jobs, id: JobId, status: JobStatus)
    requires id in s && id in s' && s' == s[id := s'[id]]
    ensures |WithStatus(s', status)| + (if s[id].status == status then 1 else 0)
            == |WithStatus(s, status)| + (if s'[id].status == status then 1 else 0)
  {
    OthersKeepStatus(s, s', id, status);
    SplitOff(WithStatus(s, status), id);
    SplitOff(WithStatus(s', status), id);
  }

  /** Every move works something off, whichever worker makes it, and keeps the queue live. */
  lemma MoveWorksOff(s: Jobs, e: Event, s': Jobs, now: int)
    requires Live(s, now) && Moves(s, e, s')
    ensures Live(s', now) && WorkLeft(s') < WorkLeft(s)
  {
    var id := MovedRow(s, e, s');
    StatusSets(s, s', id, Pending);
    StatusSets(s, s', id, Claimed);
    StatusSets(s, s', id, Running);
    SameDependencies(s, s', id);
    forall i | i in s'
      ensures Due(s', i, now) && DependenciesAlive(s', i)
    {
      assert Dependencies(s', i) == Dependencies(s, i) && Due(s, i, now) && DependenciesAlive(s, i);
    }
  }

  /** And as long as a job is unfinished some move is possible: a job in flight can finish, and with none
      in flight a claim succeeds. */
  lemma MoveAvailable(s: Jobs, owner: string, now: int) returns (e: Event, s': Jobs)
    requires Live(s, now) && Unfinished(s)
    ensures Moves(s, e, s')
  {
    if id :| id in s && s[id].status in FINISHABLE {
      e, s' := Complete(id), s[id := s[id].(status := Completed)];
      assert s'[id] != s[id];
    } else {
      var some :| some in s && s[some].status in {Pending, Claimed, Running};
      assert some in PendingJobs(s);
      var eligible := SomeJobEligible(s, now);
      var id, after := ClaimOfEligible(s, eligible, s[eligible].jobType, owner, now);
      e, s' := Claim(s[eligible].jobType, owner, now, Some(id)), after;
      assert s'[id] != s[id];
    }
  }

  /** Any interleaving of moves by any workers. */
  ghost predicate MovesTo(s: Jobs, events: seq<Event>, s': Jobs) {
    if events == [] then s' == s
    else exists mid :: MovesTo(s, Init(events), mid) && Moves(mid, Last(events), s')
  }

  /** A live queue drains under every schedule: an interleaving of moves is never longer than the work
      there was, and one that cannot go on has finished every job. */
  lemma {:induction false} EveryScheduleDrains(s: Jobs, events: seq<Event>, s': Jobs, now: int)
    requires Live(s, now) && MovesTo(s, events, s')
    ensures Live(s', now) && |events| + WorkLeft(s') <= WorkLeft(s)
    ensures (forall e, t :: !Moves(s', e, t)) <==> !Unfinished(s')
  {
    if events != [] {
      var mid :| MovesTo(s, Init(events), mid) && Moves(mid, Last(events), s');
      EveryScheduleDrains(s, Init(events), mid, now);
      MoveWorksOff(mid, Last(events), s', now);
    }
    if Unfinished(s') {
      var e, t := MoveAvailable(s', "", now);
    } else if e, t :| Moves(s', e, t) {
      var id := MovedRow(s', e, t);
    }
  }

  lemma SingleStep(s: Jobs, e: Event, s': Jobs)
    requires Step(s, e, s')
    ensures Steps(s, [e], s')
  {
    assert Init([e]) == [];
    assert Steps(s, Init([e]), s) && Step(s, Last([e]), s');
  }

  lemma {:induction false} StepsCompose(s: Jobs, first: seq<Event>, mid: Jobs, second: seq<Event>, end: Jobs)
    requires Steps(s, first, mid) && Steps(mid, second, end)
    ensures Steps(s, first + second, end)
  {
    if second == [] {
      assert first + second == first;
    } else {
      var init, last := Init(second), Last(second);
      var prev :| Steps(mid, init, prev) && Step(prev, last, end);
      StepsCompose(s, first, mid, init, prev);
      var all := first + second;
      assert Init(all) == first + init && Last(all) == last;
    }
  }
}
