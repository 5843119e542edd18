/** The database-backed job queue: creation, the dependency-gated claim loop and
    the status updates, as transactions on the job table. */
module JobQueue {

  import opened Wrappers
  import opened Collections

  type JobId = string

  datatype JobStatus = Pending | Claimed | Running | Completed | Failed | Cancelled

  /** A JSON column as the driver decodes it. */
  datatype Json = JsonNull | JsonNumber(number: int) | JsonString(text: string) | JsonArray(items: seq<Json>)

  datatype Job = Job(
    jobType: string,
    status: JobStatus,
    attemptCount: nat,
    runAfter: Option<int>,
    leaseOwner: Option<string>,
    dependsOnJobIds: Json,
    createdAt: int)

  /** The job table, by primary key. */
  type Jobs = map<JobId, Job>

  datatype Error = DuplicateKey | NotFound | InvalidTransition

  /** The strings of a JSON array; anything else counts as no strings. */
  function ToStringArray(value: Json): (r: seq<string>) {
    match value
    case JsonArray(items) => Strings(items)
    case _ => []
  }

  function Strings(items: seq<Json>): (r: seq<string>) {
    if items == [] then []
    else (if items[0].JsonString? then [items[0].text] else []) + Strings(items[1..])
  }

  /** The column is a JSON array that holds the string. */
  predicate Lists(column: Json, x: string) {
    column.JsonArray? && JsonString(x) in column.items
  }

  /** The strings kept are exactly those the array holds. */
  lemma {:induction false} StringArrayMembers(value: Json, x: string)
    ensures x in ToStringArray(value) <==> Lists(value, x)
    decreases if value.JsonArray? then |value.items| else 0
  {
    if value.JsonArray? && value.items != [] {
      var items := value.items;
      assert items == [items[0]] + items[1..];
      StringArrayMembers(JsonArray(items[1..]), x);
    }
  }

  /** One item: a string is kept and anything else dropped; and what is not an array holds nothing. */
  lemma StringArrayOfOne(v: Json)
    ensures ToStringArray(JsonArray([v])) == if v.JsonString? then [v.text] else []
    ensures !v.JsonArray? ==> ToStringArray(v) == []
  {
    var items := [v];
    assert items[0] == v && items[1..] == [] && Strings(items[1..]) == [];
    assert ToStringArray(JsonArray(items)) == (if v.JsonString? then [v.text] else []) + [];
  }

  /** Order and multiplicity: conversion goes item by item. */
  lemma {:induction false} StringArrayItemwise(a: seq<Json>, b: seq<Json>)
    ensures ToStringArray(JsonArray(a + b)) == ToStringArray(JsonArray(a)) + ToStringArray(JsonArray(b))
  {
    if a == [] {
      assert a + b == b;
    } else {
      assert (a + b)[0] == a[0] && (a + b)[1..] == a[1..] + b;
      StringArrayItemwise(a[1..], b);
    }
  }

  /** An array of strings alone comes out as it is. */
  lemma {:induction false} StringArrayOfStrings(items: seq<Json>)
    requires forall k :: 0 <= k < |items| ==> items[k].JsonString?
    ensures |ToStringArray(JsonArray(items))| == |items|
    ensures forall k :: 0 <= k < |items| ==> ToStringArray(JsonArray(items))[k] == items[k].text
  {
    if items != [] {
      StringArrayOfStrings(items[1..]);
    }
  }

  function Dependencies(jobs: Jobs, id: JobId): (r: seq<JobId>) {
    if id in jobs then ToStringArray(jobs[id].dependsOnJobIds) else []
  }

  predicate Terminal(status: JobStatus) {
    status == Completed || status == Failed
  }

  predicate Settled(jobs: Jobs, id: JobId) {
    id in jobs && Terminal(jobs[id].status)
  }

  predicate DependenciesMet(jobs: Jobs, id: JobId) {
    forall d :: d in Dependencies(jobs, id) ==> Settled(jobs, d)
  }

  predicate Due(jobs: Jobs, id: JobId, now: int) {
    id in jobs && (jobs[id].runAfter.None? || jobs[id].runAfter.value <= now)
  }

  predicate HasType(jobs: Jobs, id: JobId, jobType: string) {
    id in jobs && jobs[id].jobType == jobType
  }

  /** The port's definition of an eligible job. */
  predicate Eligible(jobs: Jobs, id: JobId, jobType: string, now: int) {
    && id in jobs
    && jobs[id].status == Pending
    && HasType(jobs, id, jobType)
    && Due(jobs, id, now)
    && DependenciesMet(jobs, id)
  }

  /** The port's own words, on the stored columns: pending, of the type, not delayed, and every job the
      dependency column lists present and completed or failed. */
  lemma EligibleIff(jobs: Jobs, id: JobId, jobType: string, now: int)
    ensures Eligible(jobs, id, jobType, now) <==>
            && id in jobs && jobs[id].status == Pending && jobs[id].jobType == jobType
            && (jobs[id].runAfter == None || (jobs[id].runAfter.Some? && jobs[id].runAfter.value <= now))
            && ListedAreFinished(jobs, id)
  {
    ListedAreFinishedIff(jobs, id);
  }

  ghost predicate ListedAreFinished(jobs: Jobs, id: JobId)
    requires id in jobs
  {
    forall d :: Lists(jobs[id].dependsOnJobIds, d) ==> d in jobs && jobs[d].status in {Completed, Failed}
  }

  lemma ListedAreFinishedIff(jobs: Jobs, id: JobId)
    ensures id in jobs ==> (DependenciesMet(jobs, id) <==> ListedAreFinished(jobs, id))
  {
    if id in jobs {
      forall d
        ensures d in Dependencies(jobs, id) <==> Lists(jobs[id].dependsOnJobIds, d)
      {
        StringArrayMembers(jobs[id].dependsOnJobIds, d);
      }
    }
  }

  /** What a grant writes, column by column. */
  ghost predicate Grants(before: Jobs, after: Jobs, id: JobId, owner: string) {
    && id in before && after.Keys == before.Keys
    && (forall other :: other in before && other != id ==> after[other] == before[other])
    && after[id].status == Claimed && after[id].leaseOwner == Some(owner)
    && after[id].attemptCount == before[id].attemptCount + 1
    && after[id].jobType == before[id].jobType && after[id].runAfter == before[id].runAfter
    && after[id].dependsOnJobIds == before[id].dependsOnJobIds && after[id].createdAt == before[id].createdAt
  }

  function ClaimedRow(job: Job, owner: string): Job {
    job.(status := Claimed, leaseOwner := Some(owner), attemptCount := job.attemptCount + 1)
  }

  function NewRow(jobType: string, runAfter: Option<int>, dependsOn: Json, createdAt: int): Job {
    Job(jobType, Pending, 0, runAfter, None, dependsOn, createdAt)
  }

  function CreatedAt(jobs: Jobs, id: JobId): int {
    if id in jobs then jobs[id].createdAt else 0
  }

  /** What one claim may do, in the port's words: grant an eligible job of least
      creation time and change nothing else, or find that no job is eligible. */
  ghost predicate ClaimsOldest(before: Jobs, after: Jobs, jobType: string, owner: string, now: int,
                               granted: Option<JobId>) {
    match granted
    case None =>
      after == before && forall id :: !Eligible(before, id, jobType, now)
    case Some(id) =>
      && Eligible(before, id, jobType, now)
      && (forall other :: Eligible(before, other, jobType, now) ==> before[id].createdAt <= before[other].createdAt)
      && after == before[id := ClaimedRow(before[id], owner)]
  }

  /** A guarded status change: the transaction body of start, complete and fail. */
  function Advance(jobs: Jobs, id: JobId, from: set<JobStatus>, target: JobStatus): (r: Result<Jobs, Error>) {
    if id !in jobs then Err(NotFound)
    else if jobs[id].status !in from then Err(InvalidTransition)
    else Ok(jobs[id := jobs[id].(status := target)])
  }

  const RUNNABLE: set<JobStatus> := {Claimed}
  const FINISHABLE: set<JobStatus> := {Claimed, Running}

  /** Pending jobs of the type that are due, oldest first. */
  function Candidates(jobs: Jobs, pending: seq<JobId>, jobType: string, now: int): (r: seq<JobId>) {
    Sort(Filter(Filter(pending, id => HasType(jobs, id, jobType)), id => Due(jobs, id, now)),
         (a, b) => CreatedAt(jobs, a) <= CreatedAt(jobs, b))
  }

  ghost predicate OldestFirst(jobs: Jobs, ids: seq<JobId>) {
    forall i, j :: 0 <= i < j < |ids| ==> CreatedAt(jobs, ids[i]) <= CreatedAt(jobs, ids[j])
  }

  /** The candidates are oldest first, and the eligible jobs are those whose dependencies are met. */
  lemma CandidatesSorted(jobs: Jobs, pending: seq<JobId>, jobType: string, now: int)
    requires forall id :: id in pending <==> id in jobs && jobs[id].status == Pending
    ensures var c := Candidates(jobs, pending, jobType, now);
            && HoldsEligible(jobs, c, jobType, now)
            && AllPending(jobs, c)
  {
    var hasType := id => HasType(jobs, id, jobType);
    var isDue := id => Due(jobs, id, now);
    var older := (a, b) => CreatedAt(jobs, a) <= CreatedAt(jobs, b);
    FilterMembers(pending, hasType);
    FilterMembers(Filter(pending, hasType), isDue);
    var due := Filter(Filter(pending, hasType), isDue);
    SortSorted(due, older);
    MultisetMembers(Sort(due, older), due);
    var c := Candidates(jobs, pending, jobType, now);
    assert forall k :: 0 <= k < |c| ==> c[k] in due;
  }

  /** The candidates hold every eligible job, oldest first. */
  ghost predicate HoldsEligible(jobs: Jobs, c: seq<JobId>, jobType: string, now: int) {
    OldestFirst(jobs, c) && forall id :: Eligible(jobs, id, jobType, now) <==> id in c && DependenciesMet(jobs, id)
  }

  ghost predicate NoneMetBefore(jobs: Jobs, c: seq<JobId>, i: nat)
    requires i <= |c|
  {
    forall k :: 0 <= k < i ==> !DependenciesMet(jobs, c[k])
  }

  ghost predicate AllPending(jobs: Jobs, c: seq<JobId>) {
    forall k :: 0 <= k < |c| ==> c[k] in jobs && jobs[c[k]].status == Pending
  }

  lemma FirstMetIsOldest(jobs: Jobs, c: seq<JobId>, jobType: string, owner: string, now: int, i: nat)
    requires i < |c| && HoldsEligible(jobs, c, jobType, now)
    requires c[i] in jobs && DependenciesMet(jobs, c[i])
    requires NoneMetBefore(jobs, c, i)
    ensures var after := jobs[c[i] := ClaimedRow(jobs[c[i]], owner)];
            ClaimsOldest(jobs, after, jobType, owner, now, Some(c[i])) && Grants(jobs, after, c[i], owner)
    ensures ListedAreFinished(jobs, c[i])
  {
    ListedAreFinishedIff(jobs, c[i]);
    forall other | Eligible(jobs, other, jobType, now)
      ensures jobs[c[i]].createdAt <= jobs[other].createdAt
    {
      var k :| 0 <= k < |c| && c[k] == other;
    }
  }

  lemma NoneMetNoneEligible(jobs: Jobs, c: seq<JobId>, jobType: string, owner: string, now: int)
    requires HoldsEligible(jobs, c, jobType, now)
    requires NoneMetBefore(jobs, c, |c|)
    ensures ClaimsOldest(jobs, jobs, jobType, owner, now, None)
  {
  }

  class JobStore {

    var jobs: Jobs

    constructor ()
      ensures jobs == map[]
    {
      jobs := map[];
    }

    /** A query returns the matching rows in no particular order. */
    method FindByStatus(status: JobStatus) returns (ids: seq<JobId>)
      ensures Distinct(ids)
      ensures forall id :: id in ids <==> id in jobs && jobs[id].status == status
    {
      var rest := set id | id in jobs && jobs[id].status == status;
      ids := [];
      while rest != {}
        invariant Distinct(ids)
        invariant forall id :: id in ids ==> id !in rest
        invariant forall id :: id in ids || id in rest <==> id in jobs && jobs[id].status == status
      {
        var id :| id in rest;
        ids := ids + [id];
        rest := rest - {id};
      }
    }

    method Create(id: JobId, jobType: string, runAfter: Option<int>, dependsOn: Json, createdAt: int)
      returns (r: Result<Job, Error>)
      modifies this
      ensures r.Err? <==> id in old(jobs)
      ensures r.Err? ==> jobs == old(jobs)
      ensures r.Ok? ==> jobs == old(jobs)[id := r.value] && r.value.status == Pending && r.value.attemptCount == 0
                        && r.value.leaseOwner == None && r.value.jobType == jobType && r.value.runAfter == runAfter
                        && r.value.dependsOnJobIds == dependsOn && r.value.createdAt == createdAt
      ensures r.Ok? ==> r.value == NewRow(jobType, runAfter, dependsOn, createdAt)
    {
      if id in jobs {
        return Err(DuplicateKey);
      }
      jobs := jobs[id := NewRow(jobType, runAfter, dependsOn, createdAt)];
      r := Ok(jobs[id]);
    }

    /** The conditional update that reserves one job. */
    method ClaimJob(id: JobId, owner: string) returns (claimed: Option<Job>)
      modifies this
      ensures claimed.Some? <==> id in old(jobs) && old(jobs)[id].status == Pending
      ensures claimed.None? ==> jobs == old(jobs)
      ensures claimed.Some? ==> jobs == old(jobs)[id := ClaimedRow(old(jobs)[id], owner)] && claimed.value == jobs[id]
    {
      if id !in jobs || jobs[id].status != Pending {
        return None;
      }
      jobs := jobs[id := ClaimedRow(jobs[id], owner)];
      claimed := Some(jobs[id]);
    }

    /** Filter, sort and loop: the first candidate whose dependencies are met is claimed. */
    method ClaimNextByType(jobType: string, owner: string, now: int) returns (granted: Option<JobId>)
      modifies this
      ensures ClaimsOldest(old(jobs), jobs, jobType, owner, now, granted)
      ensures granted.Some? ==> Grants(old(jobs), jobs, granted.value, owner)
                                && ListedAreFinished(old(jobs), granted.value)
    {
      var rows := jobs;
      var pending := FindByStatus(Pending);
      var candidates := Candidates(rows, pending, jobType, now);
      CandidatesSorted(rows, pending, jobType, now);

      for i := 0 to |candidates|
        invariant jobs == rows
        invariant NoneMetBefore(rows, candidates, i)
      {
        var candidate := candidates[i];
        if !DependenciesMet(jobs, candidate) {
          continue;
        }
        var claimed := ClaimJob(candidate, owner);
        if claimed.Some? {
          FirstMetIsOldest(rows, candidates, jobType, owner, now, i);
          return Some(candidate);
        }
      }
      NoneMetNoneEligible(rows, candidates, jobType, owner, now);
      granted := None;
    }

    /** Compare-and-set on the status column. */
    method UpdateStatus(id: JobId, expected: JobStatus, target: JobStatus) returns (updated: Option<Job>)
      modifies this
      ensures updated.Some? <==> id in old(jobs) && old(jobs)[id].status == expected
      ensures updated.None? ==> jobs == old(jobs)
      ensures updated.Some? ==> jobs == old(jobs)[id := old(jobs)[id].(status := target)] && updated.value == jobs[id]
    {
      if id !in jobs || jobs[id].status != expected {
        return None;
      }
      jobs := jobs[id := jobs[id].(status := target)];
      updated := Some(jobs[id]);
    }

    method StartJob(id: JobId) returns (r: Result<Job, Error>)
      modifies this
      ensures Outcome(old(jobs), jobs, id, RUNNABLE, Running, r)
      ensures r.Ok? <==> id in old(jobs) && old(jobs)[id].status == Claimed
      ensures r.Ok? ==> jobs == old(jobs)[id := old(jobs)[id].(status := Running)]
      ensures r.Err? ==> jobs == old(jobs) && r.error == (if id in old(jobs) then InvalidTransition else NotFound)
    {
      r := Transition(id, RUNNABLE, Running);
    }

    method CompleteJob(id: JobId) returns (r: Result<Job, Error>)
      modifies this
      ensures Outcome(old(jobs), jobs, id, FINISHABLE, Completed, r)
      ensures r.Ok? <==> id in old(jobs) && old(jobs)[id].status in {Claimed, Running}
      ensures r.Ok? ==> jobs == old(jobs)[id := old(jobs)[id].(status := Completed)]
      ensures r.Err? ==> jobs == old(jobs) && r.error == (if id in old(jobs) then InvalidTransition else NotFound)
    {
      r := Transition(id, FINISHABLE, Completed);
    }

    method FailJob(id: JobId) returns (r: Result<Job, Error>)
      modifies this
      ensures Outcome(old(jobs), jobs, id, FINISHABLE, Failed, r)
      ensures r.Ok? <==> id in old(jobs) && old(jobs)[id].status in {Claimed, Running}
      ensures r.Ok? ==> jobs == old(jobs)[id := old(jobs)[id].(status := Failed)]
      ensures r.Err? ==> jobs == old(jobs) && r.error == (if id in old(jobs) then InvalidTransition else NotFound)
    {
      r := Transition(id, FINISHABLE, Failed);
    }

    method Transition(id: JobId, from: set<JobStatus>, target: JobStatus) returns (r: Result<Job, Error>)
      modifies this
      ensures Outcome(old(jobs), jobs, id, from, target, r)
    {
      if id !in jobs {
        return Err(NotFound);
      }
      var existing := jobs[id];
      if existing.status !in from {
        return Err(InvalidTransition);
      }
      var updated := UpdateStatus(id, existing.status, target);
      if updated.None? {
        return Err(InvalidTransition);
      }
      r := Ok(updated.value);
    }

    /** The service's own dependency report, built by a loop over the looked-up jobs. */
    method AreJobDependenciesMet(id: JobId)
      returns (r: Result<bool, Error>, pendingIds: seq<JobId>, missingIds: seq<JobId>)
      ensures r.Err? <==> id !in jobs
      ensures r.Ok? ==> (r.value <==> DependenciesMet(jobs, id)) && (r.value <==> ListedAreFinished(jobs, id))
      ensures r.Ok? ==> forall d :: d in missingIds <==> Lists(jobs[id].dependsOnJobIds, d) && d !in jobs
      ensures r.Ok? ==>
                forall d :: d in pendingIds <==>
                  Lists(jobs[id].dependsOnJobIds, d) && d in jobs && jobs[d].status !in {Completed, Failed}
    {
      pendingIds, missingIds := [], [];
      if id !in jobs {
        return Err(NotFound), [], [];
      }
      var depIds := Dependencies(jobs, id);
      for i := 0 to |depIds|
        invariant forall d :: d in missingIds <==> d in depIds[..i] && d !in jobs
        invariant forall d :: d in pendingIds <==> d in depIds[..i] && d in jobs && !Terminal(jobs[d].status)
      {
        var depId := depIds[i];
        assert depIds[..i + 1] == depIds[..i] + [depId];
        if depId !in jobs {
          missingIds := missingIds + [depId];
        } else if !Terminal(jobs[depId].status) {
          pendingIds := pendingIds + [depId];
        }
      }
      assert depIds[..|depIds|] == depIds;
      ListedAreFinishedIff(jobs, id);
      forall d
        ensures d in depIds <==> Lists(jobs[id].dependsOnJobIds, d)
      {
        StringArrayMembers(jobs[id].dependsOnJobIds, d);
      }
      var met := pendingIds == [] && missingIds == [];
      if pendingIds != [] {
        assert pendingIds[0] in pendingIds;
      } else if missingIds != [] {
        assert missingIds[0] in missingIds;
      }
      r := Ok(met);
    }
  }

  /** The table after a guarded status change, and the row it reports. */
  ghost predicate Outcome(before: Jobs, after: Jobs, id: JobId, from: set<JobStatus>, target: JobStatus,
                          r: Result<Job, Error>) {
    match Advance(before, id, from, target)
    case Ok(jobs) => after == jobs && r == Ok(jobs[id])
    case Err(e) => after == before && r == Err(e)
  }
}
