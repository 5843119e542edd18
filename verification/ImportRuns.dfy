/** What an import guarantees: exact edges, conservation, idempotence, and when references stay
    unique and the dependency graph acyclic. */
module ImportRuns {

  import opened Wrappers
  import opened Collections
  import opened ImportStore

  // ----- Exactly the resolvable edges -----

  predicate Referenced(t: ImportedTask) {
    HasRef(t.externalRef)
  }

  predicate Unreferenced(t: ImportedTask) {
    !HasRef(t.externalRef)
  }

  function Unskipped(known: set<Ref>): ImportedTask -> bool {
    t => !Skips(known, t)
  }

  ghost predicate Asks(t: ImportedTask, a: Attempt) {
    t.externalRef == Some(a.from) && a.from != "" && a.to in t.dependencies
  }

  lemma {:induction false} AttemptsOfExact(from: Ref, dependencies: seq<Ref>, a: Attempt)
    ensures a in AttemptsOf(from, dependencies) <==> a.from == from && a.to in dependencies
  {
    if dependencies != [] {
      AttemptsOfExact(from, Init(dependencies), a);
      assert dependencies == Init(dependencies) + [Last(dependencies)];
    }
  }

  /** The attempts are precisely the pairs some task of the request asks for. */
  lemma {:induction false} AttemptsExact(tasks: seq<ImportedTask>, a: Attempt)
    ensures a in Attempts(tasks) <==> exists t :: t in tasks && Asks(t, a)
  {
    if tasks != [] {
      var t := Last(tasks);
      assert tasks == Init(tasks) + [t];
      AttemptsExact(Init(tasks), a);
      if HasRef(t.externalRef) {
        AttemptsOfExact(t.externalRef.value, t.dependencies, a);
      }
      assert a in Attempts(tasks) <==> a in Attempts(Init(tasks)) || Asks(t, a);
    }
  }

  ghost predicate RowOf(row: TaskRow, repo: Id, r: Ref, id: Id) {
    row.repositoryId == repo && row.externalRef == Some(r) && r != "" && row.taskId == id
  }

  lemma {:induction false} IndexNamesRows(rows: seq<TaskRow>, repo: Id, r: Ref)
    ensures r in RefIndex(rows, repo) ==> exists row :: row in rows && RowOf(row, repo, r, RefIndex(rows, repo)[r])
    ensures r !in RefIndex(rows, repo) ==> forall row, id :: row in rows ==> !RowOf(row, repo, r, id)
  {
    if rows != [] {
      assert rows == Init(rows) + [Last(rows)];
      IndexNamesRows(Init(rows), repo, r);
      if r in RefIndex(rows, repo) {
        if Last(rows).repositoryId == repo && Last(rows).externalRef == Some(r) {
          assert RowOf(Last(rows), repo, r, RefIndex(rows, repo)[r]);
        } else {
          var row :| row in Init(rows) && RowOf(row, repo, r, RefIndex(Init(rows), repo)[r]);
          assert row in rows;
        }
      }
    }
  }

  ghost function EdgePairs(index: map<Ref, Id>, attempts: seq<Attempt>): set<(Id, Id)> {
    set a | a in attempts && Resolvable(index, a) :: (index[a.from], index[a.to])
  }

  lemma EdgePairsSnoc(index: map<Ref, Id>, attempts: seq<Attempt>, a: Attempt)
    ensures EdgePairs(index, attempts + [a]) ==
            EdgePairs(index, attempts) + (if Resolvable(index, a) then {(index[a.from], index[a.to])} else {})
  {
    var more := attempts + [a];
    forall b
      ensures b in more <==> b in attempts || b == a
    {
    }
  }

  lemma {:induction false} WireExact(index: map<Ref, Id>, edges: Edges, attempts: seq<Attempt>)
    ensures Wire(index, edges, attempts).Keys == edges.Keys + EdgePairs(index, attempts)
    ensures forall e :: e in Wire(index, edges, attempts) ==>
              Wire(index, edges, attempts)[e] == if e in edges then edges[e] else Dependency("blocks", true)
  {
    if attempts != [] {
      WireExact(index, edges, Init(attempts));
      assert attempts == Init(attempts) + [Last(attempts)];
      EdgePairsSnoc(index, Init(attempts), Last(attempts));
    }
  }

  /** Every attempt is accounted for once: it adds an edge or logs an error. */
  lemma {:induction false} WireConserves(index: map<Ref, Id>, edges: Edges, attempts: seq<Attempt>)
    requires forall a :: a in attempts ==> a.from in index
    ensures |Wire(index, edges, attempts)| + |ErrorsOf(index, edges, attempts)| == |edges| + |attempts|
  {
    if attempts != [] {
      forall a | a in Init(attempts)
        ensures a.from in index
      {
        assert a in attempts;
      }
      assert Last(attempts) in attempts;
      WireConserves(index, edges, Init(attempts));
    }
  }

  /** A reference is reported missing exactly when it resolves to nothing. */
  lemma {:induction false} MissingReported(index: map<Ref, Id>, edges: Edges, attempts: seq<Attempt>, a: Attempt)
    ensures NotFound(a.from, a.to) in ErrorsOf(index, edges, attempts) <==>
            a in attempts && a.from in index && a.to !in index
  {
    if attempts != [] {
      assert attempts == Init(attempts) + [Last(attempts)];
      MissingReported(index, edges, Init(attempts), a);
    }
  }

  /** The k-th attempt resolves to a pair that is stored already or that an earlier attempt made. */
  ghost predicate Repeats(index: map<Ref, Id>, edges: Edges, attempts: seq<Attempt>, k: nat)
    requires k < |attempts|
  {
    var a := attempts[k];
    Resolvable(index, a)
    && ((index[a.from], index[a.to]) in edges || (index[a.from], index[a.to]) in EdgePairs(index, attempts[..k]))
  }

  ghost predicate RepeatedAs(index: map<Ref, Id>, edges: Edges, attempts: seq<Attempt>, a: Attempt) {
    exists k: nat :: k < |attempts| && attempts[k] == a && Repeats(index, edges, attempts, k)
  }

  lemma {:induction false} RepeatedSnoc(index: map<Ref, Id>, edges: Edges, attempts: seq<Attempt>, a: Attempt)
    requires attempts != []
    ensures RepeatedAs(index, edges, attempts, a) <==>
            || RepeatedAs(index, edges, Init(attempts), a)
            || (Last(attempts) == a && Repeats(index, edges, attempts, |attempts| - 1))
  {
    var most := Init(attempts);
    forall k: nat | k < |most|
      ensures most[k] == attempts[k] && most[..k] == attempts[..k]
      ensures Repeats(index, edges, most, k) <==> Repeats(index, edges, attempts, k)
    {
    }
    if RepeatedAs(index, edges, most, a) {
      var k: nat :| k < |most| && most[k] == a && Repeats(index, edges, most, k);
      assert attempts[k] == a && Repeats(index, edges, attempts, k);
    }
    if RepeatedAs(index, edges, attempts, a) {
      var k: nat :| k < |attempts| && attempts[k] == a && Repeats(index, edges, attempts, k);
      assert k < |most| ==> most[k] == a && Repeats(index, edges, most, k);
    }
  }

  /** A failed insert is reported exactly for an attempt whose pair is stored already or was made by an
      earlier attempt of the same request. */
  lemma {:induction false} RepeatReported(index: map<Ref, Id>, edges: Edges, attempts: seq<Attempt>, a: Attempt)
    ensures CreateFailed(a.from, a.to) in ErrorsOf(index, edges, attempts) <==> RepeatedAs(index, edges, attempts, a)
  {
    if attempts != [] {
      RepeatReported(index, edges, Init(attempts), a);
      RepeatedSnoc(index, edges, attempts, a);
      WireExact(index, edges, Init(attempts));
      assert attempts[..|attempts| - 1] == Init(attempts);
    }
  }

  lemma {:induction false} UnskippedCount(known: set<Ref>, tasks: seq<ImportedTask>, repo: Id, firstId: Id)
    ensures |NewRows(known, tasks, repo, firstId)| == |Filter(tasks, Unskipped(known))|
  {
    if tasks != [] {
      UnskippedCount(known, Init(tasks), repo, firstId);
      assert tasks == Init(tasks) + [Last(tasks)];
      FilterAppend(Init(tasks), Last(tasks), Unskipped(known));
    }
  }

  /** The k-th new row is the k-th unskipped task, with the k-th fresh id. */
  lemma {:induction false} NewRowsAreTheUnskipped(known: set<Ref>, tasks: seq<ImportedTask>, repo: Id, firstId: Id,
                                                  k: nat)
    requires k < |NewRows(known, tasks, repo, firstId)|
    ensures |NewRows(known, tasks, repo, firstId)| == |Filter(tasks, Unskipped(known))|
    ensures var t := Filter(tasks, Unskipped(known))[k];
            NewRows(known, tasks, repo, firstId)[k] == TaskRow(firstId + k, repo, t.externalRef, t.details)
  {
    UnskippedCount(known, tasks, repo, firstId);
    UnskippedCount(known, Init(tasks), repo, firstId);
    assert tasks == Init(tasks) + [Last(tasks)];
    FilterAppend(Init(tasks), Last(tasks), Unskipped(known));
    if k < |NewRows(known, Init(tasks), repo, firstId)| {
      NewRowsAreTheUnskipped(known, Init(tasks), repo, firstId, k);
    }
  }

  /** The references the repository holds before the request. */
  ghost function Known(s: Store, request: Request): set<Ref> {
    RefIndex(s.tasks, Scaffolded(s, request).2).Keys
  }

  /** The project of the request's name is the stored one, or a new one with that name; likewise the
      repository in it, named after the request or else after the project, with the given URL or else the
      path as a file URL. Nothing else is added. */
  lemma ScaffoldingIsExact(s: Store, request: Request)
    ensures var (after, r) := Import(s, request);
            && (FindProject(s.projects, request.projectName).Some? ==>
                 after.projects == s.projects && FindProject(s.projects, request.projectName) == Some(r.projectId))
            && (FindProject(s.projects, request.projectName).None? ==>
                 after.projects == s.projects + [Project(r.projectId, request.projectName, "imported")])
    ensures var (after, r) := Import(s, request);
            var name := if request.repositoryName == None then request.projectName else request.repositoryName.value;
            var url := if request.repositoryUrl == None then "file://" + request.path else request.repositoryUrl.value;
            && (FindRepository(s.repositories, r.projectId, name).Some? ==>
                 after.repositories == s.repositories
                 && FindRepository(s.repositories, r.projectId, name) == Some(r.repositoryId))
            && (FindRepository(s.repositories, r.projectId, name).None? ==>
                 after.repositories ==
                 s.repositories + [Repository(r.repositoryId, r.projectId, name, url, request.path)])
  {
  }

  /** Every task of the request is created or skipped, old rows stay, the new ones are the unskipped
      tasks; the edge set is the old one plus the resolvable pairs; attempts are conserved. */
  lemma {:induction false} ImportIsExact(s: Store, request: Request)
    ensures var (after, r) := Import(s, request);
            var attempts := Attempts(request.tasks);
            && r.created + r.skipped == |request.tasks|
            && r.created == |Filter(request.tasks, Unskipped(Known(s, request)))|
            && after.tasks == s.tasks + after.tasks[|s.tasks|..] && |after.tasks| == |s.tasks| + r.created
            && after.edges.Keys == s.edges.Keys + EdgePairs(RefIndex(after.tasks, r.repositoryId), attempts)
            && |after.edges| + |r.errors| == |s.edges| + |attempts|
  {
    var (after, r) := Import(s, request);
    var (s2, _, repo) := Scaffolded(s, request);
    var known, attempts := RefIndex(s.tasks, repo).Keys, Attempts(request.tasks);
    var index := RefIndex(after.tasks, repo);
    UnskippedCount(known, request.tasks, repo, s2.nextId);
    WireExact(index, s.edges, attempts);
    AttemptsIndexed(s, request);
    WireConserves(index, s.edges, attempts);
  }

  lemma {:induction false} AttemptsIndexed(s: Store, request: Request)
    ensures var (after, r) := Import(s, request);
            forall a :: a in Attempts(request.tasks) ==> a.from in RefIndex(after.tasks, r.repositoryId)
  {
    var (after, r) := Import(s, request);
    var (s2, _, repo) := Scaffolded(s, request);
    forall a | a in Attempts(request.tasks)
      ensures a.from in RefIndex(after.tasks, repo)
    {
      AttemptsExact(request.tasks, a);
      var t :| t in request.tasks && Asks(t, a);
      EveryReferenceIndexed(s.tasks, Known(s, request), request.tasks, repo, s2.nextId);
    }
  }

  // ----- Importing the same request again -----

  lemma {:induction false} ProjectFoundAgain(projects: seq<Project>, p: Project)
    requires FindProject(projects, p.name).None?
    ensures FindProject(projects + [p], p.name) == Some(p.projectId)
  {
    if projects != [] {
      assert (projects + [p])[1..] == projects[1..] + [p];
      ProjectFoundAgain(projects[1..], p);
    } else {
      assert (projects + [p])[0] == p;
    }
  }

  lemma {:induction false} RepositoryFoundAgain(repositories: seq<Repository>, r: Repository)
    requires FindRepository(repositories, r.projectId, r.name).None?
    ensures FindRepository(repositories + [r], r.projectId, r.name) == Some(r.repositoryId)
  {
    if repositories != [] {
      assert (repositories + [r])[1..] == repositories[1..] + [r];
      RepositoryFoundAgain(repositories[1..], r);
    } else {
      assert (repositories + [r])[0] == r;
    }
  }

  /** A second import finds the project and the repository the first one used. */
  lemma {:induction false} ScaffoldingIsReused(s: Store, request: Request)
    ensures var (after, r) := Import(s, request);
            Scaffolded(after, request) == (after, r.projectId, r.repositoryId)
  {
    var (after, r) := Import(s, request);
    var (s1, projectId) := WithProject(s, request.projectName);
    if FindProject(s.projects, request.projectName).None? {
      ProjectFoundAgain(s.projects, Project(s.nextId, request.projectName, "imported"));
    }
    var name := RepositoryName(request);
    if FindRepository(s1.repositories, projectId, name).None? {
      RepositoryFoundAgain(s1.repositories, Repository(s1.nextId, projectId, name, RemoteUrl(request), request.path));
    }
  }

  lemma {:induction false} OnlyUnreferencedAreNew(known: set<Ref>, tasks: seq<ImportedTask>, repo: Id, firstId: Id)
    requires forall t :: t in tasks && HasRef(t.externalRef) ==> t.externalRef.value in known
    ensures var rows := NewRows(known, tasks, repo, firstId);
            && RefIndex(rows, repo) == map[]
            && |rows| == |Filter(tasks, Unreferenced)|
            && forall row :: row in rows ==> !HasRef(row.externalRef)
  {
    if tasks != [] {
      forall t | t in Init(tasks) && HasRef(t.externalRef)
        ensures t.externalRef.value in known
      {
        assert t in tasks;
      }
      OnlyUnreferencedAreNew(known, Init(tasks), repo, firstId);
      assert tasks == Init(tasks) + [Last(tasks)];
      FilterAppend(Init(tasks), Last(tasks), Unreferenced);
      var rows, before := NewRows(known, tasks, repo, firstId), NewRows(known, Init(tasks), repo, firstId);
      assert Last(tasks) in tasks;
      if !Skips(known, Last(tasks)) {
        assert Init(rows) == before;
      }
    }
  }

  /** Nothing but tasks without a reference is added. */
  ghost predicate OnlyUnreferencedAdded(before: Store, tasks: seq<ImportedTask>, after: Store, r: Response) {
    && after.projects == before.projects && after.repositories == before.repositories
    && r.created == |Filter(tasks, Unreferenced)| && r.skipped == |Filter(tasks, Referenced)|
    && |after.tasks| == |before.tasks| + r.created && before.tasks == after.tasks[..|before.tasks|]
    && (forall row :: row in after.tasks[|before.tasks|..] ==> !HasRef(row.externalRef))
    && after.edges == before.edges && |r.errors| == |Attempts(tasks)|
  }

  lemma {:induction false} EveryEdgeTaken(index: map<Ref, Id>, edges: Edges, attempts: seq<Attempt>)
    requires forall a :: a in attempts ==> a.from in index
    requires EdgePairs(index, attempts) <= edges.Keys
    ensures Wire(index, edges, attempts) == edges && |ErrorsOf(index, edges, attempts)| == |attempts|
  {
    WireExact(index, edges, attempts);
    assert Wire(index, edges, attempts).Keys == edges.Keys;
    assert Wire(index, edges, attempts) == edges;
    WireConserves(index, edges, attempts);
  }

  lemma {:induction false} NothingLeftToWire(s: Store, tasks: seq<ImportedTask>, projectId: Id, repo: Id)
    requires forall t :: t in tasks && HasRef(t.externalRef) ==> t.externalRef.value in RefIndex(s.tasks, repo)
    requires forall a :: a in Attempts(tasks) ==> a.from in RefIndex(s.tasks, repo)
    requires EdgePairs(RefIndex(s.tasks, repo), Attempts(tasks)) <= s.edges.Keys
    ensures var (after, r) := ImportInto(s, tasks, projectId, repo);
            OnlyUnreferencedAdded(s, tasks, after, r)
  {
    var (after, r) := ImportInto(s, tasks, projectId, repo);
    var index := RefIndex(s.tasks, repo);
    var rows := NewRows(index.Keys, tasks, repo, s.nextId);
    OnlyUnreferencedAreNew(index.Keys, tasks, repo, s.nextId);
    IndexOfConcat(s.tasks, rows, repo);
    assert RefIndex(after.tasks, repo) == index;
    FilterSplit(tasks, Referenced, Unreferenced);
    assert after.tasks[|s.tasks|..] == rows;
    EveryEdgeTaken(index, s.edges, Attempts(tasks));
  }

  /** Importing the same request again, whatever it holds: the same project and repository, every
      task with a reference skipped, only those without one created, and not one edge added. */
  lemma {:induction false} SecondImportAddsNoEdge(s: Store, request: Request)
    ensures var (once, r1) := Import(s, request);
            var (twice, r2) := Import(once, request);
            && r2.projectId == r1.projectId && r2.repositoryId == r1.repositoryId
            && OnlyUnreferencedAdded(once, request.tasks, twice, r2)
  {
    var (once, r1) := Import(s, request);
    var repo := r1.repositoryId;
    ScaffoldingIsReused(s, request);
    assert Import(once, request) == ImportInto(once, request.tasks, r1.projectId, repo);
    var (s2, _, _) := Scaffolded(s, request);
    EveryReferenceIndexed(s.tasks, Known(s, request), request.tasks, repo, s2.nextId);
    AttemptsIndexed(s, request);
    WireExact(RefIndex(once.tasks, repo), s.edges, Attempts(request.tasks));
    NothingLeftToWire(once, request.tasks, r1.projectId, repo);
  }

  // ----- When references stay unique -----

  ghost predicate SameRef(a: TaskRow, b: TaskRow, repo: Id) {
    a.repositoryId == repo && b.repositoryId == repo && HasRef(a.externalRef) && a.externalRef == b.externalRef
  }

  ghost predicate UniqueRefs(rows: seq<TaskRow>, repo: Id) {
    forall i, j :: 0 <= i < j < |rows| ==> !SameRef(rows[i], rows[j], repo)
  }

  /** No two tasks the request would create share a reference. */
  ghost predicate NoTwins(known: set<Ref>, tasks: seq<ImportedTask>) {
    forall i, j :: 0 <= i < j < |tasks| && HasRef(tasks[i].externalRef) && tasks[i].externalRef == tasks[j].externalRef
      ==> Skips(known, tasks[i])
  }

  lemma UniqueSnoc(rows: seq<TaskRow>, row: TaskRow, repo: Id)
    ensures UniqueRefs(rows + [row], repo) <==>
            UniqueRefs(rows, repo)
            && !(row.repositoryId == repo && HasRef(row.externalRef) && row.externalRef.value in RefIndex(rows, repo))
  {
    var more := rows + [row];
    if UniqueRefs(more, repo) {
      forall i, j | 0 <= i < j < |rows|
        ensures !SameRef(rows[i], rows[j], repo)
      {
        assert !SameRef(more[i], more[j], repo);
      }
    }
    if row.repositoryId == repo && HasRef(row.externalRef) {
      var r := row.externalRef.value;
      IndexNamesRows(rows, repo, r);
      if r in RefIndex(rows, repo) {
        var twin :| twin in rows && RowOf(twin, repo, r, RefIndex(rows, repo)[r]);
        var k :| 0 <= k < |rows| && rows[k] == twin;
        assert SameRef(more[k], more[|rows|], repo);
      } else {
        forall k | 0 <= k < |rows|
          ensures !SameRef(rows[k], row, repo)
        {
          assert !RowOf(rows[k], repo, r, rows[k].taskId);
        }
      }
    }
  }

  lemma {:induction false} CreatedRefs(rows: seq<TaskRow>, known: set<Ref>, tasks: seq<ImportedTask>, repo: Id,
                                       firstId: Id, r: Ref)
    requires known == RefIndex(rows, repo).Keys
    ensures r in RefIndex(rows + NewRows(known, tasks, repo, firstId), repo) <==>
            r in known || exists k ::
                0 <= k < |tasks| && HasRef(tasks[k].externalRef) && tasks[k].externalRef.value == r
  {
    var made := NewRows(known, tasks, repo, firstId);
    if tasks == [] {
      assert rows + made == rows;
    } else {
      CreatedRefs(rows, known, Init(tasks), repo, firstId, r);
      assert tasks == Init(tasks) + [Last(tasks)];
      var before := NewRows(known, Init(tasks), repo, firstId);
      if !Skips(known, Last(tasks)) {
        assert Init(rows + made) == rows + before && Last(rows + made) == Last(made);
      }
      if r in RefIndex(rows + made, repo) && r !in known {
        if r in RefIndex(rows + before, repo) {
          var k :| 0 <= k < |Init(tasks)| && HasRef(Init(tasks)[k].externalRef)
              && Init(tasks)[k].externalRef.value == r;
          assert tasks[k] == Init(tasks)[k];
        } else {
          assert tasks[|tasks| - 1].externalRef.value == r;
        }
      }
    }
  }

  lemma {:induction false} TwinsSnoc(known: set<Ref>, tasks: seq<ImportedTask>)
    requires tasks != []
    ensures NoTwins(known, tasks) <==>
            NoTwins(known, Init(tasks))
            && (!HasRef(Last(tasks).externalRef) || Skips(known, Last(tasks))
                || !exists k :: 0 <= k < |Init(tasks)| && Init(tasks)[k].externalRef == Last(tasks).externalRef)
  {
    var most, t := Init(tasks), Last(tasks);
    assert forall k :: 0 <= k < |most| ==> most[k] == tasks[k];
    if k :| 0 <= k < |most| && HasRef(t.externalRef) && !Skips(known, t) && most[k].externalRef == t.externalRef {
      assert tasks[k].externalRef == tasks[|tasks| - 1].externalRef && !Skips(known, tasks[k]);
    }
  }

  /** References are unique in the repository after the import exactly when they were before and no
      two tasks the request creates share one: the deduplication set is not extended by the loop. */
  lemma {:induction false} RefsStayUniqueIff(rows: seq<TaskRow>, known: set<Ref>, tasks: seq<ImportedTask>, repo: Id,
                                             firstId: Id)
    requires known == RefIndex(rows, repo).Keys
    ensures UniqueRefs(rows + NewRows(known, tasks, repo, firstId), repo) <==>
            UniqueRefs(rows, repo) && NoTwins(known, tasks)
  {
    var made := NewRows(known, tasks, repo, firstId);
    if tasks == [] {
      assert rows + made == rows;
    } else {
      var before, t := NewRows(known, Init(tasks), repo, firstId), Last(tasks);
      RefsStayUniqueIff(rows, known, Init(tasks), repo, firstId);
      TwinsSnoc(known, tasks);
      if !Skips(known, t) {
        assert rows + made == (rows + before) + [Last(made)];
        UniqueSnoc(rows + before, Last(made), repo);
        if HasRef(t.externalRef) {
          CreatedRefs(rows, known, Init(tasks), repo, firstId, t.externalRef.value);
        }
      }
    }
  }

  lemma {:induction false} ImportKeepsRefsUniqueIff(s: Store, request: Request)
    ensures var (after, r) := Import(s, request);
            UniqueRefs(after.tasks, r.repositoryId) <==>
            UniqueRefs(s.tasks, r.repositoryId) && NoTwins(Known(s, request), request.tasks)
  {
    var (s2, _, repo) := Scaffolded(s, request);
    RefsStayUniqueIff(s.tasks, Known(s, request), request.tasks, repo, s2.nextId);
  }
}
