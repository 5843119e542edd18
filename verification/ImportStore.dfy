/** Executing an import request: deduplication by external reference, task insertion
    and dependency wiring, in one write transaction. */
module ImportStore {

  import opened Wrappers
  import opened Collections

  /** Generated identifiers, drawn from an unused supply. */
  type Id = nat
  type Ref = string

  datatype Project = Project(projectId: Id, name: string, owner: string)

  datatype Repository = Repository(repositoryId: Id, projectId: Id, name: string, remoteUrl: string, path: string)

  datatype TaskRow = TaskRow(taskId: Id, repositoryId: Id, externalRef: Option<Ref>, details: string)

  datatype Dependency = Dependency(kind: string, isHardBlock: bool)

  const HARD_BLOCK: Dependency := Dependency("blocks", true)

  /** The dependency table keyed by its unique pair (task, prerequisite). */
  type Edges = map<(Id, Id), Dependency>

  datatype ImportedTask = ImportedTask(externalRef: Option<Ref>, dependencies: seq<Ref>, details: string)

  datatype Request = Request(projectName: string, repositoryName: Option<string>, repositoryUrl: Option<string>,
                             path: string, tasks: seq<ImportedTask>)

  datatype ImportError = NotFound(task: Ref, dependency: Ref) | CreateFailed(task: Ref, dependency: Ref)

  datatype Response = Response(projectId: Id, repositoryId: Id, created: nat, skipped: nat, errors: seq<ImportError>)

  datatype Store = Store(projects: seq<Project>, repositories: seq<Repository>, tasks: seq<TaskRow>, edges: Edges,
                         nextId: Id)

  /** An empty reference counts as none. */
  predicate HasRef(r: Option<Ref>) {
    r.Some? && r.value != ""
  }

  // ----- What each phase should compute -----

  function FindProject(projects: seq<Project>, name: string): (r: Option<Id>)
    ensures r.None? <==> forall k :: 0 <= k < |projects| ==> projects[k].name != name
    ensures r.Some? ==> exists k :: 0 <= k < |projects| && projects[k].name == name && projects[k].projectId == r.value
  {
    if projects == [] then None
    else if projects[0].name == name then Some(projects[0].projectId)
    else FindProject(projects[1..], name)
  }

  predicate IsNamed(r: Repository, projectId: Id, name: string) {
    r.projectId == projectId && r.name == name
  }

  function FindRepository(repositories: seq<Repository>, projectId: Id, name: string): (r: Option<Id>)
    ensures r.None? <==> forall k :: 0 <= k < |repositories| ==>
                                       !(repositories[k].projectId == projectId && repositories[k].name == name)
    ensures r.Some? ==> exists k :: 0 <= k < |repositories| && repositories[k].projectId == projectId
                                    && repositories[k].name == name && repositories[k].repositoryId == r.value
  {
    if repositories == [] then None
    else if IsNamed(repositories[0], projectId, name) then Some(repositories[0].repositoryId)
    else FindRepository(repositories[1..], projectId, name)
  }

  function RepositoryName(request: Request): string {
    if request.repositoryName.Some? then request.repositoryName.value else request.projectName
  }

  function RemoteUrl(request: Request): string {
    if request.repositoryUrl.Some? then request.repositoryUrl.value else "file://" + request.path
  }

  function WithProject(s: Store, name: string): (Store, Id) {
    match FindProject(s.projects, name)
    case Some(id) => (s, id)
    case None => (s.(projects := s.projects + [Project(s.nextId, name, "imported")], nextId := s.nextId + 1), s.nextId)
  }

  function WithRepository(s: Store, request: Request, projectId: Id): (Store, Id) {
    match FindRepository(s.repositories, projectId, RepositoryName(request))
    case Some(id) => (s, id)
    case None =>
      var row := Repository(s.nextId, projectId, RepositoryName(request), RemoteUrl(request), request.path);
      (s.(repositories := s.repositories + [row], nextId := s.nextId + 1), s.nextId)
  }

  /** The references of a repository's tasks; the last row wins. */
  function RefIndex(rows: seq<TaskRow>, repo: Id): map<Ref, Id> {
    if rows == [] then map[]
    else
      var before := RefIndex(Init(rows), repo);
      var row := Last(rows);
      if row.repositoryId == repo && HasRef(row.externalRef) then before[row.externalRef.value := row.taskId]
      else before
  }

  predicate Skips(known: set<Ref>, t: ImportedTask) {
    HasRef(t.externalRef) && t.externalRef.value in known
  }

  /** Rows for the tasks that are not skipped; `known` holds the references from before the request. */
  function NewRows(known: set<Ref>, tasks: seq<ImportedTask>, repo: Id, firstId: Id): (r: seq<TaskRow>)
    ensures |r| <= |tasks|
  {
    if tasks == [] then []
    else
      var rows := NewRows(known, Init(tasks), repo, firstId);
      var t := Last(tasks);
      if Skips(known, t) then rows else rows + [TaskRow(firstId + |rows|, repo, t.externalRef, t.details)]
  }

  datatype Attempt = Attempt(from: Ref, to: Ref)

  function AttemptsOf(from: Ref, dependencies: seq<Ref>): seq<Attempt> {
    if dependencies == [] then [] else AttemptsOf(from, Init(dependencies)) + [Attempt(from, Last(dependencies))]
  }

  /** Every dependency a task with a reference asks for, in order. */
  function Attempts(tasks: seq<ImportedTask>): seq<Attempt> {
    if tasks == [] then []
    else
      Attempts(Init(tasks)) +
      (if HasRef(Last(tasks).externalRef) then AttemptsOf(Last(tasks).externalRef.value, Last(tasks).dependencies)
       else [])
  }

  predicate Resolvable(index: map<Ref, Id>, a: Attempt) {
    a.from in index && a.to in index
  }

  /** The edges that a list of attempts leaves behind: a taken pair keeps its row. */
  function Wire(index: map<Ref, Id>, edges: Edges, attempts: seq<Attempt>): Edges {
    if attempts == [] then edges
    else
      var before := Wire(index, edges, Init(attempts));
      var a := Last(attempts);
      if Resolvable(index, a) && (index[a.from], index[a.to]) !in before
      then before[(index[a.from], index[a.to]) := HARD_BLOCK]
      else before
  }

  function ErrorsOf(index: map<Ref, Id>, edges: Edges, attempts: seq<Attempt>): seq<ImportError> {
    if attempts == [] then []
    else
      var a := Last(attempts);
      ErrorsOf(index, edges, Init(attempts)) +
      (if a.from !in index then []
       else if a.to !in index then [NotFound(a.from, a.to)]
       else if (index[a.from], index[a.to]) in Wire(index, edges, Init(attempts)) then [CreateFailed(a.from, a.to)]
       else [])
  }

  /** Steps three to five, once project and repository are known. */
  function ImportInto(s: Store, tasks: seq<ImportedTask>, projectId: Id, repo: Id): (Store, Response) {
    var rows := NewRows(RefIndex(s.tasks, repo).Keys, tasks, repo, s.nextId);
    var index := RefIndex(s.tasks + rows, repo);
    var attempts := Attempts(tasks);
    (s.(tasks := s.tasks + rows, edges := Wire(index, s.edges, attempts), nextId := s.nextId + |rows|),
     Response(projectId, repo, |rows|, |tasks| - |rows|, ErrorsOf(index, s.edges, attempts)))
  }

  /** Steps one and two: the store with the request's project and repository in it, and their ids. */
  function Scaffolded(s: Store, request: Request): (r: (Store, Id, Id))
    ensures r.0.tasks == s.tasks && r.0.edges == s.edges && r.0.nextId >= s.nextId
  {
    var (s1, projectId) := WithProject(s, request.projectName);
    var (s2, repo) := WithRepository(s1, request, projectId);
    (s2, projectId, repo)
  }

  /** The whole transaction as one function of the store. */
  function Import(s: Store, request: Request): (Store, Response) {
    var (s2, projectId, repo) := Scaffolded(s, request);
    ImportInto(s2, request.tasks, projectId, repo)
  }

  // ----- The service over its tables -----

  class Database {

    var projects: seq<Project>
    var repositories: seq<Repository>
    var tasks: seq<TaskRow>
    var edges: Edges
    var nextId: Id

    constructor (s: Store)
      ensures Snapshot() == s
    {
      projects, repositories, tasks, edges, nextId := s.projects, s.repositories, s.tasks, s.edges, s.nextId;
    }

    ghost function Snapshot(): Store
      reads this
    {
      Store(projects, repositories, tasks, edges, nextId)
    }

    method RandomUuid() returns (id: Id)
      modifies this`nextId
      ensures id == old(nextId) && nextId == old(nextId) + 1
    {
      id := nextId;
      nextId := nextId + 1;
    }

    method FindOrCreateProject(name: string) returns (projectId: Id)
      modifies this`projects, this`nextId
      ensures (Snapshot(), projectId) == WithProject(old(Snapshot()), name)
    {
      var found := FindProject(projects, name);
      if found.Some? {
        return found.value;
      }
      projectId := RandomUuid();
      projects := projects + [Project(projectId, name, "imported")];
    }

    method FindOrCreateRepository(request: Request, projectId: Id) returns (repositoryId: Id)
      modifies this`repositories, this`nextId
      ensures (Snapshot(), repositoryId) == WithRepository(old(Snapshot()), request, projectId)
    {
      var found := FindRepository(repositories, projectId, RepositoryName(request));
      if found.Some? {
        return found.value;
      }
      repositoryId := RandomUuid();
      repositories :=
        repositories + [Repository(repositoryId, projectId, RepositoryName(request), RemoteUrl(request), request.path)];
    }

    /** The deduplication set and the reference map of the tasks already there. */
    method BuildIndex(repo: Id) returns (known: set<Ref>, index: map<Ref, Id>)
      ensures index == RefIndex(tasks, repo) && known == index.Keys
    {
      known, index := {}, map[];
      for i := 0 to |tasks|
        invariant index == RefIndex(tasks[..i], repo) && known == index.Keys
      {
        assert Init(tasks[..i + 1]) == tasks[..i];
        var t := tasks[i];
        if t.repositoryId == repo && HasRef(t.externalRef) {
          known := known + {t.externalRef.value};
          index := index[t.externalRef.value := t.taskId];
        }
      }
      assert tasks[..|tasks|] == tasks;
    }

    /** What the insert loop has done with the tasks so far. */
    ghost predicate Inserted(start: Store, repo: Id, known: set<Ref>, done: seq<ImportedTask>, index: map<Ref, Id>)
      reads this
    {
      var made := NewRows(known, done, repo, start.nextId);
      tasks == start.tasks + made && nextId == start.nextId + |made| && index == RefIndex(tasks, repo)
    }

    /** The body of the insert loop: skip a known reference, else insert a row and index it. */
    method InsertUnlessKnown(t: ImportedTask, repo: Id, known: set<Ref>, index: map<Ref, Id>,
                             ghost start: Store, ghost done: seq<ImportedTask>)
      returns (inserted: bool, updated: map<Ref, Id>)
      requires Inserted(start, repo, known, done, index)
      modifies this`tasks, this`nextId
      ensures Inserted(start, repo, known, done + [t], updated)
      ensures nextId == old(nextId) + (if inserted then 1 else 0)
    {
      OneMoreTask(known, done, t, repo, start.nextId);
      if HasRef(t.externalRef) && t.externalRef.value in known {
        return false, index;
      }
      var taskId := RandomUuid();
      tasks := tasks + [TaskRow(taskId, repo, t.externalRef, t.details)];
      assert Init(tasks) == old(tasks);
      updated := index;
      if HasRef(t.externalRef) {
        updated := updated[t.externalRef.value := taskId];
      }
      inserted := true;
    }

    /** The insert loop. The map grows with the rows; the deduplication set does not. */
    method InsertTasks(request: seq<ImportedTask>, repo: Id, known: set<Ref>, existing: map<Ref, Id>)
      returns (created: nat, skipped: nat, index: map<Ref, Id>)
      requires existing == RefIndex(tasks, repo)
      modifies this`tasks, this`nextId
      ensures tasks == old(tasks) + NewRows(known, request, repo, old(nextId))
      ensures created == |NewRows(known, request, repo, old(nextId))| && created + skipped == |request|
      ensures nextId == old(nextId) + created
      ensures index == RefIndex(tasks, repo)
    {
      created, skipped, index := 0, 0, existing;
      ghost var start, done := Snapshot(), [];
      for i := 0 to |request|
        invariant done == request[..i] && Inserted(start, repo, known, done, index)
        invariant created + skipped == i && nextId == start.nextId + created
      {
        var inserted;
        inserted, index := InsertUnlessKnown(request[i], repo, known, index, start, done);
        done := done + [request[i]];
        if inserted {
          created := created + 1;
        } else {
          skipped := skipped + 1;
        }
      }
      assert done == request;
    }

    /** One dependency: log a missing reference, else insert the edge or log why that failed. */
    method WireOne(from: Ref, depRef: Ref, index: map<Ref, Id>, errors: seq<ImportError>,
                   ghost start: Edges, ghost earlier: seq<Attempt>) returns (log: seq<ImportError>)
      requires from in index && edges == Wire(index, start, earlier) && errors == ErrorsOf(index, start, earlier)
      modifies this`edges
      ensures edges == Wire(index, start, earlier + [Attempt(from, depRef)])
      ensures log == ErrorsOf(index, start, earlier + [Attempt(from, depRef)])
    {
      ghost var upto := earlier + [Attempt(from, depRef)];
      assert Init(upto) == earlier && Last(upto) == Attempt(from, depRef);
      if depRef !in index {
        return errors + [NotFound(from, depRef)];
      }
      log := errors;
      var pair := (index[from], index[depRef]);
      if pair in edges {
        log := log + [CreateFailed(from, depRef)];
      } else {
        edges := edges[pair := HARD_BLOCK];
      }
    }

    /** The inner wiring loop: one task's dependencies, after the attempts of the tasks before it. */
    method WireTask(from: Ref, dependencies: seq<Ref>, index: map<Ref, Id>, errors: seq<ImportError>,
                    ghost start: Edges, ghost earlier: seq<Attempt>) returns (log: seq<ImportError>)
      requires from in index && edges == Wire(index, start, earlier) && errors == ErrorsOf(index, start, earlier)
      modifies this`edges
      ensures edges == Wire(index, start, earlier + AttemptsOf(from, dependencies))
      ensures log == ErrorsOf(index, start, earlier + AttemptsOf(from, dependencies))
    {
      log := errors;
      ghost var done := earlier;
      for j := 0 to |dependencies|
        invariant done == earlier + AttemptsOf(from, dependencies[..j])
        invariant edges == Wire(index, start, done) && log == ErrorsOf(index, start, done)
      {
        OneMoreAttempt(from, dependencies, j);
        log := WireOne(from, dependencies[j], index, log, start, done);
        done := done + [Attempt(from, dependencies[j])];
      }
      assert dependencies[..|dependencies|] == dependencies;
    }

    method WireEdges(request: seq<ImportedTask>, index: map<Ref, Id>) returns (errors: seq<ImportError>)
      requires Indexed(request, index)
      modifies this`edges
      ensures edges == Wire(index, old(edges), Attempts(request))
      ensures errors == ErrorsOf(index, old(edges), Attempts(request))
    {
      errors := [];
      ghost var start := edges;
      for i := 0 to |request|
        invariant edges == Wire(index, start, Attempts(request[..i]))
        invariant errors == ErrorsOf(index, start, Attempts(request[..i]))
      {
        var t := request[i];
        assert Init(request[..i + 1]) == request[..i] && Last(request[..i + 1]) == t;
        ghost var earlier := Attempts(request[..i]);
        assert earlier + [] == earlier;
        if t.dependencies == [] || !HasRef(t.externalRef) {
          continue;
        }
        errors := WireTask(t.externalRef.value, t.dependencies, index, errors, start, earlier);
      }
      assert request[..|request|] == request;
    }

    method ImportTasks(request: seq<ImportedTask>, projectId: Id, repo: Id) returns (response: Response)
      modifies this`tasks, this`edges, this`nextId
      ensures (Snapshot(), response) == ImportInto(old(Snapshot()), request, projectId, repo)
    {
      ghost var start, firstId := tasks, nextId;
      var known, existing := BuildIndex(repo);
      var created, skipped, index := InsertTasks(request, repo, known, existing);
      EveryReferenceIndexed(start, known, request, repo, firstId);
      ghost var rows := NewRows(known, request, repo, firstId);
      assert tasks == start + rows && created == |rows|;
      var errors := WireEdges(request, index);
      response := Response(projectId, repo, created, skipped, errors);
    }

    method Execute(request: Request) returns (response: Response)
      modifies this
      ensures (Snapshot(), response) == Import(old(Snapshot()), request)
    {
      var projectId := FindOrCreateProject(request.projectName);
      var repo := FindOrCreateRepository(request, projectId);
      response := ImportTasks(request.tasks, projectId, repo);
    }
  }

  // ----- The reference index -----

  ghost predicate Indexed(tasks: seq<ImportedTask>, index: map<Ref, Id>) {
    forall t :: t in tasks && HasRef(t.externalRef) ==> t.externalRef.value in index
  }

  lemma OneMoreTask(known: set<Ref>, tasks: seq<ImportedTask>, t: ImportedTask, repo: Id, firstId: Id)
    ensures var made := NewRows(known, tasks, repo, firstId);
            NewRows(known, tasks + [t], repo, firstId) ==
            if Skips(known, t) then made else made + [TaskRow(firstId + |made|, repo, t.externalRef, t.details)]
  {
    assert Init(tasks + [t]) == tasks && Last(tasks + [t]) == t;
  }

  lemma OneMoreAttempt(from: Ref, dependencies: seq<Ref>, j: nat)
    requires j < |dependencies|
    ensures AttemptsOf(from, dependencies[..j + 1]) ==
            AttemptsOf(from, dependencies[..j]) + [Attempt(from, dependencies[j])]
  {
    assert Init(dependencies[..j + 1]) == dependencies[..j];
  }

  lemma {:induction false} IndexOfConcat(a: seq<TaskRow>, b: seq<TaskRow>, repo: Id)
    ensures RefIndex(a + b, repo) == RefIndex(a, repo) + RefIndex(b, repo)
  {
    if b == [] {
      assert a + b == a;
    } else {
      assert Init(a + b) == a + Init(b) && Last(a + b) == Last(b);
      IndexOfConcat(a, Init(b), repo);
    }
  }

  lemma {:induction false} NewRowsIndexed(known: set<Ref>, tasks: seq<ImportedTask>, repo: Id, firstId: Id,
                                          t: ImportedTask)
    requires t in tasks && HasRef(t.externalRef) && !Skips(known, t)
    ensures t.externalRef.value in RefIndex(NewRows(known, tasks, repo, firstId), repo)
  {
    assert tasks == Init(tasks) + [Last(tasks)];
    var rows, before := NewRows(known, tasks, repo, firstId), NewRows(known, Init(tasks), repo, firstId);
    if !Skips(known, Last(tasks)) {
      assert Init(rows) == before;
    }
    if t in Init(tasks) {
      NewRowsIndexed(known, Init(tasks), repo, firstId, t);
    }
  }

  /** After the insert loop every task of the request that has a reference is in the map, so the
      wiring loop never misses its own task. */
  lemma {:induction false} EveryReferenceIndexed(rows: seq<TaskRow>, known: set<Ref>, tasks: seq<ImportedTask>,
                                                 repo: Id, firstId: Id)
    requires known == RefIndex(rows, repo).Keys
    ensures Indexed(tasks, RefIndex(rows + NewRows(known, tasks, repo, firstId), repo))
  {
    IndexOfConcat(rows, NewRows(known, tasks, repo, firstId), repo);
    forall t | t in tasks && HasRef(t.externalRef) && !Skips(known, t)
      ensures t.externalRef.value in RefIndex(NewRows(known, tasks, repo, firstId), repo)
    {
      NewRowsIndexed(known, tasks, repo, firstId, t);
    }
  }
}
