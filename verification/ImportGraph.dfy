/** The import wires edges without a cycle check: exactly when the graph stays acyclic all the same. */
module ImportGraph {

  import opened Wrappers
  import opened Collections
  import opened Graphs
  import opened ImportStore
  import opened ImportRuns

  ghost predicate UniqueKeys(rows: seq<TaskRow>) {
    forall i, j :: 0 <= i < j < |rows| ==> rows[i].taskId != rows[j].taskId
  }

  ghost predicate HasRow(rows: seq<TaskRow>, id: Id) {
    exists row :: row in rows && row.taskId == id
  }

  ghost predicate UniqueProjects(s: Store) {
    && (forall i :: 0 <= i < |s.projects| ==> s.projects[i].projectId < s.nextId)
    && (forall i, j :: 0 <= i < j < |s.projects| ==> s.projects[i].projectId != s.projects[j].projectId)
  }

  ghost predicate UniqueRepositories(s: Store) {
    && (forall i :: 0 <= i < |s.repositories| ==> s.repositories[i].repositoryId < s.nextId)
    && (forall i, j :: 0 <= i < j < |s.repositories| ==>
          s.repositories[i].repositoryId != s.repositories[j].repositoryId)
  }

  lemma ScaffoldingKeepsKeys(s: Store, request: Request)
    requires UniqueProjects(s) && UniqueRepositories(s)
    ensures UniqueProjects(Scaffolded(s, request).0) && UniqueRepositories(Scaffolded(s, request).0)
  {
    var (s1, projectId) := WithProject(s, request.projectName);
    assert UniqueProjects(s1) && UniqueRepositories(s1);
  }

  /** Every import keeps the ids of projects and of repositories unique. */
  lemma ImportKeepsKeys(s: Store, request: Request)
    requires UniqueProjects(s) && UniqueRepositories(s)
    ensures UniqueProjects(Import(s, request).0) && UniqueRepositories(Import(s, request).0)
  {
    ScaffoldingKeepsKeys(s, request);
    var s2, after := Scaffolded(s, request).0, Import(s, request).0;
    assert after.projects == s2.projects && after.repositories == s2.repositories && after.nextId >= s2.nextId;
  }

  /** Keys are unique and in use, and edges join stored tasks. */
  ghost predicate Sound(s: Store) {
    && UniqueKeys(s.tasks)
    && (forall row :: row in s.tasks ==> row.taskId < s.nextId)
    && (forall a, b :: (a, b) in s.edges ==> HasRow(s.tasks, a) && HasRow(s.tasks, b))
  }

  lemma {:induction false} NewIds(known: set<Ref>, tasks: seq<ImportedTask>, repo: Id, firstId: Id, k: nat)
    requires k < |NewRows(known, tasks, repo, firstId)|
    ensures NewRows(known, tasks, repo, firstId)[k].taskId == firstId + k
    ensures NewRows(known, tasks, repo, firstId)[k].repositoryId == repo
  {
    if k < |NewRows(known, Init(tasks), repo, firstId)| {
      NewIds(known, Init(tasks), repo, firstId, k);
    }
  }

  lemma {:induction false} UniqueIds(rows: seq<TaskRow>, known: set<Ref>, tasks: seq<ImportedTask>, repo: Id,
                                     firstId: Id)
    requires UniqueKeys(rows)
    requires forall row :: row in rows ==> row.taskId < firstId
    ensures UniqueKeys(rows + NewRows(known, tasks, repo, firstId))
  {
    var made := NewRows(known, tasks, repo, firstId);
    var all := rows + made;
    forall i, j | 0 <= i < j < |all|
      ensures all[i].taskId != all[j].taskId
    {
      if j >= |rows| {
        NewIds(known, tasks, repo, firstId, j - |rows|);
        if i >= |rows| {
          NewIds(known, tasks, repo, firstId, i - |rows|);
        } else {
          assert rows[i] in rows;
        }
      }
    }
  }

  lemma RowsStay(rows: seq<TaskRow>, more: seq<TaskRow>, id: Id)
    requires rows <= more && HasRow(rows, id)
    ensures HasRow(more, id)
  {
    var row :| row in rows && row.taskId == id;
    var k :| 0 <= k < |rows| && rows[k] == row;
    assert more[k] == row;
  }

  lemma IndexedBelow(rows: seq<TaskRow>, repo: Id, bound: Id, r: Ref)
    requires forall row :: row in rows ==> row.taskId < bound
    requires r in RefIndex(rows, repo)
    ensures RefIndex(rows, repo)[r] < bound
  {
    IndexNamesRows(rows, repo, r);
  }

  /** Every import keeps the keys unique and the edges between stored tasks. */
  lemma {:induction false} ImportKeepsSound(s: Store, request: Request)
    requires Sound(s)
    ensures Sound(Import(s, request).0)
  {
    var (after, r) := Import(s, request);
    var (s2, _, repo) := Scaffolded(s, request);
    var known := Known(s, request);
    UniqueIds(s.tasks, known, request.tasks, repo, s2.nextId);
    forall row | row in after.tasks
      ensures row.taskId < after.nextId
    {
      var k :| 0 <= k < |after.tasks| && after.tasks[k] == row;
      if k >= |s.tasks| {
        NewIds(known, request.tasks, repo, s2.nextId, k - |s.tasks|);
      } else {
        assert s.tasks[k] in s.tasks;
      }
    }
    var index := RefIndex(after.tasks, repo);
    WireExact(index, s.edges, Attempts(request.tasks));
    forall a, b | (a, b) in after.edges
      ensures HasRow(after.tasks, a) && HasRow(after.tasks, b)
    {
      if (a, b) in s.edges {
        RowsStay(s.tasks, after.tasks, a);
        RowsStay(s.tasks, after.tasks, b);
      } else {
        var t :| t in Attempts(request.tasks) && Resolvable(index, t) && (index[t.from], index[t.to]) == (a, b);
        IndexNamesRows(after.tasks, repo, t.from);
        IndexNamesRows(after.tasks, repo, t.to);
      }
    }
  }

  // ----- The graph as it can be drawn before the call -----

  /** A stored task, or a reference the request would give a task. */
  datatype Node = Stored(id: Id) | Planned(ref: Ref)

  function NodeOf(index: map<Ref, Id>, r: Ref): Node {
    if r in index then Stored(index[r]) else Planned(r)
  }

  ghost function StoredEdges(s: Store): set<(Node, Node)> {
    set e | e in s.edges.Keys :: (Stored(e.0), Stored(e.1))
  }

  ghost function RequestedEdges(index: map<Ref, Id>, attempts: seq<Attempt>): set<(Node, Node)> {
    set a | a in attempts :: (NodeOf(index, a.from), NodeOf(index, a.to))
  }

  /** The repository's reference index before the request. */
  ghost function IndexBefore(s: Store, request: Request): map<Ref, Id> {
    RefIndex(s.tasks, Scaffolded(s, request).2)
  }

  ghost function IndexAfter(s: Store, request: Request): map<Ref, Id> {
    var (after, r) := Import(s, request);
    RefIndex(after.tasks, r.repositoryId)
  }

  /** The stored edges and the request's own, with known references standing for their tasks. */
  ghost function PlannedGraph(s: Store, request: Request): set<(Node, Node)> {
    StoredEdges(s) + RequestedEdges(IndexBefore(s, request), Attempts(request.tasks))
  }

  lemma {:induction false} KnownNotRecreated(known: set<Ref>, tasks: seq<ImportedTask>, repo: Id, firstId: Id, r: Ref)
    requires r in known
    ensures r !in RefIndex(NewRows(known, tasks, repo, firstId), repo)
  {
    if tasks != [] {
      KnownNotRecreated(known, Init(tasks), repo, firstId, r);
      var rows, before := NewRows(known, tasks, repo, firstId), NewRows(known, Init(tasks), repo, firstId);
      if !Skips(known, Last(tasks)) {
        assert Init(rows) == before;
      }
    }
  }

  /** A known reference keeps its task. */
  lemma KnownKeepsTask(s: Store, request: Request, r: Ref)
    requires Sound(s) && r in IndexBefore(s, request)
    ensures r in IndexAfter(s, request) && IndexAfter(s, request)[r] == IndexBefore(s, request)[r] < s.nextId
  {
    var (s2, _, repo) := Scaffolded(s, request);
    var known := Known(s, request);
    IndexOfConcat(s.tasks, NewRows(known, request.tasks, repo, s2.nextId), repo);
    KnownNotRecreated(known, request.tasks, repo, s2.nextId, r);
    IndexedBelow(s.tasks, repo, s.nextId, r);
  }

  /** A cycle carried to another graph node by node. */
  lemma CarryCycle<N(!new), M(!new)>(edges: set<(N, N)>, c: seq<N>, other: set<(M, M)>, d: seq<M>)
    requires Cycle(edges, c) && |d| == |c| && d[0] == d[|d| - 1]
    requires forall i: nat :: i + 1 < |d| ==> StepAt(other, d, i)
    ensures !Acyclic(other)
  {
    assert Cycle(other, d);
  }

  /** Distinct references index distinct tasks. */
  lemma IndexInjective(rows: seq<TaskRow>, repo: Id, r: Ref, q: Ref)
    requires UniqueKeys(rows)
    requires r in RefIndex(rows, repo) && q in RefIndex(rows, repo)
        && RefIndex(rows, repo)[r] == RefIndex(rows, repo)[q]
    ensures r == q
  {
    IndexNamesRows(rows, repo, r);
    IndexNamesRows(rows, repo, q);
    var a :| a in rows && RowOf(a, repo, r, RefIndex(rows, repo)[r]);
    var b :| b in rows && RowOf(b, repo, q, RefIndex(rows, repo)[q]);
    var i :| 0 <= i < |rows| && rows[i] == a;
    var j :| 0 <= j < |rows| && rows[j] == b;
    assert i == j;
  }

  /** The task a new reference indexes is new. */
  lemma NewRefNewId(s: Store, request: Request, r: Ref)
    requires Sound(s) && r !in Known(s, request)
    requires var (after, resp) := Import(s, request); r in RefIndex(after.tasks, resp.repositoryId)
    ensures var (after, resp) := Import(s, request); RefIndex(after.tasks, resp.repositoryId)[r] >= s.nextId
  {
    var (after, resp) := Import(s, request);
    var (s2, _, repo) := Scaffolded(s, request);
    var made := NewRows(Known(s, request), request.tasks, repo, s2.nextId);
    IndexOfConcat(s.tasks, made, repo);
    IndexNamesRows(made, repo, r);
    var row :| row in made && RowOf(row, repo, r, RefIndex(made, repo)[r]);
    var k :| 0 <= k < |made| && made[k] == row;
    NewIds(Known(s, request), request.tasks, repo, s2.nextId, k);
  }

  /** The task a node stands for after the import; references that resolve to nothing have none. */
  ghost predicate StandsFor(s: Store, request: Request, n: Node, id: Id) {
    match n
    case Stored(x) => x == id && id < s.nextId
    case Planned(r) =>
      r !in IndexBefore(s, request) && r in IndexAfter(s, request) && IndexAfter(s, request)[r] == id && id >= s.nextId
  }

  lemma ReferenceStandsForTask(s: Store, request: Request, r: Ref)
    requires Sound(s) && r in IndexAfter(s, request)
    ensures StandsFor(s, request, NodeOf(IndexBefore(s, request), r), IndexAfter(s, request)[r])
  {
    if r in IndexBefore(s, request) {
      KnownKeepsTask(s, request, r);
    } else {
      NewRefNewId(s, request, r);
    }
  }

  /** Different nodes stand for different tasks. */
  lemma NodesAreDistinct(s: Store, request: Request, m: Node, n: Node, id: Id)
    requires Sound(s) && StandsFor(s, request, m, id) && StandsFor(s, request, n, id)
    ensures m == n
  {
    if m.Planned? && n.Planned? {
      var (after, resp) := Import(s, request);
      ImportKeepsSound(s, request);
      IndexInjective(after.tasks, resp.repositoryId, m.ref, n.ref);
    }
  }

  lemma AfterEdges(s: Store, request: Request)
    ensures Import(s, request).0.edges.Keys == s.edges.Keys + EdgePairs(IndexAfter(s, request), Attempts(request.tasks))
  {
    ImportIsExact(s, request);
  }

  /** A node with an edge out of it stands for a task. */
  lemma SourcesAreTasks(s: Store, request: Request, m: Node, n: Node) returns (id: Id)
    requires Sound(s) && (m, n) in PlannedGraph(s, request)
    ensures StandsFor(s, request, m, id)
  {
    if (m, n) in StoredEdges(s) {
      id := m.id;
    } else {
      var a :| a in Attempts(request.tasks)
          && (m, n) == (NodeOf(IndexBefore(s, request), a.from), NodeOf(IndexBefore(s, request), a.to));
      AttemptsIndexed(s, request);
      ReferenceStandsForTask(s, request, a.from);
      id := IndexAfter(s, request)[a.from];
    }
  }

  /** A planned edge between nodes that stand for tasks is stored by the import. */
  lemma PlannedIsStored(s: Store, request: Request, m: Node, n: Node, x: Id, y: Id)
    requires Sound(s) && (m, n) in PlannedGraph(s, request)
    requires StandsFor(s, request, m, x) && StandsFor(s, request, n, y)
    ensures (x, y) in Import(s, request).0.edges.Keys
  {
    var before, index := IndexBefore(s, request), IndexAfter(s, request);
    AfterEdges(s, request);
    if (m, n) !in StoredEdges(s) {
      var a :| a in Attempts(request.tasks) && (m, n) == (NodeOf(before, a.from), NodeOf(before, a.to));
      AttemptsIndexed(s, request);
      if a.to in before {
        KnownKeepsTask(s, request, a.to);
      }
      if a.from in before {
        KnownKeepsTask(s, request, a.from);
      }
      assert Resolvable(index, a) && index[a.from] == x && index[a.to] == y;
      assert (x, y) in EdgePairs(index, Attempts(request.tasks));
    }
  }

  /** Every stored edge comes from a planned one. */
  lemma StoredIsPlanned(s: Store, request: Request, x: Id, y: Id) returns (m: Node, n: Node)
    requires Sound(s) && (x, y) in Import(s, request).0.edges.Keys
    ensures (m, n) in PlannedGraph(s, request) && StandsFor(s, request, m, x) && StandsFor(s, request, n, y)
  {
    var before, index := IndexBefore(s, request), IndexAfter(s, request);
    AfterEdges(s, request);
    if (x, y) in s.edges {
      m, n := Stored(x), Stored(y);
      assert (m, n) in StoredEdges(s);
    } else {
      var a :| a in Attempts(request.tasks) && Resolvable(index, a) && (index[a.from], index[a.to]) == (x, y);
      ReferenceStandsForTask(s, request, a.from);
      ReferenceStandsForTask(s, request, a.to);
      m, n := NodeOf(before, a.from), NodeOf(before, a.to);
    }
  }

  lemma {:induction false} PlannedCycleIsStored(s: Store, request: Request, c: seq<Node>)
    requires Sound(s) && Cycle(PlannedGraph(s, request), c)
    ensures !Acyclic(Import(s, request).0.edges.Keys)
  {
    var plan, after := PlannedGraph(s, request), Import(s, request).0.edges.Keys;
    var d := IdsAlong(s, request, c, |c| - 1);
    var all := d + [d[0]];
    forall i: nat | i + 1 < |all|
      ensures StepAt(after, all, i)
    {
      assert StepAt(plan, c, i);
      assert StandsFor(s, request, c[i], all[i]) && StandsFor(s, request, c[i + 1], all[i + 1]);
      PlannedIsStored(s, request, c[i], c[i + 1], all[i], all[i + 1]);
    }
    CarryCycle(plan, c, after, all);
  }

  lemma {:induction false} IdsAlong(s: Store, request: Request, c: seq<Node>, n: nat) returns (d: seq<Id>)
    requires Sound(s) && Walk(PlannedGraph(s, request), c) && n < |c|
    ensures |d| == n && forall i :: 0 <= i < n ==> StandsFor(s, request, c[i], d[i])
  {
    if n == 0 {
      d := [];
    } else {
      d := IdsAlong(s, request, c, n - 1);
      assert StepAt(PlannedGraph(s, request), c, n - 1);
      var id := SourcesAreTasks(s, request, c[n - 1], c[n]);
      d := d + [id];
    }
  }

  lemma {:induction false} StoredCycleIsPlanned(s: Store, request: Request, c: seq<Id>)
    requires Sound(s) && Cycle(Import(s, request).0.edges.Keys, c)
    ensures !Acyclic(PlannedGraph(s, request))
  {
    var plan, after := PlannedGraph(s, request), Import(s, request).0.edges.Keys;
    var d := NodesAlong(s, request, c, |c|);
    NodesAreDistinct(s, request, d[0], d[|d| - 1], c[0]);
    forall i: nat | i + 1 < |d|
      ensures StepAt(plan, d, i)
    {
      assert StepAt(after, c, i);
      var m, n := StoredIsPlanned(s, request, c[i], c[i + 1]);
      NodesAreDistinct(s, request, m, d[i], c[i]);
      NodesAreDistinct(s, request, n, d[i + 1], c[i + 1]);
    }
    CarryCycle(after, c, plan, d);
  }

  lemma {:induction false} NodesAlong(s: Store, request: Request, c: seq<Id>, n: nat) returns (d: seq<Node>)
    requires Sound(s) && Walk(Import(s, request).0.edges.Keys, c) && |c| >= 2 && n <= |c|
    ensures |d| == n && forall i :: 0 <= i < n ==> StandsFor(s, request, d[i], c[i])
  {
    if n == 0 {
      d := [];
    } else {
      d := NodesAlong(s, request, c, n - 1);
      var k := if n < |c| then n - 1 else n - 2;
      assert StepAt(Import(s, request).0.edges.Keys, c, k);
      var x, y := StoredIsPlanned(s, request, c[k], c[k + 1]);
      d := d + [if n < |c| then x else y];
    }
  }

  /** The import checks for no cycle. The graph it leaves is acyclic exactly when the graph that can be
      drawn beforehand, from the stored edges and the request alone, is: for every store and request. */
  lemma {:induction false} ImportStaysAcyclicIff(s: Store, request: Request)
    requires Sound(s)
    ensures Acyclic(Import(s, request).0.edges.Keys) <==> Acyclic(PlannedGraph(s, request))
  {
    if c :| Cycle(PlannedGraph(s, request), c) {
      PlannedCycleIsStored(s, request, c);
    }
    if c :| Cycle(Import(s, request).0.edges.Keys, c) {
      StoredCycleIsPlanned(s, request, c);
    }
  }

  const NOTHING: Store := Store([], [], [], map[], 0)

  lemma PlannedPair(s: Store, request: Request, a: Attempt)
    requires a in Attempts(request.tasks)
    ensures (NodeOf(IndexBefore(s, request), a.from), NodeOf(IndexBefore(s, request), a.to)) in PlannedGraph(s, request)
  {
  }

  /** Two tasks that name each other are imported, and the stored graph has a cycle. */
  lemma ImportCanStoreCycle()
    ensures exists request :: !Acyclic(Import(NOTHING, request).0.edges.Keys)
  {
    var a := ImportedTask(Some("A"), ["B"], "");
    var b := ImportedTask(Some("B"), ["A"], "");
    var request := Request("p", None, None, "/", [a, b]);
    var index, ab, ba := IndexBefore(NOTHING, request), Attempt("A", "B"), Attempt("B", "A");
    assert Asks(a, ab) && Asks(b, ba);
    AttemptsExact(request.tasks, ab);
    AttemptsExact(request.tasks, ba);
    PlannedPair(NOTHING, request, ab);
    PlannedPair(NOTHING, request, ba);
    var plan, c := PlannedGraph(NOTHING, request), [NodeOf(index, "A"), NodeOf(index, "B"), NodeOf(index, "A")];
    assert StepAt(plan, c, 0) && StepAt(plan, c, 1);
    assert Cycle(plan, c);
    ImportStaysAcyclicIff(NOTHING, request);
  }

  /** Two tasks of one request with the same new reference are both created. */
  lemma TwinsAreBothCreated(s: Store, request: Request, t: ImportedTask)
    requires request.tasks == [t, t] && HasRef(t.externalRef) && !Skips(Known(s, request), t)
    ensures var (after, r) := Import(s, request); r.created == 2 && !UniqueRefs(after.tasks, r.repositoryId)
  {
    ImportKeepsRefsUniqueIff(s, request);
    ImportIsExact(s, request);
    BothTwinsKept(Known(s, request), t);
  }

  lemma BothTwinsKept(known: set<Ref>, t: ImportedTask)
    requires HasRef(t.externalRef) && !Skips(known, t)
    ensures |Filter([t, t], Unskipped(known))| == 2 && !NoTwins(known, [t, t])
  {
    var tasks := [t, t];
    assert tasks[1..] == [t] && [t][1..] == [];
    assert tasks[0].externalRef == tasks[1].externalRef;
  }
}
