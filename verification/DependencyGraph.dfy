/** The task dependency graph: depth-first cycle detection before every insert,
    and the guarantee that the graph stays acyclic. */
module DependencyGraph {

  import opened Wrappers
  import opened Collections
  import opened Graphs

  type TaskId = string
  type EdgeId = string

  datatype DependencyType = Blocks | RelatesTo | ParentChild

  datatype Edge = Edge(taskId: TaskId, dependsOnTaskId: TaskId, kind: DependencyType, isHardBlock: bool)

  /** The dependency table, by primary key. */
  type EdgeTable = map<EdgeId, Edge>

  datatype Error =
    | SelfDependency
    | TaskNotFound(taskId: TaskId)
    | DuplicateDependency
    | CyclicDependency(path: seq<TaskId>)

  ghost function Pairs(rows: EdgeTable): (r: set<(TaskId, TaskId)>) {
    set id | id in rows :: (rows[id].taskId, rows[id].dependsOnTaskId)
  }

  ghost function Endpoints(rows: EdgeTable): set<TaskId> {
    set id | id in rows :: rows[id].dependsOnTaskId
  }

  /** Every edge out of a node that the search has finished leads to a visited node. */
  ghost predicate Finished(pairs: set<(TaskId, TaskId)>, before: set<TaskId>, visited: set<TaskId>) {
    forall a, b :: (a, b) in pairs && a in visited && a !in before ==> b in visited
  }

  /** Forward lookup: the prerequisites of a task, in no particular order. */
  method FindByTaskId(rows: EdgeTable, taskId: TaskId) returns (prerequisites: seq<TaskId>)
    ensures forall d :: d in prerequisites <==> (taskId, d) in Pairs(rows)
  {
    var rest := set id | id in rows && rows[id].taskId == taskId;
    prerequisites := [];
    while rest != {}
      invariant forall id :: id in rest ==> id in rows && rows[id].taskId == taskId
      invariant forall id :: id in rows && rows[id].taskId == taskId ==>
                               id in rest || rows[id].dependsOnTaskId in prerequisites
      invariant forall d :: d in prerequisites ==> (taskId, d) in Pairs(rows)
    {
      var id :| id in rest;
      prerequisites := prerequisites + [rows[id].dependsOnTaskId];
      rest := rest - {id};
    }
  }

  /** The state one depth-first search shares between its recursive calls. */
  class CycleSearch {

    const rows: EdgeTable
    const target: TaskId
    var visited: set<TaskId>
    var pathStack: seq<TaskId>

    constructor (rows: EdgeTable, start: TaskId, target: TaskId)
      ensures this.rows == rows && this.target == target
      ensures visited == {start} && pathStack == [start]
    {
      this.rows, this.target := rows, target;
      visited, pathStack := {start}, [start];
    }

    /** The path so far is a real walk through the graph, and the target has not been met. */
    ghost predicate Searching()
      reads this
    {
      && Walk(Pairs(rows), pathStack)
      && target !in visited
    }

    /** Push a successor of the path's end, search from it, and pop it again unless the target was met. */
    method Visit(next: TaskId, ghost nodes: set<TaskId>) returns (found: bool)
      requires Searching() && (Last(pathStack), next) in Pairs(rows)
      requires Endpoints(rows) <= nodes && next in nodes && visited <= nodes
      modifies this
      ensures found ==> |pathStack| >= 2 && Last(pathStack) == target
                        && WalkBetween(Pairs(rows), Init(pathStack), old(pathStack)[0], target)
      ensures !found ==> Searching() && pathStack == old(pathStack)
                         && old(visited) <= visited <= nodes && next in visited
                         && Finished(Pairs(rows), old(visited), visited)
      decreases |nodes - visited|, 1
    {
      Append(Pairs(rows), pathStack, next);
      pathStack := pathStack + [next];
      found := Dfs(next, nodes);
      if !found {
        pathStack := Init(pathStack);
        assert pathStack == old(pathStack);
      }
    }

    method Dfs(current: TaskId, ghost nodes: set<TaskId>) returns (found: bool)
      requires Searching() && Last(pathStack) == current
      requires Endpoints(rows) <= nodes && current in nodes && visited <= nodes
      modifies this
      ensures found ==> |pathStack| >= 2 && Last(pathStack) == target
                        && WalkBetween(Pairs(rows), Init(pathStack), old(pathStack)[0], target)
      ensures !found ==> Searching() && pathStack == old(pathStack)
                         && old(visited) <= visited <= nodes && current in visited
                         && Finished(Pairs(rows), old(visited), visited)
      decreases |nodes - visited|, 0
    {
      if current == target {
        pathStack := pathStack + [target];
        assert Init(pathStack) == old(pathStack);
        return true;
      }
      if current in visited {
        return false;
      }
      visited := visited + {current};
      ghost var entered := visited;
      ghost var pairs := Pairs(rows);
      Entering(nodes, old(visited), current);

      var prerequisites := FindByTaskId(rows, current);
      EndpointsHold(rows, current, prerequisites);
      for i := 0 to |prerequisites|
        invariant Searching() && pathStack == old(pathStack)
        invariant entered <= visited <= nodes
        invariant Finished(pairs, entered, visited)
        invariant forall k :: 0 <= k < i ==> prerequisites[k] in visited
      {
        ghost var before := visited;
        Subset(nodes, entered, visited);
        found := Visit(prerequisites[i], nodes);
        if found {
          return true;
        }
        FinishedMore(pairs, entered, before, visited);
      }
      FinishedCurrent(pairs, old(visited), current, visited, prerequisites);
      found := false;
    }
  }

  lemma Entering(nodes: set<TaskId>, visited: set<TaskId>, current: TaskId)
    requires current in nodes && current !in visited
    ensures |nodes - (visited + {current})| < |nodes - visited|
  {
    assert current in nodes - visited;
    Shrinks(nodes - (visited + {current}), nodes - visited);
  }

  lemma EndpointsHold(rows: EdgeTable, taskId: TaskId, prerequisites: seq<TaskId>)
    requires forall d :: d in prerequisites <==> (taskId, d) in Pairs(rows)
    ensures forall k :: 0 <= k < |prerequisites| ==>
              prerequisites[k] in Endpoints(rows) && (taskId, prerequisites[k]) in Pairs(rows)
  {
    forall k | 0 <= k < |prerequisites|
      ensures prerequisites[k] in Endpoints(rows) && (taskId, prerequisites[k]) in Pairs(rows)
    {
      assert prerequisites[k] in prerequisites;
    }
  }

  lemma FinishedMore(pairs: set<(TaskId, TaskId)>, entered: set<TaskId>, before: set<TaskId>, visited: set<TaskId>)
    requires entered <= before <= visited && Finished(pairs, entered, before) && Finished(pairs, before, visited)
    ensures Finished(pairs, entered, visited)
  {
  }

  lemma FinishedCurrent(pairs: set<(TaskId, TaskId)>, before: set<TaskId>, current: TaskId, visited: set<TaskId>,
                        prerequisites: seq<TaskId>)
    requires forall d :: d in prerequisites <==> (current, d) in pairs
    requires forall k :: 0 <= k < |prerequisites| ==> prerequisites[k] in visited
    requires Finished(pairs, before + {current}, visited)
    ensures Finished(pairs, before, visited)
  {
  }

  lemma Shrinks<T>(smaller: set<T>, larger: set<T>)
    requires smaller < larger
    ensures |smaller| < |larger|
  {
    assert larger == smaller + (larger - smaller);
    assert larger - smaller != {};
  }

  lemma Subset<T>(nodes: set<T>, fewer: set<T>, more: set<T>)
    requires fewer <= more
    ensures |nodes - more| <= |nodes - fewer|
  {
    var small, large := nodes - more, nodes - fewer;
    assert large == small + (large - small);
  }

  /** Exact cycle detection: a path is reported just when the target can be reached. The
      reported path is a real walk from the start to the target, with the target written
      once more at its end. */
  method DetectCycle(rows: EdgeTable, start: TaskId, target: TaskId) returns (path: Option<seq<TaskId>>)
    requires start != target
    ensures path.None? <==> !Reaches(Pairs(rows), start, target)
    ensures path.Some? ==> |path.value| >= 2 && Last(path.value) == target
                           && WalkBetween(Pairs(rows), Init(path.value), start, target)
  {
    var search := new CycleSearch(rows, start, target);
    ghost var nodes := Endpoints(rows) + {start};
    var prerequisites := FindByTaskId(rows, start);
    EndpointsHold(rows, start, prerequisites);
    for i := 0 to |prerequisites|
      invariant search.Searching() && search.pathStack == [start]
      invariant {start} <= search.visited <= nodes
      invariant Finished(Pairs(rows), {start}, search.visited)
      invariant forall k :: 0 <= k < i ==> prerequisites[k] in search.visited
    {
      var found := search.Visit(prerequisites[i], nodes);
      if found {
        return Some(search.pathStack);
      }
    }
    ClosedMeansUnreachable(Pairs(rows), search.visited, start, target);
    path := None;
  }

  lemma ClosedMeansUnreachable(pairs: set<(TaskId, TaskId)>, closed: set<TaskId>, start: TaskId, target: TaskId)
    requires forall a, b :: (a, b) in pairs && a in closed ==> b in closed
    requires start in closed && target !in closed
    ensures !Reaches(pairs, start, target)
  {
    forall p
      ensures !WalkBetween(pairs, p, start, target)
    {
      if WalkBetween(pairs, p, start, target) {
        ClosedHoldsWalk(pairs, closed, p, |p| - 1);
      }
    }
  }

  class DependencyService {

    var tasks: set<TaskId>
    var rows: EdgeTable

    constructor ()
      ensures rows == map[] && tasks == {}
    {
      rows, tasks := map[], {};
    }

    /** An edge is accepted exactly when both tasks exist, it is new, and its prerequisite does not
        already lead back to its task, in whatever table: an import may have stored cycles in it. */
    method AddDependency(id: EdgeId, taskId: TaskId, dependsOn: TaskId, kind: DependencyType, hard: Option<bool>)
      returns (r: Result<Edge, Error>)
      requires id !in rows
      modifies this`rows
      ensures r.Ok? <==> Accepts(tasks, old(rows), taskId, dependsOn)
      ensures Acyclic(Pairs(old(rows))) ==> Acyclic(Pairs(rows))
      ensures r.Ok? ==> rows == old(rows)[id := r.value]
                        && r.value == Edge(taskId, dependsOn, kind, if hard.Some? then hard.value else kind == Blocks)
      ensures r.Err? ==> rows == old(rows)
      ensures r.Err? && r.error.CyclicDependency? ==>
                var path := r.error.path;
                |path| >= 2 && WalkBetween(Pairs(rows), Init(path), dependsOn, taskId)
    {
      if taskId == dependsOn {
        ReachesSelf(Pairs(rows), taskId);
        return Err(SelfDependency);
      }
      if taskId !in tasks {
        return Err(TaskNotFound(taskId));
      }
      if dependsOn !in tasks {
        return Err(TaskNotFound(dependsOn));
      }
      var prerequisites := FindByTaskId(rows, taskId);
      if dependsOn in prerequisites {
        return Err(DuplicateDependency);
      }
      var cycle := DetectCycle(rows, dependsOn, taskId);
      if cycle.Some? {
        return Err(CyclicDependency(cycle.value));
      }
      var edge := Edge(taskId, dependsOn, kind, if hard.Some? then hard.value else kind == Blocks);
      AcceptedKeepsAcyclic(tasks, rows, id, edge);
      rows := rows[id := edge];
      r := Ok(edge);
    }

    method RemoveDependency(id: EdgeId) returns (removed: bool)
      modifies this`rows
      ensures removed <==> id in old(rows)
      ensures rows == old(rows) - {id}
      ensures Acyclic(Pairs(old(rows))) ==> Acyclic(Pairs(rows))
    {
      removed := id in rows;
      if Acyclic(Pairs(rows)) {
        AcyclicSubset(Pairs(rows - {id}), Pairs(rows));
      }
      rows := rows - {id};
    }
  }

  lemma InsertPairs(rows: EdgeTable, id: EdgeId, edge: Edge)
    requires id !in rows
    ensures Pairs(rows[id := edge]) == Pairs(rows) + {(edge.taskId, edge.dependsOnTaskId)}
  {
    var more := rows[id := edge];
    forall p | p in Pairs(rows) + {(edge.taskId, edge.dependsOnTaskId)}
      ensures p in Pairs(more)
    {
      if p in Pairs(rows) {
        var k :| k in rows && p == (rows[k].taskId, rows[k].dependsOnTaskId);
        assert k in more && more[k] == rows[k];
      } else {
        assert id in more;
      }
    }
  }

  /** The insert guard, stated on the graph alone; a self-edge fails it, since a task reaches itself. */
  ghost predicate Accepts(tasks: set<TaskId>, rows: EdgeTable, taskId: TaskId, dependsOn: TaskId) {
    && taskId in tasks && dependsOn in tasks
    && (taskId, dependsOn) !in Pairs(rows)
    && !Reaches(Pairs(rows), dependsOn, taskId)
  }

  /** On an acyclic graph the guard accepts an edge between existing tasks exactly when it is new and
      the graph stays acyclic with it. */
  lemma AcceptsIffStaysAcyclic(tasks: set<TaskId>, rows: EdgeTable, taskId: TaskId, dependsOn: TaskId)
    requires Acyclic(Pairs(rows)) && taskId in tasks && dependsOn in tasks
    ensures Accepts(tasks, rows, taskId, dependsOn) <==>
            (taskId, dependsOn) !in Pairs(rows) && Acyclic(Pairs(rows) + {(taskId, dependsOn)})
  {
    AcyclicAfterAdding(Pairs(rows), taskId, dependsOn);
  }

  lemma AcceptedKeepsAcyclic(tasks: set<TaskId>, rows: EdgeTable, id: EdgeId, e: Edge)
    requires id !in rows && Accepts(tasks, rows, e.taskId, e.dependsOnTaskId)
    ensures Acyclic(Pairs(rows)) ==> Acyclic(Pairs(rows[id := e]))
  {
    InsertPairs(rows, id, e);
    if Acyclic(Pairs(rows)) {
      AcyclicAfterAdding(Pairs(rows), e.taskId, e.dependsOnTaskId);
    }
  }

  // ----- Runs -----

  datatype Event = Add(id: EdgeId, edge: Edge) | Remove(id: EdgeId)

  ghost function After(tasks: set<TaskId>, rows: EdgeTable, events: seq<Event>): (r: EdgeTable) {
    if events == [] then rows
    else
      var prev := After(tasks, rows, Init(events));
      match Last(events)
      case Add(id, e) =>
        if id !in prev && Accepts(tasks, prev, e.taskId, e.dependsOnTaskId) then prev[id := e] else prev
      case Remove(id) => prev - {id}
  }

  /** No sequence of inserts and removals ever makes the graph cyclic. */
  lemma {:induction false} EveryRunStaysAcyclic(tasks: set<TaskId>, rows: EdgeTable, events: seq<Event>)
    requires Acyclic(Pairs(rows))
    ensures Acyclic(Pairs(After(tasks, rows, events)))
  {
    if events != [] {
      EveryRunStaysAcyclic(tasks, rows, Init(events));
      var prev := After(tasks, rows, Init(events));
      match Last(events)
      case Add(id, e) =>
        if id !in prev && Accepts(tasks, prev, e.taskId, e.dependsOnTaskId) {
          AcceptedKeepsAcyclic(tasks, prev, id, e);
        }
      case Remove(id) =>
        AcyclicSubset(Pairs(prev - {id}), Pairs(prev));
    }
  }
}
