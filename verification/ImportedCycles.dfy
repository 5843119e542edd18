/** Imported dependency cycles, as the readiness pass sees them. */
module ImportedCycles {

  import opened Wrappers
  import opened Collections
  import opened Graphs
  import opened StateMachines
  import opened ImportStore
  import opened ImportRuns
  import R = Readiness
  import D = DependencyGraph

  /** The readiness service reads every stored hard-block edge, under some naming of the ids. */
  ghost predicate Reads(s: Store, name: Id -> string, edges: D.EdgeTable) {
    forall a, b :: (a, b) in s.edges && s.edges[(a, b)] == HARD_BLOCK ==> (name(a), name(b)) in R.HardPairs(edges)
  }

  /** The edges an import adds. */
  ghost function AddedEdges(s: Store, request: Request): set<(Id, Id)> {
    Import(s, request).0.edges.Keys - s.edges.Keys
  }

  lemma AddedAreHardBlocks(s: Store, request: Request, e: (Id, Id))
    requires e in AddedEdges(s, request)
    ensures Import(s, request).0.edges[e] == HARD_BLOCK
  {
    var (after, r) := Import(s, request);
    WireExact(RefIndex(after.tasks, r.repositoryId), s.edges, Attempts(request.tasks));
  }

  /** A task that an import puts on a cycle of new edges waits for good: while none on the cycle is
      DONE, it is BLOCKED after every pass, however many there are. */
  lemma ImportedCycleStaysBlocked(s: Store, request: Request, cycle: seq<Id>, k: nat, name: Id -> string,
                                  tasks: R.Tasks, edges: D.EdgeTable, passes: nat)
    requires Cycle(AddedEdges(s, request), cycle) && k < |cycle|
    requires Reads(Import(s, request).0, name, edges)
    requires forall i :: 0 <= i < |cycle| ==> !R.IsDone(tasks, name(cycle[i]))
    requires R.Waiting(tasks, name(cycle[k]))
    ensures var end := R.Passes(tasks, edges, passes + 1);
            name(cycle[k]) in end && end[name(cycle[k])].status == Blocked
  {
    var named := seq(|cycle|, i requires 0 <= i < |cycle| => name(cycle[i]));
    forall i: nat | i + 1 < |named|
      ensures StepAt(R.HardPairs(edges), named, i)
    {
      assert StepAt(AddedEdges(s, request), cycle, i);
      AddedAreHardBlocks(s, request, (cycle[i], cycle[i + 1]));
    }
    assert Cycle(R.HardPairs(edges), named);
    R.CycleStaysBlocked(tasks, edges, named, k, passes);
  }
}
