/** Startup cleanup of orphaned worktrees: scan, delete, sweep the emptied repository directories. */
module WorkspaceCleanup {

  import opened Wrappers
  import opened Collections
  import opened StateMachines
  import LeaseStore

  const MS_PER_DAY := 86_400_000

  type Name = string

  /** What lies in a repository directory; a directory's contents are those of one worktree. */
  datatype Leaf = File | Worktree(mtime: int, contents: string)

  datatype Node = RootFile | Repo(leaves: map<Name, Leaf>)

  type Tree = map<Name, Node>

  datatype Path = Path(repoId: Name, taskId: Name)

  datatype Entry = Entry(path: Path, mtime: int)

  datatype CleanupOutcome = Deleted | Pending(daysRemaining: int) | ActiveLease | Error

  datatype Action = Action(entry: Entry, outcome: CleanupOutcome)

  datatype Report = Report(scanned: nat, deleted: nat, pending: nat, activeLease: nat, errors: nat,
                           actions: seq<Action>)

  /** Which foreign calls throw; a removal that throws may leave the directory half emptied. */
  datatype Faults = Faults(root: bool, repos: set<Name>, stats: set<Path>, queries: set<Name>,
                           removals: map<Path, Leaf>,
                           sweepRoot: bool, sweepRepos: set<Name>, sweepRemovals: set<Name>)

  const NO_FAULTS: Faults := Faults(false, {}, {}, {}, map[], false, {}, {})

  type Leases = map<LeaseStore.LeaseId, LeaseStore.Lease>

  /** What a run is given: the lease table, the time and the retention period. */
  datatype Setting = Setting(leases: Leases, now: int, retentionDays: int)

  function RetentionMs(g: Setting): int {
    g.retentionDays * MS_PER_DAY
  }

  const TERMINAL_LEASE_STATUSES: set<LeaseStatus> := {Completing, Reclaimed}

  /** Counts the task's leases outside the terminal statuses. */
  function HasActiveLeaseForTask(leases: Leases, taskId: Name): bool {
    |set id | id in leases && leases[id].taskId == taskId && leases[id].status !in TERMINAL_LEASE_STATUSES| > 0
  }

  predicate Holds(lease: LeaseStore.Lease, taskId: Name) {
    lease.taskId == taskId && lease.status != Completing && lease.status != Reclaimed
  }

  lemma ProtectedIff(leases: Leases, taskId: Name)
    ensures HasActiveLeaseForTask(leases, taskId) <==> exists id :: id in leases && Holds(leases[id], taskId)
  {
    var found := set id | id in leases && leases[id].taskId == taskId && leases[id].status !in TERMINAL_LEASE_STATUSES;
    if id :| id in leases && Holds(leases[id], taskId) {
      assert id in found;
    }
    if |found| > 0 {
      var id :| id in found;
      assert Holds(leases[id], taskId);
    }
  }

  // ----- What a run decides and leaves behind -----

  ghost function LeafAt(tree: Tree, p: Path): Option<Leaf> {
    if p.repoId in tree && tree[p.repoId].Repo? && p.taskId in tree[p.repoId].leaves
    then Some(tree[p.repoId].leaves[p.taskId]) else None
  }

  ghost predicate Scanned(tree: Tree, f: Faults, e: Entry) {
    && !f.root && e.path.repoId !in f.repos && e.path !in f.stats
    && LeafAt(tree, e.path).Some? && LeafAt(tree, e.path).value.Worktree? && LeafAt(tree, e.path).value.mtime == e.mtime
  }

  /** Rounded up, as days are shown to an operator. */
  function DaysRemaining(ms: int): int {
    (ms + MS_PER_DAY - 1) / MS_PER_DAY
  }

  function OutcomeOf(g: Setting, f: Faults, e: Entry): CleanupOutcome {
    if e.path.taskId in f.queries then Error
    else if HasActiveLeaseForTask(g.leases, e.path.taskId) then ActiveLease
    else
      var age := g.now - e.mtime;
      if age < RetentionMs(g) then Pending(DaysRemaining(RetentionMs(g) - age))
      else if e.path in f.removals then Error
      else Deleted
  }

  /** Reached the removal, whether or not that threw. */
  predicate Removes(g: Setting, f: Faults, e: Entry) {
    e.path.taskId !in f.queries && !HasActiveLeaseForTask(g.leases, e.path.taskId) && g.now - e.mtime >= RetentionMs(g)
  }

  ghost function Doomed(entries: seq<Entry>, g: Setting, f: Faults, p: Path): bool {
    exists e :: e in entries && e.path == p && Removes(g, f, e)
  }

  /** The leaf a path holds once the entries have been processed. */
  ghost function LeafAfter(tree: Tree, entries: seq<Entry>, g: Setting, f: Faults, p: Path): Option<Leaf> {
    if !Doomed(entries, g, f, p) then LeafAt(tree, p)
    else if p in f.removals then Some(f.removals[p])
    else None
  }

  /** Same directories and files at the top, and below them the leaves the entries leave. */
  ghost predicate Processed(before: Tree, entries: seq<Entry>, g: Setting, f: Faults, after: Tree) {
    && after.Keys == before.Keys
    && (forall r :: r in before ==> (after[r].Repo? <==> before[r].Repo?))
    && (forall p :: LeafAt(after, p) == LeafAfter(before, entries, g, f, p))
  }

  predicate SweptAway(tree: Tree, f: Faults, r: Name)
    requires r in tree
  {
    tree[r].Repo? && tree[r].leaves == map[] && r !in f.sweepRepos && r !in f.sweepRemovals
  }

  function Swept(tree: Tree, f: Faults): Tree {
    if f.sweepRoot then tree else map r | r in tree && !SweptAway(tree, f, r) :: tree[r]
  }

  // ----- The service over the file system -----

  class FileSystem {

    var rootExists: bool
    var tree: Tree

    constructor (tree: Tree)
      ensures this.tree == tree && rootExists
    {
      this.tree, rootExists := tree, true;
    }

    /** One repository directory's worktrees. */
    method ScanRepo(repoId: Name, f: Faults) returns (entries: seq<Entry>)
      requires repoId in tree && tree[repoId].Repo? && repoId !in f.repos && !f.root
      ensures forall e :: e in entries <==> e.path.repoId == repoId && Scanned(tree, f, e)
      ensures forall i, j :: 0 <= i < j < |entries| ==> entries[i].path != entries[j].path
    {
      entries := [];
      var leaves := tree[repoId].leaves;
      var rest := leaves.Keys;
      while rest != {}
        invariant rest <= leaves.Keys
        invariant forall e :: e in entries <==> e.path.repoId == repoId && Scanned(tree, f, e) && e.path.taskId !in rest
        invariant forall i, j :: 0 <= i < j < |entries| ==> entries[i].path != entries[j].path
      {
        var taskId :| taskId in rest;
        ghost var before := rest;
        rest := rest - {taskId};
        if !leaves[taskId].Worktree? || Path(repoId, taskId) in f.stats {
          continue;
        }
        var entry := Entry(Path(repoId, taskId), leaves[taskId].mtime);
        ghost var earlier := entries;
        assert forall e :: e in earlier ==> e.path.taskId !in before;
        entries := entries + [entry];
        forall e
          ensures e in entries <==> e.path.repoId == repoId && Scanned(tree, f, e) && e.path.taskId !in rest
        {
          assert e in entries <==> e in earlier || e == entry;
        }
      }
    }

    method ScanWorkspaceDirectories(f: Faults) returns (entries: seq<Entry>)
      ensures forall e :: e in entries <==> Scanned(tree, f, e)
      ensures forall i, j :: 0 <= i < j < |entries| ==> entries[i].path != entries[j].path
    {
      entries := [];
      if f.root {
        return;
      }
      var rest := tree.Keys;
      while rest != {}
        invariant rest <= tree.Keys
        invariant forall e :: e in entries <==> Scanned(tree, f, e) && e.path.repoId !in rest
        invariant forall i, j :: 0 <= i < j < |entries| ==> entries[i].path != entries[j].path
      {
        var repoId :| repoId in rest;
        ghost var before := rest;
        rest := rest - {repoId};
        if !tree[repoId].Repo? || repoId in f.repos {
          continue;
        }
        var found := ScanRepo(repoId, f);
        ghost var earlier := entries;
        assert forall e :: e in earlier ==> e.path.repoId !in before;
        entries := entries + found;
        forall e
          ensures e in entries <==> Scanned(tree, f, e) && e.path.repoId !in rest
        {
          assert e in entries <==> e in earlier || e in found;
        }
        forall i, j | 0 <= i < j < |entries|
          ensures entries[i].path != entries[j].path
        {
          if i < |earlier| <= j {
            assert entries[i] in earlier && entries[j] in found;
          }
        }
      }
    }

    /** A recursive removal: the directory goes, or the call throws and leaves what it leaves. */
    method RemoveWorktree(p: Path, f: Faults) returns (ok: bool)
      requires p.repoId in tree && tree[p.repoId].Repo?
      modifies this`tree
      ensures ok <==> p !in f.removals
      ensures tree.Keys == old(tree).Keys && forall r :: r in tree ==> (tree[r].Repo? <==> old(tree)[r].Repo?)
      ensures forall q ::
          LeafAt(tree, q) == if q != p then old(LeafAt(tree, q)) else if ok then None else Some(f.removals[p])
    {
      var leaves := tree[p.repoId].leaves;
      ok := p !in f.removals;
      leaves := if ok then leaves - {p.taskId} else leaves[p.taskId := f.removals[p]];
      tree := tree[p.repoId := Repo(leaves)];
    }

    method CleanEntries(entries: seq<Entry>, g: Setting, f: Faults) returns (actions: seq<Action>)
      requires forall e :: e in entries ==> Scanned(tree, f, e)
      modifies this`tree
      ensures Processed(old(tree), entries, g, f, tree)
      ensures |actions| == |entries|
      ensures forall i :: 0 <= i < |entries| ==> actions[i] == Action(entries[i], OutcomeOf(g, f, entries[i]))
    {
      actions := [];
      for i := 0 to |entries|
        invariant Processed(old(tree), entries[..i], g, f, tree)
        invariant |actions| == i
        invariant forall k :: 0 <= k < i ==> actions[k] == Action(entries[k], OutcomeOf(g, f, entries[k]))
      {
        var e := entries[i];
        ghost var before := tree;
        assert Scanned(old(tree), f, e);
        if e.path.taskId in f.queries {
          actions := actions + [Action(e, Error)];
        } else if HasActiveLeaseForTask(g.leases, e.path.taskId) {
          actions := actions + [Action(e, ActiveLease)];
        } else {
          var age := g.now - e.mtime;
          if age >= RetentionMs(g) {
            var ok := RemoveWorktree(e.path, f);
            actions := actions + [Action(e, if ok then Deleted else Error)];
          } else {
            actions := actions + [Action(e, Pending(DaysRemaining(RetentionMs(g) - age)))];
          }
        }
        OneMoreProcessed(old(tree), entries, i, g, f, before, tree);
      }
      assert entries[..|entries|] == entries;
    }

    method CleanEmptyRepoDirectories(f: Faults)
      modifies this`tree
      ensures tree == Swept(old(tree), f)
      ensures forall r :: r in tree ==> r in old(tree) && tree[r] == old(tree)[r]
      ensures forall r :: r in old(tree) && r !in tree <==>
                && r in old(tree) && !f.sweepRoot && old(tree)[r] == Repo(map[])
                && r !in f.sweepRepos && r !in f.sweepRemovals
    {
      if f.sweepRoot {
        return;
      }
      var rest := tree.Keys;
      while rest != {}
        invariant rest <= tree.Keys <= old(tree).Keys
        invariant forall r :: r in tree ==> tree[r] == old(tree)[r]
        invariant forall r :: r in old(tree) && r !in tree ==> SweptAway(old(tree), f, r)
        invariant forall r :: r in tree && r !in rest ==> !SweptAway(old(tree), f, r)
      {
        var r :| r in rest;
        rest := rest - {r};
        if !tree[r].Repo? || r in f.sweepRepos {
          continue;
        }
        if |tree[r].leaves| == 0 && r !in f.sweepRemovals {
          tree := tree - {r};
        }
      }
    }

    /** The whole operation: every scanned worktree gets the outcome it should, and the tree is the
        processed and swept one. */
    method CleanOrphanedWorkspaces(g: Setting, f: Faults) returns (report: Report)
      modifies this`tree
      ensures !rootExists ==> tree == old(tree) && report == Report(0, 0, 0, 0, 0, [])
      ensures rootExists ==> RunOf(old(tree), g, f, tree, report)
    {
      if !rootExists {
        return Report(0, 0, 0, 0, 0, []);
      }
      var entries := ScanWorkspaceDirectories(f);
      var actions := CleanEntries(entries, g, f);
      ghost var middle := tree;
      CleanEmptyRepoDirectories(f);
      report := Report(|entries|, |Filter(actions, IsDeleted)|, |Filter(actions, IsPending)|,
                       |Filter(actions, IsActive)|, |Filter(actions, IsError)|, actions);
      assert IsRun(old(tree), g, f, entries, middle, tree, report);
    }
  }

  predicate IsDeleted(a: Action) { a.outcome.Deleted? }

  predicate IsPending(a: Action) { a.outcome.Pending? }

  predicate IsActive(a: Action) { a.outcome.ActiveLease? }

  predicate IsError(a: Action) { a.outcome.Error? }

  ghost predicate IsRun(before: Tree, g: Setting, f: Faults, entries: seq<Entry>, middle: Tree, after: Tree,
                        report: Report) {
    && (forall e :: e in entries <==> Scanned(before, f, e))
    && (forall i, j :: 0 <= i < j < |entries| ==> entries[i].path != entries[j].path)
    && Processed(before, entries, g, f, middle) && after == Swept(middle, f)
    && |report.actions| == |entries|
    && (forall i :: 0 <= i < |entries| ==> report.actions[i] == Action(entries[i], OutcomeOf(g, f, entries[i])))
    && report == Report(|entries|, |Filter(report.actions, IsDeleted)|, |Filter(report.actions, IsPending)|,
                        |Filter(report.actions, IsActive)|, |Filter(report.actions, IsError)|, report.actions)
  }

  ghost predicate RunOf(before: Tree, g: Setting, f: Faults, after: Tree, report: Report) {
    exists entries, middle :: IsRun(before, g, f, entries, middle, after, report)
  }

  lemma DoomedSnoc(entries: seq<Entry>, i: nat, g: Setting, f: Faults, p: Path)
    requires i < |entries|
    ensures Doomed(entries[..i + 1], g, f, p) <==>
            Doomed(entries[..i], g, f, p) || (entries[i].path == p && Removes(g, f, entries[i]))
  {
    assert entries[..i + 1] == entries[..i] + [entries[i]];
    if Doomed(entries[..i + 1], g, f, p) {
      var e :| e in entries[..i + 1] && e.path == p && Removes(g, f, e);
      assert e in entries[..i] || e == entries[i];
    }
    if Doomed(entries[..i], g, f, p) {
      var e :| e in entries[..i] && e.path == p && Removes(g, f, e);
      assert e in entries[..i + 1];
    }
    assert entries[i] in entries[..i + 1];
  }

  lemma {:induction false} OneMoreProcessed(start: Tree, entries: seq<Entry>, i: nat, g: Setting, f: Faults,
                                            before: Tree, after: Tree)
    requires i < |entries| && Processed(start, entries[..i], g, f, before)
    requires after.Keys == before.Keys && forall r :: r in after ==> (after[r].Repo? <==> before[r].Repo?)
    requires var e := entries[i];
             forall q :: LeafAt(after, q) ==
               if q != e.path || !Removes(g, f, e) then LeafAt(before, q)
               else if e.path in f.removals then Some(f.removals[e.path]) else None
    ensures Processed(start, entries[..i + 1], g, f, after)
  {
    forall p
      ensures LeafAt(after, p) == LeafAfter(start, entries[..i + 1], g, f, p)
    {
      DoomedSnoc(entries, i, g, f, p);
      assert LeafAt(before, p) == LeafAfter(start, entries[..i], g, f, p);
    }
  }
}
