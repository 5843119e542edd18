/** What a cleanup run may remove, must remove, and does when repeated. */
module WorkspaceSafety {

  import opened Wrappers
  import opened Collections
  import opened StateMachines
  import opened WorkspaceCleanup
  import LeaseStore
  import opened LeaseRuns

  /** A worktree that no lease holds and that is as many days old as the retention period, in milliseconds. */
  ghost predicate Orphaned(tree: Tree, g: Setting, p: Path) {
    && LeafAt(tree, p).Some? && LeafAt(tree, p).value.Worktree?
    && !HasActiveLeaseForTask(g.leases, p.taskId)
    && g.now - LeafAt(tree, p).value.mtime >= g.retentionDays * (24 * 60 * 60 * 1000)
  }

  lemma SweepKeepsLeaves(tree: Tree, f: Faults, p: Path)
    ensures LeafAt(Swept(tree, f), p) == LeafAt(tree, p)
  {
  }

  lemma OnlyOrphansDoomed(before: Tree, entries: seq<Entry>, g: Setting, f: Faults, p: Path)
    requires forall e :: e in entries <==> Scanned(before, f, e)
    ensures Doomed(entries, g, f, p) ==> Orphaned(before, g, p)
    ensures f == NO_FAULTS && Orphaned(before, g, p) ==> Doomed(entries, g, f, p)
  {
    if Doomed(entries, g, f, p) {
      var e :| e in entries && e.path == p && Removes(g, f, e);
      assert Scanned(before, f, e);
    }
    if f == NO_FAULTS && Orphaned(before, g, p) {
      var e := Entry(p, LeafAt(before, p).value.mtime);
      assert Scanned(before, f, e);
      assert e in entries && Removes(g, f, e);
    }
  }

  /** Whatever fails along the way, only orphaned worktrees are ever touched: leased ones, young ones
      and plain files keep their place and their contents, also through the sweep. */
  lemma OnlyOrphansAreTouched(before: Tree, g: Setting, f: Faults, after: Tree, report: Report, p: Path)
    requires RunOf(before, g, f, after, report) && !Orphaned(before, g, p)
    ensures LeafAt(after, p) == LeafAt(before, p)
  {
    var entries: seq<Entry>, middle: Tree :| IsRun(before, g, f, entries, middle, after, report);
    OnlyOrphansDoomed(before, entries, g, f, p);
    assert LeafAt(middle, p) == LeafAfter(before, entries, g, f, p);
    SweepKeepsLeaves(middle, f, p);
  }

  /** The sweep takes only directories with nothing in them: a repository directory that is gone
      held nothing but orphaned worktrees. */
  lemma OnlyEmptiedRepositoriesGo(before: Tree, g: Setting, f: Faults, after: Tree, report: Report, r: Name)
    requires RunOf(before, g, f, after, report) && r in before && r !in after
    ensures before[r].Repo? && forall t :: t in before[r].leaves ==> Orphaned(before, g, Path(r, t))
  {
    var entries: seq<Entry>, middle: Tree :| IsRun(before, g, f, entries, middle, after, report);
    assert SweptAway(middle, f, r);
    forall t | t in before[r].leaves
      ensures Orphaned(before, g, Path(r, t))
    {
      OnlyOrphansDoomed(before, entries, g, f, Path(r, t));
      assert LeafAt(middle, Path(r, t)) == LeafAfter(before, entries, g, f, Path(r, t));
      assert LeafAt(middle, Path(r, t)) == None;
    }
  }

  /** A run without faults removes every orphan and leaves no empty repository directory. */
  lemma FaultFreeRunIsComplete(before: Tree, g: Setting, after: Tree, report: Report, p: Path)
    requires RunOf(before, g, NO_FAULTS, after, report)
    ensures LeafAt(after, p) == if Orphaned(before, g, p) then None else LeafAt(before, p)
    ensures p.repoId in after && after[p.repoId].Repo? ==> after[p.repoId].leaves != map[]
  {
    var entries: seq<Entry>, middle: Tree :| IsRun(before, g, NO_FAULTS, entries, middle, after, report);
    OnlyOrphansDoomed(before, entries, g, NO_FAULTS, p);
    assert LeafAt(middle, p) == LeafAfter(before, entries, g, NO_FAULTS, p);
    SweepKeepsLeaves(middle, NO_FAULTS, p);
  }

  /** The four outcome counts add up to the number scanned. */
  lemma FourCountsSum(before: Tree, g: Setting, f: Faults, after: Tree, report: Report)
    requires RunOf(before, g, f, after, report)
    ensures report.deleted + report.pending + report.activeLease + report.errors == report.scanned == |report.actions|
  {
    FourWaySplit(report.actions);
  }

  lemma {:induction false} FourWaySplit(actions: seq<Action>)
    ensures |Filter(actions, IsDeleted)| + |Filter(actions, IsPending)| + |Filter(actions, IsActive)|
            + |Filter(actions, IsError)| == |actions|
  {
    if actions != [] {
      FourWaySplit(actions[1..]);
    }
  }

  lemma {:induction false} NoneFiltered(actions: seq<Action>)
    requires forall a :: a in actions ==> !IsDeleted(a)
    ensures Filter(actions, IsDeleted) == []
  {
    if actions != [] {
      assert actions[0] in actions;
      NoneFiltered(actions[1..]);
    }
  }

  lemma SameLeavesSameTree(a: Tree, b: Tree)
    requires a.Keys == b.Keys && forall r :: r in a ==> (a[r].Repo? <==> b[r].Repo?)
    requires forall p :: LeafAt(a, p) == LeafAt(b, p)
    ensures a == b
  {
    forall r | r in a
      ensures a[r] == b[r]
    {
      if a[r].Repo? {
        forall t
          ensures t in a[r].leaves <==> t in b[r].leaves
          ensures t in a[r].leaves ==> a[r].leaves[t] == b[r].leaves[t]
        {
          assert LeafAt(a, Path(r, t)) == LeafAt(b, Path(r, t));
        }
        assert a[r].leaves == b[r].leaves;
      }
    }
  }

  /** With no orphan and no empty directory there is nothing to do, whatever fails. */
  lemma NothingToClean(tree: Tree, g: Setting, f: Faults, after: Tree, report: Report)
    requires RunOf(tree, g, f, after, report)
    requires forall p :: !Orphaned(tree, g, p)
    requires forall r :: r in tree && tree[r].Repo? ==> tree[r].leaves != map[]
    ensures after == tree && report.deleted == 0
  {
    var entries: seq<Entry>, middle: Tree :| IsRun(tree, g, f, entries, middle, after, report);
    forall p
      ensures LeafAt(middle, p) == LeafAt(tree, p)
    {
      OnlyOrphansDoomed(tree, entries, g, f, p);
      assert LeafAt(middle, p) == LeafAfter(tree, entries, g, f, p);
    }
    SameLeavesSameTree(middle, tree);
    assert Swept(tree, f) == tree;
    forall i | 0 <= i < |entries|
      ensures !IsDeleted(report.actions[i])
    {
      assert Scanned(tree, f, entries[i]) && !Orphaned(tree, g, entries[i].path);
    }
    NoneFiltered(report.actions);
  }

  /** After a run without faults a second one at the same instant deletes and changes nothing. */
  lemma SecondRunDeletesNothing(before: Tree, g: Setting, once: Tree, first: Report, f: Faults, twice: Tree,
                                second: Report)
    requires RunOf(before, g, NO_FAULTS, once, first) && RunOf(once, g, f, twice, second)
    ensures twice == once && second.deleted == 0
  {
    forall p
      ensures !Orphaned(once, g, p)
    {
      FaultFreeRunIsComplete(before, g, once, first, p);
    }
    forall r | r in once && once[r].Repo?
      ensures once[r].leaves != map[]
    {
      FaultFreeRunIsComplete(before, g, once, first, Path(r, ""));
    }
    NothingToClean(once, g, f, twice, second);
  }

  /** A worktree younger than the retention period stays in every run, leased or not, whatever fails. */
  lemma YoungWorktreeStays(before: Tree, g: Setting, f: Faults, after: Tree, report: Report, p: Path)
    requires RunOf(before, g, f, after, report)
    requires LeafAt(before, p).Some? && LeafAt(before, p).value.Worktree?
    requires g.now - LeafAt(before, p).value.mtime < g.retentionDays * (24 * 60 * 60 * 1000)
    ensures LeafAt(after, p) == LeafAt(before, p)
  {
    OnlyOrphansAreTouched(before, g, f, after, report, p);
  }

  /** Without faults an unleased worktree is gone exactly when it is not younger than that. */
  lemma UnleasedGoneIff(before: Tree, g: Setting, after: Tree, report: Report, p: Path)
    requires RunOf(before, g, NO_FAULTS, after, report) && !HasActiveLeaseForTask(g.leases, p.taskId)
    requires LeafAt(before, p).Some? && LeafAt(before, p).value.Worktree?
    ensures LeafAt(after, p) == None <==>
            !(g.now - LeafAt(before, p).value.mtime < g.retentionDays * (24 * 60 * 60 * 1000))
  {
    FaultFreeRunIsComplete(before, g, after, report, p);
  }

  /** The report says what happened: an action per scanned worktree, an error for a failed query or removal,
      an active lease for a protected task, pending for a young worktree and deleted for the rest. */
  lemma ActionsTellTheTruth(before: Tree, g: Setting, f: Faults, after: Tree, report: Report, a: Action)
    requires RunOf(before, g, f, after, report) && a in report.actions
    ensures Scanned(before, f, a.entry)
    ensures var young := g.now - a.entry.mtime < g.retentionDays * (24 * 60 * 60 * 1000);
            var leased := exists id :: id in g.leases && Holds(g.leases[id], a.entry.path.taskId);
            var asked := a.entry.path.taskId !in f.queries;
            && (a.outcome.ActiveLease? <==> asked && leased)
            && (a.outcome.Pending? <==> asked && !leased && young)
            && (a.outcome.Deleted? <==> asked && !leased && !young && a.entry.path !in f.removals)
            && (a.outcome.Error? <==> !asked || (!leased && !young && a.entry.path in f.removals))
            && (a.outcome.Deleted? ==> LeafAt(after, a.entry.path) == None)
  {
    var entries: seq<Entry>, middle: Tree :| IsRun(before, g, f, entries, middle, after, report);
    var i :| 0 <= i < |report.actions| && report.actions[i] == a;
    assert entries[i] in entries && a == Action(entries[i], OutcomeOf(g, f, entries[i]));
    ProtectedIff(g.leases, a.entry.path.taskId);
    if a.outcome.Deleted? {
      assert Doomed(entries, g, f, a.entry.path);
      assert LeafAt(middle, a.entry.path) == LeafAfter(before, entries, g, f, a.entry.path);
      SweepKeepsLeaves(middle, f, a.entry.path);
    }
  }

  /** The days shown for a pending worktree are the least whole number after which it may go. */
  lemma DaysRemainingExact(g: Setting, f: Faults, e: Entry, days: int)
    requires OutcomeOf(g, f, e).Pending?
    ensures days >= OutcomeOf(g, f, e).daysRemaining <==>
            g.now + days * (24 * 60 * 60 * 1000) - e.mtime >= g.retentionDays * (24 * 60 * 60 * 1000)
    ensures OutcomeOf(g, f, e).daysRemaining >= 1
  {
    var left := RetentionMs(g) - (g.now - e.mtime);
    var d := DaysRemaining(left);
    assert (d - 1) * MS_PER_DAY < left <= d * MS_PER_DAY;
    if days >= d {
      assert days * MS_PER_DAY >= d * MS_PER_DAY;
    } else {
      assert days * MS_PER_DAY <= (d - 1) * MS_PER_DAY;
    }
  }

  // ----- Leases and worktrees -----

  /** A request to move the lease to RECLAIMED that the state machine would grant. */
  predicate Retires(e: LeaseStore.Event, l: LeaseStore.LeaseId) {
    e.TransitionLease? && e.leaseId == l && e.leaseTarget == Reclaimed && ReclaimRequested in e.leaseContext
  }

  predicate RetiresIn(events: seq<LeaseStore.Event>, l: LeaseStore.LeaseId) {
    exists i :: 0 <= i < |events| && Retires(events[i], l)
  }

  lemma RetiresInSnoc(events: seq<LeaseStore.Event>, l: LeaseStore.LeaseId)
    requires events != []
    ensures RetiresIn(events, l) <==> RetiresIn(Init(events), l) || Retires(Last(events), l)
  {
    assert forall i :: 0 <= i < |events| - 1 ==> Init(events)[i] == events[i];
    if RetiresIn(Init(events), l) {
      var i :| 0 <= i < |Init(events)| && Retires(Init(events)[i], l);
      assert Retires(events[i], l);
    }
    assert Retires(Last(events), l) ==> Retires(events[|events| - 1], l);
  }

  ghost predicate EndedBadly(lease: LeaseStore.Lease) {
    lease.status == TimedOut || lease.status == Crashed
  }

  lemma PinnedStep(s: LeaseStore.Store, e: LeaseStore.Event, l: LeaseStore.LeaseId)
    requires l in s.leases && (EndedBadly(s.leases[l]) || s.leases[l].status == Reclaimed)
    ensures var s' := LeaseStore.Next(s, e);
            && l in s'.leases
            && (EndedBadly(s.leases[l]) && !Retires(e, l) ==> s'.leases[l] == s.leases[l])
            && (!EndedBadly(s.leases[l]) || Retires(e, l) ==> s'.leases[l].status == Reclaimed)
  {
  }

  /** A reclaim leaves its lease TIMED_OUT or CRASHED. Such a row is as it was after a run exactly when
      the run holds no granted move of it to RECLAIMED, and exactly then it still protects the worktree. */
  lemma {:induction false} ReclaimPinsWorktreeIff(s: LeaseStore.Store, events: seq<LeaseStore.Event>,
                                                  l: LeaseStore.LeaseId)
    requires l in s.leases && EndedBadly(s.leases[l])
    ensures var s' := LeaseStore.After(s, events);
            && l in s'.leases
            && (s'.leases[l] == s.leases[l] <==> !RetiresIn(events, l))
            && (s'.leases[l].status !in TERMINAL_LEASE_STATUSES <==> !RetiresIn(events, l))
            && (RetiresIn(events, l) ==> s'.leases[l].status == Reclaimed)
  {
    if events != [] {
      ReclaimPinsWorktreeIff(s, Init(events), l);
      RetiresInSnoc(events, l);
      PinnedStep(LeaseStore.After(s, Init(events)), Last(events), l);
    }
  }

  /** So until then no cleanup, at any time and under any retention, removes the worktree. */
  lemma PinnedWorktreeSurvives(s: LeaseStore.Store, events: seq<LeaseStore.Event>, l: LeaseStore.LeaseId, tree: Tree,
                               now: int, retentionDays: int, f: Faults, after: Tree, report: Report, repo: Name)
    requires l in s.leases && EndedBadly(s.leases[l]) && !RetiresIn(events, l)
    requires RunOf(tree, Setting(LeaseStore.After(s, events).leases, now, retentionDays), f, after, report)
    ensures LeafAt(after, Path(repo, s.leases[l].taskId)) == LeafAt(tree, Path(repo, s.leases[l].taskId))
  {
    var leases := LeaseStore.After(s, events).leases;
    ReclaimPinsWorktreeIff(s, events, l);
    ProtectedIff(leases, s.leases[l].taskId);
    OnlyOrphansAreTouched(tree, Setting(leases, now, retentionDays), f, after, report, Path(repo, s.leases[l].taskId));
  }

  /** A run that leases a task, starts its worker and reclaims the lease. */
  function ReclaimedRun(t: Name, l: LeaseStore.LeaseId, policy: LeaseStore.RetryPolicy): seq<LeaseStore.Event> {
    StartedRun(t, l) + [LeaseStore.ReclaimLease(l, LeaseStore.MissedHeartbeats, policy, None, false)]
  }

  /** Such a worktree arises: a reclaimed worker's is kept by every cleanup of every later run that does
      not retire its lease. */
  lemma PinnedWorktreeArises(t: Name, l: LeaseStore.LeaseId, policy: LeaseStore.RetryPolicy,
                             events: seq<LeaseStore.Event>, tree: Tree, now: int, retentionDays: int, f: Faults,
                             after: Tree, report: Report, repo: Name)
    requires !RetiresIn(events, l)
    requires var s := LeaseStore.After(LeaseStore.EMPTY, ReclaimedRun(t, l, policy));
             RunOf(tree, Setting(LeaseStore.After(s, events).leases, now, retentionDays), f, after, report)
    ensures LeafAt(after, Path(repo, t)) == LeafAt(tree, Path(repo, t))
  {
    LeaseTimesOut(t, l, policy);
    var s := LeaseStore.After(LeaseStore.EMPTY, ReclaimedRun(t, l, policy));
    PinnedWorktreeSurvives(s, events, l, tree, now, retentionDays, f, after, report, repo);
  }
}
