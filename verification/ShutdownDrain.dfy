/** Waiting for active leases before shutdown: a polling loop with a deadline. */
module ShutdownDrain {

  import opened Wrappers
  import opened StateMachines
  import LeaseStore
  import opened LeaseRuns

  type Leases = map<LeaseStore.LeaseId, LeaseStore.Lease>

  datatype DrainResult = DrainResult(drained: bool, remainingLeases: nat, elapsedMs: int)

  predicate HoldsShutdown(status: LeaseStatus) {
    status == Starting || status == Running || status == Heartbeating || status == Completing
  }

  /** The lease count; a database that cannot be read counts as none. */
  function CountActiveLeases(database: Option<Leases>): nat {
    match database
    case None => 0
    case Some(leases) => |set id | id in leases && HoldsShutdown(leases[id].status)|
  }

  /** The count is zero exactly when the database cannot be read, or no lease in it is starting,
      running, heartbeating or completing. */
  lemma NothingCountedIff(database: Option<Leases>)
    ensures CountActiveLeases(database) == 0 <==>
            database.None? || forall l :: l in database.value ==>
              database.value[l].status !in {Starting, Running, Heartbeating, Completing}
  {
    if database.Some? {
      var leases := database.value;
      var counted := set id | id in leases && HoldsShutdown(leases[id].status);
      if l :| l in leases && leases[l].status in {Starting, Running, Heartbeating, Completing} {
        assert l in counted;
      } else {
        assert counted == {};
      }
    }
  }

  /** What the world shows the loop: the database and the clock at each check, and the clock at the end. */
  datatype World = World(database: nat -> Option<Leases>, clock: nat -> int, clockAtEnd: int)

  /** Check `i` finds leases and time left, so the loop sleeps once more. */
  ghost predicate Waits(w: World, start: int, timeoutMs: int, i: nat) {
    CountActiveLeases(w.database(i)) > 0 && w.clock(i) - start < timeoutMs
  }

  /** A check that ends the loop: every earlier one waited, this one does not. */
  ghost predicate Ends(w: World, start: int, timeoutMs: int, n: nat) {
    !Waits(w, start, timeoutMs, n) && forall i: nat :: i < n ==> Waits(w, start, timeoutMs, i)
  }

  /** The answer of a drain whose loop ends at check `n`: that check alone decides. No lease, drained;
      otherwise the timeout has elapsed, and its count is reported. */
  ghost predicate Drains(w: World, start: int, timeoutMs: int, n: nat, r: DrainResult) {
    && Ends(w, start, timeoutMs, n)
    && (r.drained <==> CountActiveLeases(w.database(n)) == 0)
    && r.remainingLeases == CountActiveLeases(w.database(n))
    && (!r.drained ==> r.elapsedMs == w.clock(n) - start >= timeoutMs)
    && (r.drained ==> r.elapsedMs == w.clockAtEnd - start)
  }

  /** The loop, in any world in which some check ends it; it stops at the first such check. */
  method Drain(w: World, start: int, timeoutMs: int, ghost end: nat) returns (r: DrainResult)
    requires !Waits(w, start, timeoutMs, end)
    ensures exists n: nat :: n <= end && Drains(w, start, timeoutMs, n, r)
  {
    var i := 0;
    var remaining := CountActiveLeases(w.database(i));
    while remaining > 0
      invariant 0 <= i <= end && remaining == CountActiveLeases(w.database(i))
      invariant forall k: nat :: k < i ==> Waits(w, start, timeoutMs, k)
      decreases end - i
    {
      var elapsed := w.clock(i) - start;
      if elapsed >= timeoutMs {
        r := DrainResult(false, remaining, elapsed);
        assert Drains(w, start, timeoutMs, i, r);
        return;
      }
      assert Waits(w, start, timeoutMs, i);
      i := i + 1;
      remaining := CountActiveLeases(w.database(i));
    }
    r := DrainResult(true, 0, w.clockAtEnd - start);
    assert Drains(w, start, timeoutMs, i, r);
  }

  // ----- When the loop ends -----

  ghost predicate EachSleepTakes(w: World, interval: int) {
    forall i: nat :: w.clock(i + 1) - w.clock(i) >= interval
  }

  function CeilDiv(a: int, b: int): (r: int)
    requires b > 0
    ensures (r - 1) * b < a <= r * b
  {
    (a + b - 1) / b
  }

  lemma {:induction false} ClockAdvances(w: World, interval: int, i: nat)
    requires EachSleepTakes(w, interval)
    ensures w.clock(i) >= w.clock(0) + i * interval
  {
    if i > 0 {
      ClockAdvances(w, interval, i - 1);
      assert w.clock(i - 1 + 1) - w.clock(i - 1) >= interval;
    }
  }

  /** When each sleep takes at least a positive interval, the loop ends whatever the leases do, after
      at most ceil(timeout / interval) sleeps. */
  lemma {:induction false} EndsInTime(w: World, start: int, timeoutMs: int, interval: int) returns (end: nat)
    requires interval > 0 && EachSleepTakes(w, interval) && start <= w.clock(0)
    ensures !Waits(w, start, timeoutMs, end)
    ensures end == 0 || end <= CeilDiv(timeoutMs, interval)
  {
    var c := CeilDiv(timeoutMs, interval);
    end := if c < 0 then 0 else c;
    ClockAdvances(w, interval, end);
    assert end * interval >= timeoutMs by {
      if c < 0 {
        assert c * interval <= 0;
      }
    }
  }

  /** So a drain sleeps at most that often. */
  lemma {:induction false} PollBound(w: World, start: int, timeoutMs: int, interval: int, n: nat)
    requires interval > 0 && EachSleepTakes(w, interval) && start <= w.clock(0)
    requires Ends(w, start, timeoutMs, n)
    ensures n == 0 || n <= CeilDiv(timeoutMs, interval)
  {
    var end := EndsInTime(w, start, timeoutMs, interval);
    assert n > end ==> Waits(w, start, timeoutMs, end);
  }

  /** The loop ends nowhere exactly when every check waits. */
  lemma {:induction false} NeverEndsIff(w: World, start: int, timeoutMs: int)
    ensures (forall n: nat :: !Ends(w, start, timeoutMs, n)) <==> (forall i: nat :: Waits(w, start, timeoutMs, i))
  {
    if i: nat :| !Waits(w, start, timeoutMs, i) {
      var n := FirstEnd(w, start, timeoutMs, i);
    }
  }

  lemma {:induction false} FirstEnd(w: World, start: int, timeoutMs: int, i: nat) returns (n: nat)
    requires !Waits(w, start, timeoutMs, i)
    ensures n <= i && Ends(w, start, timeoutMs, n)
  {
    if k: nat :| k < i && !Waits(w, start, timeoutMs, k) {
      n := FirstEnd(w, start, timeoutMs, k);
    } else {
      n := i;
    }
  }

  // ----- What the answer means -----

  /** Check `k` cannot read the database or sees no lease at work, and every check before it came in time. */
  ghost predicate QuietInTime(w: World, start: int, timeoutMs: int, k: nat) {
    && (w.database(k).None? || forall l :: l in w.database(k).value ==>
          w.database(k).value[l].status !in {Starting, Running, Heartbeating, Completing})
    && forall i: nat :: i < k ==> w.clock(i) - start < timeoutMs
  }

  /** Drained means exactly: some check that the timeout did not cut off found the database unreadable,
      or no lease in it starting, running, heartbeating or completing. */
  lemma DrainedIff(w: World, start: int, timeoutMs: int, n: nat, r: DrainResult)
    requires Drains(w, start, timeoutMs, n, r)
    ensures r.drained <==> exists k: nat :: QuietInTime(w, start, timeoutMs, k)
  {
    NothingCountedIff(w.database(n));
    if r.drained {
      forall i: nat | i < n
        ensures w.clock(i) - start < timeoutMs
      {
        assert Waits(w, start, timeoutMs, i);
      }
      assert QuietInTime(w, start, timeoutMs, n);
    } else {
      forall k: nat
        ensures !QuietInTime(w, start, timeoutMs, k)
      {
        NothingCountedIff(w.database(k));
        assert k < n ==> Waits(w, start, timeoutMs, k);
        assert w.clock(n) - start >= timeoutMs;
      }
    }
  }

  /** The checks read the lease table of a running system, each after some steps since `s`. */
  ghost predicate Reads(w: World, s: LeaseStore.Store, trace: nat -> seq<LeaseStore.Event>) {
    forall i: nat :: w.database(i) == Some(LeaseStore.After(s, trace(i)).leases)
  }

  /** A completed worker's lease stays COMPLETING for good and holds the shutdown: from then on every
      drain that can read its database runs to the timeout and reports leases remaining. */
  lemma CompletedWorkerForcesTimeout(s: LeaseStore.Store, l: LeaseStore.LeaseId, w: World,
                                     trace: nat -> seq<LeaseStore.Event>, start: int, timeoutMs: int, n: nat,
                                     r: DrainResult)
    requires l in s.leases && s.leases[l].status == Completing && Reads(w, s, trace)
    requires Drains(w, start, timeoutMs, n, r)
    ensures !r.drained && r.remainingLeases > 0 && r.elapsedMs >= timeoutMs
  {
    CompletingForever(s, trace(n), l);
    NothingCountedIff(w.database(n));
  }
}
