/** Heartbeat throttling per worker, with periodic eviction of old entries. */
module HeartbeatThrottle {

  import opened Collections

  const HEARTBEAT_THROTTLE_MS := 5_000
  const THROTTLE_CLEANUP_AGE_MS := 30_000

  type WorkerId = string

  /** Time of the last broadcast per worker, in milliseconds. */
  type LastBroadcast = map<WorkerId, int>

  predicate Passes(last: LastBroadcast, worker: WorkerId, now: int) {
    now - (if worker in last then last[worker] else 0) >= HEARTBEAT_THROTTLE_MS
  }

  function Pruned(last: LastBroadcast, now: int): LastBroadcast {
    map w | w in last && last[w] >= now - THROTTLE_CLEANUP_AGE_MS :: last[w]
  }

  function Beaten(last: LastBroadcast, worker: WorkerId, now: int): LastBroadcast {
    if Passes(last, worker, now) then last[worker := now] else last
  }

  class Throttle {

    var last: LastBroadcast

    constructor ()
      ensures last == map[]
    {
      last := map[];
    }

    /** The time is recorded before the broadcaster is tried, so a failed delivery also throttles. */
    method BroadcastHeartbeat(worker: WorkerId, now: int, broadcasterThrows: bool) returns (sent: bool)
      modifies this
      ensures sent <==> Passes(old(last), worker, now) && !broadcasterThrows
      ensures last == Beaten(old(last), worker, now)
    {
      var lastBroadcast := if worker in last then last[worker] else 0;
      if now - lastBroadcast < HEARTBEAT_THROTTLE_MS {
        return false;
      }
      last := last[worker := now];
      sent := !broadcasterThrows;
    }

    method CleanupThrottleMap(now: int)
      modifies this
      ensures last == Pruned(old(last), now)
    {
      var cutoff := now - THROTTLE_CLEANUP_AGE_MS;
      var rest := last.Keys;
      while rest != {}
        invariant rest <= last.Keys
        invariant forall w :: w in last ==> w in old(last) && last[w] == old(last)[w]
        invariant forall w :: w in old(last) ==> w in last || old(last)[w] < cutoff
        invariant forall w :: w in last && w !in rest ==> last[w] >= cutoff
      {
        var w :| w in rest;
        rest := rest - {w};
        if last[w] < cutoff {
          last := last - {w};
        }
      }
    }
  }

  // ----- Runs -----

  datatype Event = Heartbeat(worker: WorkerId, now: int) | Cleanup(now: int)

  /** The map after a run, for the service that evicts and for one that never does. */
  function After(evicts: bool, run: seq<Event>): LastBroadcast {
    if run == [] then map[]
    else
      var last := After(evicts, Init(run));
      match Last(run)
      case Heartbeat(worker, now) => Beaten(last, worker, now)
      case Cleanup(now) => if evicts then Pruned(last, now) else last
  }

  ghost predicate Accepted(evicts: bool, run: seq<Event>, i: nat)
    requires i < |run|
  {
    run[i].Heartbeat? && Passes(After(evicts, run[..i]), run[i].worker, run[i].now)
  }

  /** The clock never reads more than `d` below an earlier reading. */
  ghost predicate FallsAtMost(run: seq<Event>, d: int) {
    forall i, j :: 0 <= i < j < |run| ==> run[j].now >= run[i].now - d
  }

  lemma FallsAtMostPrefix(run: seq<Event>, d: int, i: nat)
    requires FallsAtMost(run, d) && i <= |run|
    ensures FallsAtMost(run[..i], d)
  {
  }

  /** The largest fall of the clock that eviction still hides. */
  const SLACK := THROTTLE_CLEANUP_AGE_MS - HEARTBEAT_THROTTLE_MS + 1

  /** What eviction may lose: entries so old that no heartbeat from now on is throttled by them. */
  ghost predicate LosesOnlyOld(run: seq<Event>, kept: LastBroadcast, full: LastBroadcast) {
    && (forall w :: w in full ==> full[w] >= HEARTBEAT_THROTTLE_MS)
    && (forall w :: w in kept ==> w in full && kept[w] == full[w])
    && (forall w :: w in full && w !in kept ==> exists k :: Outdates(run, k, full[w]))
  }

  ghost predicate Outdates(run: seq<Event>, k: int, time: int) {
    0 <= k < |run| && time < run[k].now - THROTTLE_CLEANUP_AGE_MS
  }

  lemma {:induction false} EvictionLosesOnlyOld(run: seq<Event>)
    requires FallsAtMost(run, SLACK)
    ensures LosesOnlyOld(run, After(true, run), After(false, run))
  {
    if run != [] {
      var most, e := Init(run), Last(run);
      FallsAtMostPrefix(run, SLACK, |run| - 1);
      EvictionLosesOnlyOld(most);
      var kept, full := After(true, most), After(false, most);
      if e.Heartbeat? {
        SameVerdict(run, |most|, e.worker);
      }
      forall w | w in After(false, run) && w !in After(true, run)
        ensures exists k :: Outdates(run, k, After(false, run)[w])
      {
        if w in kept {
          assert Outdates(run, |most|, full[w]);
        } else {
          var k :| Outdates(most, k, full[w]);
          assert Outdates(run, k, full[w]);
        }
      }
    }
  }

  lemma SameVerdict(run: seq<Event>, i: nat, worker: WorkerId)
    requires i < |run| && FallsAtMost(run, SLACK)
    requires LosesOnlyOld(run[..i], After(true, run[..i]), After(false, run[..i]))
    ensures Passes(After(true, run[..i]), worker, run[i].now) <==> Passes(After(false, run[..i]), worker, run[i].now)
  {
    var kept, full := After(true, run[..i]), After(false, run[..i]);
    if worker in full && worker !in kept {
      var k :| Outdates(run[..i], k, full[worker]);
      assert run[i].now >= run[k].now - SLACK;
    }
  }

  lemma EvictionInvisible(run: seq<Event>, i: nat)
    requires i < |run| && FallsAtMost(run, SLACK)
    ensures Accepted(true, run, i) <==> Accepted(false, run, i)
  {
    FallsAtMostPrefix(run, SLACK, i);
    EvictionLosesOnlyOld(run[..i]);
    if run[i].Heartbeat? {
      SameVerdict(run, i, run[i].worker);
    }
  }

  ghost predicate InvisibleUpTo(d: int) {
    forall run, i: nat :: i < |run| && FallsAtMost(run, d) ==> (Accepted(true, run, i) <==> Accepted(false, run, i))
  }

  /** Eviction can be seen by no run whose clock falls by at most `d`, exactly when `d` is at most
      25 001 ms. A clock that never falls is the case zero. */
  lemma {:induction false} EvictionInvisibleIff(d: nat)
    ensures InvisibleUpTo(d) <==> d <= 25_001
  {
    if d <= SLACK {
      forall run, i: nat | i < |run| && FallsAtMost(run, d)
        ensures Accepted(true, run, i) <==> Accepted(false, run, i)
      {
        assert FallsAtMost(run, SLACK);
        EvictionInvisible(run, i);
      }
    } else {
      EvictionSeen("w");
      var run := [Heartbeat("w", 10_000), Cleanup(40_001), Heartbeat("w", 14_999)];
      assert FallsAtMost(run, d);
    }
  }

  lemma EvictionSeen(w: WorkerId)
    ensures var run := [Heartbeat(w, 10_000), Cleanup(40_001), Heartbeat(w, 14_999)];
            Accepted(true, run, 0) && Accepted(true, run, 2) && !Accepted(false, run, 2) && FallsAtMost(run, SLACK + 1)
  {
    var run := [Heartbeat(w, 10_000), Cleanup(40_001), Heartbeat(w, 14_999)];
    var one, two := [run[0]], [run[0], run[1]];
    assert Init(one) == [] && Last(one) == run[0];
    assert Init(two) == one && Last(two) == run[1] && run[..2] == two;
    assert After(true, one) == After(false, one) == map[w := 10_000];
    assert After(true, two) == map[] && After(false, two) == map[w := 10_000];
  }

  // ----- The answers, read off the history -----

  /** No accepted heartbeat of the same worker in the last five seconds. */
  ghost predicate Quiet(run: seq<Event>, i: nat)
    requires i < |run| && run[i].Heartbeat?
  {
    forall j: nat :: j < i && Accepted(true, run, j) && run[j].worker == run[i].worker ==>
                       run[i].now - run[j].now >= 5_000
  }

  /** The full map holds the time of each worker's latest accepted heartbeat. */
  ghost predicate HoldsLatest(run: seq<Event>, n: nat, last: LastBroadcast)
    requires n <= |run|
  {
    && (forall w :: w in last ==> exists j :: AcceptedAt(run, n, j, w, last[w]))
    && (forall j: nat :: j < n && Accepted(false, run, j) ==>
        run[j].worker in last && run[j].now <= last[run[j].worker])
  }

  ghost predicate AcceptedAt(run: seq<Event>, n: nat, j: int, w: WorkerId, time: int)
    requires n <= |run|
  {
    0 <= j < n && Accepted(false, run, j) && run[j].worker == w && run[j].now == time
  }

  /** Whatever the clock does: an accepted time is later than the one it replaces. */
  lemma {:induction false} MapHoldsLatest(run: seq<Event>, n: nat)
    requires n <= |run|
    ensures HoldsLatest(run, n, After(false, run[..n]))
  {
    if n > 0 {
      MapHoldsLatest(run, n - 1);
      assert Init(run[..n]) == run[..n - 1] && Last(run[..n]) == run[n - 1];
      HoldsOneMore(run, n, After(false, run[..n - 1]), After(false, run[..n]));
    }
  }

  lemma {:induction false} HoldsOneMore(run: seq<Event>, n: nat, before: LastBroadcast, last: LastBroadcast)
    requires 0 < n <= |run| && before == After(false, run[..n - 1]) && HoldsLatest(run, n - 1, before)
    requires last == if Accepted(false, run, n - 1) then before[run[n - 1].worker := run[n - 1].now] else before
    ensures HoldsLatest(run, n, last)
  {
    forall w | w in last
      ensures exists j :: AcceptedAt(run, n, j, w, last[w])
    {
      if Accepted(false, run, n - 1) && run[n - 1].worker == w {
        assert AcceptedAt(run, n, n - 1, w, last[w]);
      } else {
        var j :| AcceptedAt(run, n - 1, j, w, before[w]);
        assert AcceptedAt(run, n, j, w, last[w]);
      }
    }
  }

  /** With a clock that falls by at most 25 001 ms, the evicting service accepts a heartbeat exactly when
      five seconds have passed since time zero and since the worker's every earlier accepted one. */
  lemma {:induction false} AcceptedIffQuiet(run: seq<Event>, i: nat)
    requires FallsAtMost(run, SLACK) && i < |run| && run[i].Heartbeat?
    ensures Accepted(true, run, i) <==> run[i].now >= 5_000 && Quiet(run, i)
  {
    EvictionInvisible(run, i);
    MapHoldsLatest(run, i);
    QuietEitherWay(run, i);
    var last, w := After(false, run[..i]), run[i].worker;
    if w in last {
      var j :| AcceptedAt(run, i, j, w, last[w]);
      AcceptedLate(run, j);
    }
  }

  lemma {:induction false} QuietEitherWay(run: seq<Event>, i: nat)
    requires FallsAtMost(run, SLACK) && i < |run| && run[i].Heartbeat?
    ensures Quiet(run, i) <==>
            forall j: nat :: j < i && Accepted(false, run, j) && run[j].worker == run[i].worker ==>
                               run[i].now - run[j].now >= HEARTBEAT_THROTTLE_MS
  {
    forall j: nat | j < i
      ensures Accepted(true, run, j) <==> Accepted(false, run, j)
    {
      EvictionInvisible(run, j);
    }
  }

  lemma {:induction false} AcceptedLate(run: seq<Event>, j: nat)
    requires FallsAtMost(run, SLACK) && j < |run| && Accepted(false, run, j)
    ensures run[j].now >= HEARTBEAT_THROTTLE_MS
  {
    FallsAtMostPrefix(run, SLACK, j);
    EvictionLosesOnlyOld(run[..j]);
  }

  ghost predicate Spaced(run: seq<Event>, i: nat, j: nat)
    requires i < j < |run|
  {
    Accepted(true, run, i) && Accepted(true, run, j) && run[i].worker == run[j].worker ==>
      run[j].now - run[i].now >= 5_000
  }

  /** Two accepted heartbeats of one worker are at least five seconds apart, on such a clock. */
  lemma {:induction false} AcceptedAreApart(run: seq<Event>, i: nat, j: nat)
    requires FallsAtMost(run, SLACK) && i < j < |run|
    ensures Spaced(run, i, j)
  {
    if Accepted(true, run, j) {
      AcceptedIffQuiet(run, j);
    }
  }

  ghost predicate SpacedUpTo(d: int) {
    forall run, i: nat, j: nat :: i < j < |run| && FallsAtMost(run, d) ==> Spaced(run, i, j)
  }

  /** The spacing holds on every clock that falls by at most `d` exactly when `d` is at most 25 001 ms. */
  lemma {:induction false} SpacedIff(d: nat)
    ensures SpacedUpTo(d) <==> d <= 25_001
  {
    if d <= SLACK {
      forall run, i: nat, j: nat | i < j < |run| && FallsAtMost(run, d)
        ensures Spaced(run, i, j)
      {
        assert FallsAtMost(run, SLACK);
        AcceptedAreApart(run, i, j);
      }
    } else {
      EvictionSeen("w");
      var run := [Heartbeat("w", 10_000), Cleanup(40_001), Heartbeat("w", 14_999)];
      assert FallsAtMost(run, d);
      assert !Spaced(run, 0, 2);
    }
  }
}
