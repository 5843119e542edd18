/** Worker output batching: chunks wait in a per-worker batch until its timer or a shutdown hands
    them to the broadcaster. */
module OutputBatching {

  import opened Wrappers
  import opened Collections

  type WorkerId = string
  type TimerId = nat

  datatype Chunk = Chunk(stream: string, content: string, timestamp: string)

  datatype Batch = Batch(chunks: seq<Chunk>, timer: Option<TimerId>)

  /** One call of the broadcaster; a call that throws loses its chunks. */
  datatype Call = Call(worker: WorkerId, chunks: seq<Chunk>, threw: bool)

  /** `timers` are the timeouts that have not fired yet, with the worker each will flush. */
  datatype State = State(batches: map<WorkerId, Batch>, timers: map<TimerId, WorkerId>, nextTimer: TimerId,
                         calls: seq<Call>)

  const START: State := State(map[], map[], 0, [])

  // ----- Steps -----

  function Push(s: State, w: WorkerId, c: Chunk): State {
    var batch := if w in s.batches then s.batches[w] else Batch([], None);
    if batch.timer.Some? then
      s.(batches := s.batches[w := Batch(batch.chunks + [c], batch.timer)])
    else
      s.(batches := s.batches[w := Batch(batch.chunks + [c], Some(s.nextTimer))],
         timers := s.timers[s.nextTimer := w], nextTimer := s.nextTimer + 1)
  }

  function Flush(s: State, w: WorkerId, throws: bool): State {
    var rest := s.(batches := s.batches - {w});
    if w in s.batches && s.batches[w].chunks != []
    then rest.(calls := s.calls + [Call(w, s.batches[w].chunks, throws)])
    else rest
  }

  function Fire(s: State, id: TimerId, throws: bool): State
    requires id in s.timers
  {
    Flush(s.(timers := s.timers - {id}), s.timers[id], throws)
  }

  function Pending(s: State, w: WorkerId): seq<Chunk> {
    if w in s.batches then s.batches[w].chunks else []
  }

  /** The chunks handed to the broadcaster for one worker, in order. */
  function Handed(calls: seq<Call>, w: WorkerId): seq<Chunk> {
    if calls == [] then []
    else Handed(Init(calls), w) + (if Last(calls).worker == w then Last(calls).chunks else [])
  }

  /** Everything a worker's chunks have come to: handed over, then waiting. */
  function Total(s: State, w: WorkerId): seq<Chunk> {
    Handed(s.calls, w) + Pending(s, w)
  }

  /** Shutdown hands over every waiting batch, in any order of workers, and empties the map. */
  ghost predicate ShutsDown(s: State, t: State) {
    && t.batches == map[] && t.timers == s.timers && t.nextTimer == s.nextTimer
    && forall w :: Handed(t.calls, w) == Total(s, w)
  }

  /** Batches in the map are non-empty and wait for a timer of their own worker. */
  ghost predicate Valid(s: State) {
    && (forall id :: id in s.timers ==> id < s.nextTimer)
    && (forall w :: w in s.batches ==> s.batches[w].chunks != [] && HasTimer(s, w))
  }

  ghost predicate HasTimer(s: State, w: WorkerId)
    requires w in s.batches
  {
    s.batches[w].timer.Some? && s.batches[w].timer.value in s.timers && s.timers[s.batches[w].timer.value] == w
  }

  // ----- The service -----

  class Batcher {

    var batches: map<WorkerId, Batch>
    var timers: map<TimerId, WorkerId>
    var nextTimer: TimerId
    var calls: seq<Call>

    constructor ()
      ensures Snapshot() == START
    {
      batches, timers, nextTimer, calls := map[], map[], 0, [];
    }

    ghost function Snapshot(): State
      reads this
    {
      State(batches, timers, nextTimer, calls)
    }

    method BroadcastWorkerOutput(w: WorkerId, c: Chunk)
      modifies this
      ensures Snapshot() == Push(old(Snapshot()), w, c)
    {
      if w !in batches {
        batches := batches[w := Batch([], None)];
      }
      var batch := batches[w];
      batches := batches[w := batch.(chunks := batch.chunks + [c])];
      if batch.timer.None? {
        timers := timers[nextTimer := w];
        batches := batches[w := batches[w].(timer := Some(nextTimer))];
        nextTimer := nextTimer + 1;
      }
    }

    method FlushOutputBatch(w: WorkerId, throws: bool)
      modifies this`batches, this`calls
      ensures Snapshot() == Flush(old(Snapshot()), w, throws)
    {
      if w !in batches || batches[w].chunks == [] {
        batches := batches - {w};
        return;
      }
      calls := calls + [Call(w, batches[w].chunks, throws)];
      batches := batches - {w};
    }

    /** A timeout elapses: its callback runs once. */
    method TimerFires(id: TimerId, throws: bool)
      requires id in timers
      modifies this
      ensures Snapshot() == Fire(old(Snapshot()), id, throws)
    {
      var w := timers[id];
      timers := timers - {id};
      FlushOutputBatch(w, throws);
    }

    method OnModuleDestroy(throwing: set<WorkerId>)
      modifies this`batches, this`calls
      ensures ShutsDown(old(Snapshot()), Snapshot())
    {
      ghost var start := Snapshot();
      while batches.Keys != {}
        invariant timers == start.timers && nextTimer == start.nextTimer
        invariant forall w :: Total(Snapshot(), w) == Total(start, w)
        decreases |batches|
      {
        var w :| w in batches.Keys;
        ghost var s := Snapshot();
        FlushOutputBatch(w, w in throwing);
        FlushKeepsTotals(s, w, w in throwing);
        assert s.batches.Keys == batches.Keys + {w};
      }
      batches := map[];
      forall w
        ensures Handed(calls, w) == Total(start, w)
      {
        assert Total(Snapshot(), w) == Handed(calls, w);
      }
    }
  }

  lemma FlushKeepsTotals(s: State, w: WorkerId, throws: bool)
    ensures forall v :: Total(Flush(s, w, throws), v) == Total(s, v)
  {
    var t := Flush(s, w, throws);
    forall v
      ensures Total(t, v) == Total(s, v)
    {
      if t.calls != s.calls {
        assert Init(t.calls) == s.calls && Last(t.calls) == Call(w, s.batches[w].chunks, throws);
      }
    }
  }

  // ----- Runs -----

  datatype Event = Output(worker: WorkerId, chunk: Chunk) | Timer(id: TimerId, throws: bool) | Shutdown

  ghost predicate Next(s: State, e: Event, t: State) {
    match e
    case Output(w, c) => t == Push(s, w, c)
    case Timer(id, throws) => id in s.timers && t == Fire(s, id, throws)
    case Shutdown => ShutsDown(s, t)
  }

  ghost predicate StepOf(states: seq<State>, events: seq<Event>, i: nat)
    requires |states| == |events| + 1 && i < |events|
  {
    Next(states[i], events[i], states[i + 1])
  }

  /** Any interleaving of output, timers due or stale, and shutdowns. */
  ghost predicate Run(states: seq<State>, events: seq<Event>) {
    && |states| == |events| + 1 && states[0] == START
    && forall i: nat :: i < |events| ==> StepOf(states, events, i)
  }

  function Pushed(events: seq<Event>, w: WorkerId): seq<Chunk> {
    if events == [] then []
    else
      Pushed(Init(events), w) +
      (if Last(events).Output? && Last(events).worker == w then [Last(events).chunk] else [])
  }

  lemma PushAppends(s: State, w: WorkerId, c: Chunk, v: WorkerId)
    ensures Total(Push(s, w, c), v) == Total(s, v) + (if v == w then [c] else [])
  {
  }

  lemma StepTotals(s: State, e: Event, t: State, w: WorkerId)
    requires Next(s, e, t)
    ensures Total(t, w) == Total(s, w) + (if e.Output? && e.worker == w then [e.chunk] else [])
  {
    match e
    case Output(v, c) => PushAppends(s, v, c, w);
    case Timer(id, throws) =>
      var u := s.(timers := s.timers - {id});
      FlushKeepsTotals(u, s.timers[id], throws);
      assert Total(u, w) == Total(s, w);
    case Shutdown => assert Handed(t.calls, w) == Total(s, w);
  }

  /** What was handed over, then what waits, is what the worker pushed: nothing lost, repeated or
      reordered, at every point of every run. */
  lemma {:induction false} EveryRunConserves(states: seq<State>, events: seq<Event>, i: nat, w: WorkerId)
    requires Run(states, events) && i < |states|
    ensures Handed(states[i].calls, w) + Pending(states[i], w) == Pushed(events[..i], w)
  {
    if i > 0 {
      EveryRunConserves(states, events, i - 1, w);
      assert StepOf(states, events, i - 1);
      StepTotals(states[i - 1], events[i - 1], states[i], w);
      assert Init(events[..i]) == events[..i - 1] && Last(events[..i]) == events[i - 1];
    }
  }

  lemma StepKeepsValid(s: State, e: Event, t: State)
    requires Valid(s) && Next(s, e, t)
    ensures Valid(t)
  {
    forall w | w in t.batches
      ensures t.batches[w].chunks != [] && HasTimer(t, w)
    {
      if w in s.batches {
        assert HasTimer(s, w);
      }
    }
  }

  /** Every batch ever held is non-empty and has its own timer running. */
  lemma {:induction false} EveryRunKeepsValid(states: seq<State>, events: seq<Event>, i: nat)
    requires Run(states, events) && i < |states|
    ensures Valid(states[i])
  {
    if i > 0 {
      EveryRunKeepsValid(states, events, i - 1);
      assert StepOf(states, events, i - 1);
      StepKeepsValid(states[i - 1], events[i - 1], states[i]);
    }
  }

  /** After a shutdown nothing waits, and the broadcaster has been given all that was pushed. */
  lemma {:induction false} ShutdownHandsOverEverything(states: seq<State>, events: seq<Event>, i: nat, w: WorkerId)
    requires Run(states, events) && i < |events| && events[i] == Shutdown
    ensures states[i + 1].batches == map[]
    ensures Handed(states[i + 1].calls, w) == Pushed(events[..i + 1], w)
  {
    assert StepOf(states, events, i);
    EveryRunConserves(states, events, i + 1, w);
  }

  /** Once every timer has fired, nothing waits: no chunk is stranded without one. */
  lemma {:induction false} SpentTimersStrandNothing(states: seq<State>, events: seq<Event>, i: nat, w: WorkerId)
    requires Run(states, events) && i < |states| && states[i].timers == map[]
    ensures states[i].batches == map[]
    ensures Handed(states[i].calls, w) == Pushed(events[..i], w)
  {
    EveryRunKeepsValid(states, events, i);
    EveryRunConserves(states, events, i, w);
    forall v
      ensures v !in states[i].batches
    {
      assert v in states[i].batches ==> HasTimer(states[i], v);
    }
  }

  /** The timer a batch waits for hands over the whole batch when it fires; a stale one only hands
      it over sooner. */
  lemma OwnTimerFlushes(s: State, w: WorkerId, throws: bool)
    requires Valid(s) && w in s.batches && HasTimer(s, w)
    ensures var t := Fire(s, s.batches[w].timer.value, throws);
            w !in t.batches && t.calls == s.calls + [Call(w, s.batches[w].chunks, throws)]
            && |t.timers| < |s.timers|
  {
    assert s.batches[w].chunks != [];
    var id := s.batches[w].timer.value;
    assert s.timers.Keys == (s.timers - {id}).Keys + {id};
    assert |s.timers| == |s.timers.Keys| && |s.timers - {id}| == |(s.timers - {id}).Keys|;
  }
}
