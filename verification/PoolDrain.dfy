/** The pool server: every connection becomes a runnable that waits in the pool's queue for a thread,
    runs an event loop of its own, and hands its count over when the loop ends. Shutting down closes
    the listener, starts a timer that keeps firing, and waits for the pool to be done. */
module PoolDrain {
  import opened Framing
  import opened Tally
  import E = QtEndpoints

  datatype Running = Running(worker: E.Worker, quitting: bool)

  datatype Pool = Pool(
    listening: bool,
    stopTimer: bool,             // m_stopTimer has been started
    maxThreads: nat,
    nextId: nat,
    queue: seq<nat>,             // runnables no thread has taken yet
    active: map<nat, Running>,   // event loops running
    total: nat                   // m_totalRequests
  )

  datatype Step =
    | Incoming                       // incomingConnection
    | Starts(socketOk: bool)         // a free thread takes the oldest runnable
    | ReadyRead(id: nat, chunk: Bytes)
    | Disconnected(id: nat)          // the peer goes away: the loop is told to quit
    | Exits(id: nat)                 // the loop ends
    | Close
    | StartTimer                     // disconnectClients, at any time
    | Tick                           // the timer fires: every running loop is told to quit

  predicate Enabled(p: Pool, st: Step) {
    match st
    case Incoming => p.listening
    case Starts(_) => p.queue != [] && |p.active| < p.maxThreads
    case ReadyRead(id, chunk) => id in p.active
    case Disconnected(id) => id in p.active
    case Exits(id) => id in p.active && p.active[id].quitting
    case Close => p.listening
    case StartTimer => true
    case Tick => p.stopTimer
  }

  function Quit(active: map<nat, Running>): map<nat, Running> {
    map id | id in active :: active[id].(quitting := true)
  }

  function Apply(h: Handler, p: Pool, st: Step): Pool
    requires Enabled(p, st)
  {
    match st
    case Incoming => p.(queue := p.queue + [p.nextId], nextId := p.nextId + 1)
    case Starts(ok) =>
      p.(queue := p.queue[1..],
         active := if ok then p.active[p.queue[0] := Running(E.NEW_WORKER, false)] else p.active)
    case ReadyRead(id, chunk) =>
      var r := p.active[id];
      p.(active := p.active[id := r.(worker := E.PoolReadyRead(h, E.Deliver(r.worker, chunk)))])
    case Disconnected(id) => p.(active := p.active[id := p.active[id].(quitting := true)])
    case Exits(id) => p.(total := p.total + p.active[id].worker.requestCount, active := p.active - {id})
    case Close => p.(listening := false)
    case StartTimer => p.(stopTimer := true)
    case Tick => p.(active := Quit(p.active))
  }

  ghost predicate Legal(h: Handler, p: Pool, steps: seq<Step>)
    decreases |steps|
  {
    steps == [] || (Enabled(p, steps[0]) && Legal(h, Apply(h, p, steps[0]), steps[1..]))
  }

  ghost function Run(h: Handler, p: Pool, steps: seq<Step>): Pool
    requires Legal(h, p, steps)
    decreases |steps|
  {
    if steps == [] then p else Run(h, Apply(h, p, steps[0]), steps[1..])
  }

  function Start(maxThreads: nat): Pool {
    Pool(true, false, maxThreads, 0, [], map[], 0)
  }

  /** Runnables have distinct ids, each is queued or running but not both, no more loops run than there
      are threads, and every worker has answered exactly what it handled. */
  ghost predicate Inv(h: Handler, p: Pool) {
    && (forall id :: id in p.queue || id in p.active ==> id < p.nextId)
    && (forall i, j :: 0 <= i < j < |p.queue| ==> p.queue[i] != p.queue[j])
    && (forall id :: id in p.queue ==> id !in p.active)
    && |p.active| <= p.maxThreads
    && (forall id :: id in p.active ==>
          E.WorkerInv(h, p.active[id].worker) && |p.active[id].worker.d.emitted| <= p.active[id].worker.requestCount)
  }

  lemma WorkerStepKeepsInv(h: Handler, w: E.Worker, chunk: Bytes)
    requires E.WorkerInv(h, w)
    ensures var w' := E.PoolReadyRead(h, E.Deliver(w, chunk));
            && E.WorkerInv(h, w')
            && w'.requestCount == w.requestCount + 1
            && |w'.d.emitted| == |w.d.emitted| + (if E.CallsOnRequest(E.Deliver(w, chunk).d) then 1 else 0)
  {
    hide E.D.ReadyRead, E.D.Inv;
    E.DeliverKeepsInv(h, w, chunk);
    E.ServeKeepsInv(h, E.Deliver(w, chunk));
    E.AtMostOneRequest(E.Deliver(w, chunk).d);
  }

  lemma ReadyReadKeepsInv(h: Handler, p: Pool, id: nat, chunk: Bytes)
    requires Inv(h, p) && id in p.active
    ensures Inv(h, Apply(h, p, ReadyRead(id, chunk)))
  {
    hide E.WorkerInv, E.PoolReadyRead, E.CallsOnRequest;
    WorkerStepKeepsInv(h, p.active[id].worker, chunk);
    Resized(p.active, id, Apply(h, p, ReadyRead(id, chunk)).active[id]);
  }

  lemma StartKeepsInv(h: Handler, p: Pool, ok: bool)
    requires Inv(h, p) && Enabled(p, Starts(ok))
    ensures Inv(h, Apply(h, p, Starts(ok)))
  {
    hide E.WorkerInv;
    E.NewWorkerInv(h);
    assert p.queue[0] in p.queue;
    assert forall id :: id in p.queue[1..] ==> id in p.queue && id != p.queue[0];
    Resized(p.active, p.queue[0], Running(E.NEW_WORKER, false));
  }

  lemma QuitKeepsInv(h: Handler, p: Pool, st: Step)
    requires Inv(h, p) && Enabled(p, st) && (st.Disconnected? || st.Tick?)
    ensures Inv(h, Apply(h, p, st))
  {
    hide E.WorkerInv;
    if st.Tick? {
      assert Quit(p.active).Keys == p.active.Keys;
    } else {
      Resized(p.active, st.id, Apply(h, p, st).active[st.id]);
    }
  }

  lemma OtherKeepsInv(h: Handler, p: Pool, st: Step)
    requires Inv(h, p) && Enabled(p, st)
    requires st.Incoming? || st.Exits? || st.Close? || st.StartTimer?
    ensures Inv(h, Apply(h, p, st))
  {
    hide E.WorkerInv;
    if st.Exits? {
      assert (p.active - {st.id}).Keys == p.active.Keys - {st.id};
      assert |p.active - {st.id}| == |p.active.Keys - {st.id}|;
    }
    assert forall i :: 0 <= i < |p.queue| ==> p.queue[i] in p.queue;
  }

  lemma StepKeepsInv(h: Handler, p: Pool, st: Step)
    requires Inv(h, p) && Enabled(p, st)
    ensures Inv(h, Apply(h, p, st))
  {
    hide Inv, Apply;
    match st
    case ReadyRead(id, chunk) => ReadyReadKeepsInv(h, p, id, chunk);
    case Starts(ok) => StartKeepsInv(h, p, ok);
    case Disconnected(_) => QuitKeepsInv(h, p, st);
    case Tick => QuitKeepsInv(h, p, st);
    case _ => OtherKeepsInv(h, p, st);
  }

  lemma Resized(m: map<nat, Running>, id: nat, r: Running)
    ensures |m[id := r]| == |m| + (if id in m then 0 else 1)
  {
    assert m[id := r].Keys == m.Keys + {id};
  }

  /* ---- the tally ---- */

  ghost function Counts(p: Pool): map<nat, nat> {
    map id | id in p.active :: p.active[id].worker.requestCount
  }

  function ReadyReads(steps: seq<Step>): nat {
    if steps == [] then 0 else (if steps[0].ReadyRead? then 1 else 0) + ReadyReads(steps[1..])
  }

  /** The calls of onRequest in a run. */
  ghost function Handled(h: Handler, p: Pool, steps: seq<Step>): nat
    requires Legal(h, p, steps)
    decreases |steps|
  {
    if steps == [] then 0
    else (if HandlesRequest(p, steps[0]) then 1 else 0) + Handled(h, Apply(h, p, steps[0]), steps[1..])
  }

  /** No `readyRead` of a run was in vain. */
  ghost predicate NoIdleReads(h: Handler, p: Pool, steps: seq<Step>)
    requires Legal(h, p, steps)
    decreases |steps|
  {
    steps == [] ||
    ((steps[0].ReadyRead? ==> HandlesRequest(p, steps[0])) && NoIdleReads(h, Apply(h, p, steps[0]), steps[1..]))
  }

  lemma {:induction false} HandledAtMostRead(h: Handler, p: Pool, steps: seq<Step>)
    requires Legal(h, p, steps)
    ensures Handled(h, p, steps) <= ReadyReads(steps)
    ensures Handled(h, p, steps) == ReadyReads(steps) <==> NoIdleReads(h, p, steps)
    decreases |steps|
  {
    hide Apply, Enabled, E.CallsOnRequest;
    if steps != [] {
      HandledAtMostRead(h, Apply(h, p, steps[0]), steps[1..]);
    }
  }

  predicate HandlesRequest(p: Pool, st: Step)
    requires Enabled(p, st)
  {
    st.ReadyRead? && E.CallsOnRequest(E.Deliver(p.active[st.id].worker, st.chunk).d)
  }

  lemma ReadyReadConserves(h: Handler, p: Pool, id: nat, chunk: Bytes)
    requires id in p.active
    ensures Sum(Counts(Apply(h, p, ReadyRead(id, chunk)))) == Sum(Counts(p)) + 1
  {
    hide E.Serve, Sum;
    var n := Counts(p)[id];
    assert Counts(Apply(h, p, ReadyRead(id, chunk))) == Counts(p)[id := n + 1];
    SumUpdates(Counts(p), id, n + 1);
    SumRemoves(Counts(p), id);
  }

  lemma StartConserves(h: Handler, p: Pool, ok: bool)
    requires Inv(h, p) && Enabled(p, Starts(ok))
    ensures Sum(Counts(Apply(h, p, Starts(ok)))) == Sum(Counts(p))
  {
    hide E.WorkerInv, Sum;
    var id, p' := p.queue[0], Apply(h, p, Starts(ok));
    assert id in p.queue;
    if ok {
      assert Counts(p') == Counts(p)[id := 0];
      SumUpdates(Counts(p), id, 0);
    } else {
      assert Counts(p') == Counts(p);
    }
  }

  lemma StepConserves(h: Handler, p: Pool, st: Step)
    requires Inv(h, p) && Enabled(p, st)
    ensures Apply(h, p, st).total + Sum(Counts(Apply(h, p, st)))
         == p.total + Sum(Counts(p)) + (if st.ReadyRead? then 1 else 0)
  {
    hide Inv, E.PoolReadyRead, Sum;
    var p' := Apply(h, p, st);
    match st {
      case Starts(ok) => StartConserves(h, p, ok);
      case ReadyRead(id, chunk) => ReadyReadConserves(h, p, id, chunk);
      case Exits(id) =>
        assert Counts(p') == Counts(p) - {id};
        SumRemoves(Counts(p), id);
      case _ =>
        assert Counts(p') == Counts(p);
    }
  }

  /** Over every run: the total plus the counts of running workers is the number of `readyRead` events. */
  lemma {:induction false} TallyConserved(h: Handler, p: Pool, steps: seq<Step>)
    requires Inv(h, p) && Legal(h, p, steps)
    ensures Inv(h, Run(h, p, steps))
    ensures Run(h, p, steps).total + Sum(Counts(Run(h, p, steps))) == p.total + Sum(Counts(p)) + ReadyReads(steps)
    decreases |steps|
  {
    hide Inv, Apply, Enabled, Sum, Counts;
    if steps != [] {
      StepKeepsInv(h, p, steps[0]);
      StepConserves(h, p, steps[0]);
      TallyConserved(h, Apply(h, p, steps[0]), steps[1..]);
    }
  }

  /* ---- draining ---- */

  /** What the shutdown thread establishes before it waits for the pool. */
  predicate Draining(p: Pool) { !p.listening && p.stopTimer && p.maxThreads > 0 }

  predicate Drained(p: Pool) { p.queue == [] && p.active == map[] }

  ghost function Unmarked(p: Pool): set<nat> {
    set id | id in p.active && !p.active[id].quitting
  }

  /** Queued runnables have three steps left, running ones two, quitting ones one. */
  ghost function Measure(p: Pool): nat {
    3 * |p.queue| + |p.active| + |Unmarked(p)|
  }

  /** Steps that bring the end closer. */
  ghost predicate Advances(p: Pool, st: Step) {
    || st.Starts? || st.Exits?
    || ((st.Tick? || st.Disconnected?) && exists id :: id in Unmarked(p) && (st.Tick? || id == st.id))
  }

  lemma StartMeasure(h: Handler, p: Pool, ok: bool)
    requires Enabled(p, Starts(ok))
    ensures Measure(Apply(h, p, Starts(ok))) + 1 <= Measure(p)
  {
    var id, p' := p.queue[0], Apply(h, p, Starts(ok));
    Resized(p.active, id, Running(E.NEW_WORKER, false));
    assert Unmarked(p') <= Unmarked(p) + {id};
    Smaller(Unmarked(p'), Unmarked(p) + {id});
  }

  lemma OneClientMeasure(h: Handler, p: Pool, st: Step)
    requires Enabled(p, st) && (st.ReadyRead? || st.Disconnected?)
    ensures Measure(Apply(h, p, st)) + (if Advances(p, st) then 1 else 0) <= Measure(p)
  {
    hide E.PoolReadyRead;
    var p' := Apply(h, p, st);
    Resized(p.active, st.id, p'.active[st.id]);
    assert Unmarked(p') == if st.ReadyRead? then Unmarked(p) else Unmarked(p) - {st.id};
  }

  lemma ExitMeasure(h: Handler, p: Pool, id: nat)
    requires Enabled(p, Exits(id))
    ensures Measure(Apply(h, p, Exits(id))) + 1 <= Measure(p)
  {
    var p' := Apply(h, p, Exits(id));
    assert p'.active.Keys == p.active.Keys - {id};
    assert |p'.active| == |p'.active.Keys| && |p.active| == |p.active.Keys|;
    assert Unmarked(p') == Unmarked(p);
  }

  lemma TickMeasure(h: Handler, p: Pool)
    requires Enabled(p, Tick)
    ensures Measure(Apply(h, p, Tick)) + (if Unmarked(p) != {} then 1 else 0) <= Measure(p)
  {
    var p' := Apply(h, p, Tick);
    assert p'.active.Keys == p.active.Keys;
    assert |p'.active| == |p'.active.Keys| && |p.active| == |p.active.Keys|;
    assert Unmarked(p') == {};
  }

  lemma StepMeasure(h: Handler, p: Pool, st: Step)
    requires Draining(p) && Enabled(p, st)
    ensures Draining(Apply(h, p, st))
    ensures Measure(Apply(h, p, st)) + (if Advances(p, st) then 1 else 0) <= Measure(p)
  {
    hide E.PoolReadyRead, Measure, Unmarked;
    match st {
      case Starts(ok) => StartMeasure(h, p, ok);
      case ReadyRead(_, _) => OneClientMeasure(h, p, st);
      case Disconnected(_) => OneClientMeasure(h, p, st);
      case Exits(id) => ExitMeasure(h, p, id);
      case Tick => TickMeasure(h, p);
      case StartTimer => assert Apply(h, p, st) == p;
      case _ =>
    }
  }

  lemma Smaller(a: set<nat>, b: set<nat>)
    requires a <= b
    ensures |a| <= |b|
  {
    assert b == a + (b - a);
  }

  /** Until the pool is drained some advancing step is enabled: a loop told to quit ends, or the next
      tick tells one, or a thread is free for the queue. It takes a timer that keeps firing: a runnable
      may start after any given tick. */
  lemma DrainNeverStuck(h: Handler, p: Pool)
    requires Inv(h, p) && Draining(p) && !Drained(p)
    ensures exists st :: Enabled(p, st) && Advances(p, st)
  {
    if id :| id in p.active && p.active[id].quitting {
      assert Enabled(p, Exits(id)) && Advances(p, Exits(id));
    } else if id :| id in p.active {
      assert id in Unmarked(p);
      assert Enabled(p, Tick) && Advances(p, Tick);
    } else {
      assert p.active == map[];
      assert Enabled(p, Starts(true)) && Advances(p, Starts(true));
    }
  }

  ghost function Advancing(h: Handler, p: Pool, steps: seq<Step>): nat
    requires Legal(h, p, steps)
    decreases |steps|
  {
    if steps == [] then 0
    else (if Advances(p, steps[0]) then 1 else 0) + Advancing(h, Apply(h, p, steps[0]), steps[1..])
  }

  /** A drain has at most three advancing steps per client left, whatever else the clients do. */
  lemma {:induction false} DrainIsBounded(h: Handler, p: Pool, steps: seq<Step>)
    requires Draining(p) && Legal(h, p, steps)
    ensures Advancing(h, p, steps) + Measure(Run(h, p, steps)) <= Measure(p)
    decreases |steps|
  {
    hide Apply, Enabled, Measure, Draining, Advances;
    if steps != [] {
      StepMeasure(h, p, steps[0]);
      DrainIsBounded(h, Apply(h, p, steps[0]), steps[1..]);
    }
  }

  /** From any state of a shutdown the pool can be brought to its end without another `readyRead`, and
      then the total has taken in the count of every worker that was running. */
  lemma {:induction false} CanDrain(h: Handler, p: Pool) returns (steps: seq<Step>)
    requires Inv(h, p) && Draining(p)
    ensures Legal(h, p, steps) && ReadyReads(steps) == 0
    ensures Drained(Run(h, p, steps))
    ensures Run(h, p, steps).total == p.total + Sum(Counts(p))
    decreases Measure(p)
  {
    hide Inv, Draining, Apply, Enabled, Measure, Sum;
    if Drained(p) {
      steps := [];
      assert Counts(p) == map[];
      SumIsZero(map[]);
    } else {
      DrainNeverStuck(h, p);
      var st :| Enabled(p, st) && Advances(p, st);
      StepMeasure(h, p, st);
      StepKeepsInv(h, p, st);
      StepConserves(h, p, st);
      var rest := CanDrain(h, Apply(h, p, st));
      steps := [st] + rest;
      assert steps[0] == st && steps[1..] == rest;
    }
  }

  /** Every shutdown of every server can finish, and what it then prints is the number of `readyRead`
      events there have been since the server started. */
  lemma EveryShutdownCanFinish(h: Handler, maxThreads: nat, past: seq<Step>) returns (steps: seq<Step>)
    requires Legal(h, Start(maxThreads), past) && Draining(Run(h, Start(maxThreads), past))
    ensures var p := Run(h, Start(maxThreads), past);
            && Legal(h, p, steps) && ReadyReads(steps) == 0
            && Drained(Run(h, p, steps)) && Run(h, p, steps).total == ReadyReads(past)
  {
    hide Legal, Run, Sum, Draining, Drained;
    TallyConserved(h, Start(maxThreads), past);
    assert Counts(Start(maxThreads)) == map[];
    SumIsZero(map[]);
    steps := CanDrain(h, Run(h, Start(maxThreads), past));
  }

  /* ---- whose chunks they were ---- */

  /** The chunks one worker got, in order. */
  function Chunks(steps: seq<Step>, id: nat): seq<Bytes> {
    if steps == [] then []
    else
      var st := steps[|steps| - 1];
      Chunks(steps[..|steps| - 1], id) + if st.ReadyRead? && st.id == id then [st.chunk] else []
  }

  /** A running worker is what the chunks it got since the start make of a new one; a runnable that has
      not started got none. */
  ghost predicate Tracks(h: Handler, p: Pool, past: seq<Step>) {
    && (forall id :: id in p.active ==> p.active[id].worker == E.PoolLoop(h, E.NEW_WORKER, Chunks(past, id)))
    && (forall id :: id in p.queue || id >= p.nextId ==> Chunks(past, id) == [])
  }

  lemma ChunksSnoc(past: seq<Step>, st: Step, id: nat)
    ensures Chunks(past + [st], id) == Chunks(past, id) + if st.ReadyRead? && st.id == id then [st.chunk] else []
  {
    assert (past + [st])[..|past|] == past;
  }

  lemma OtherChunksStay(past: seq<Step>, st: Step)
    ensures forall id :: !(st.ReadyRead? && st.id == id) ==> Chunks(past + [st], id) == Chunks(past, id)
  {
    forall id | !(st.ReadyRead? && st.id == id)
      ensures Chunks(past + [st], id) == Chunks(past, id)
    {
      ChunksSnoc(past, st, id);
    }
  }

  lemma LoopSnoc(h: Handler, chunks: seq<Bytes>, chunk: Bytes)
    ensures E.PoolLoop(h, E.NEW_WORKER, chunks + [chunk])
         == E.PoolReadyRead(h, E.Deliver(E.PoolLoop(h, E.NEW_WORKER, chunks), chunk))
  {
    assert (chunks + [chunk])[..|chunks|] == chunks;
  }

  lemma ReadyReadKeepsTracks(h: Handler, p: Pool, past: seq<Step>, id: nat, chunk: Bytes)
    requires Inv(h, p) && Tracks(h, p, past) && id in p.active
    ensures Tracks(h, Apply(h, p, ReadyRead(id, chunk)), past + [ReadyRead(id, chunk)])
  {
    hide Chunks, E.WorkerInv, E.PoolReadyRead, E.PoolLoop;
    OtherChunksStay(past, ReadyRead(id, chunk));
    ChunksSnoc(past, ReadyRead(id, chunk), id);
    LoopSnoc(h, Chunks(past, id), chunk);
  }

  lemma StartKeepsTracks(h: Handler, p: Pool, past: seq<Step>, ok: bool)
    requires Inv(h, p) && Tracks(h, p, past) && Enabled(p, Starts(ok))
    ensures Tracks(h, Apply(h, p, Starts(ok)), past + [Starts(ok)])
  {
    hide Chunks, E.WorkerInv, E.PoolLoop;
    OtherChunksStay(past, Starts(ok));
    E.EmptyLoop(h);
    assert p.queue[0] in p.queue;
    assert forall id :: id in p.queue[1..] ==> id in p.queue;
  }

  lemma OtherKeepsTracks(h: Handler, p: Pool, past: seq<Step>, st: Step)
    requires Inv(h, p) && Tracks(h, p, past) && Enabled(p, st) && !st.ReadyRead? && !st.Starts?
    ensures Tracks(h, Apply(h, p, st), past + [st])
  {
    hide Chunks, E.WorkerInv, E.PoolLoop;
    OtherChunksStay(past, st);
  }

  lemma StepKeepsTracks(h: Handler, p: Pool, past: seq<Step>, st: Step)
    requires Inv(h, p) && Tracks(h, p, past) && Enabled(p, st)
    ensures Tracks(h, Apply(h, p, st), past + [st])
  {
    hide Inv, Tracks, Apply;
    match st
    case ReadyRead(id, chunk) => ReadyReadKeepsTracks(h, p, past, id, chunk);
    case Starts(ok) => StartKeepsTracks(h, p, past, ok);
    case _ => OtherKeepsTracks(h, p, past, st);
  }

  /** The `readyRead` events of a worker that brought no request to its end. */
  function Idle(h: Handler, chunks: seq<Bytes>): int {
    |chunks| - |E.PoolLoop(h, E.NEW_WORKER, chunks).d.emitted|
  }

  lemma StepIdles(h: Handler, p: Pool, past: seq<Step>, st: Step, id: nat)
    requires Inv(h, p) && Tracks(h, p, past) && Enabled(p, st)
    ensures Idle(h, Chunks(past + [st], id)) == Idle(h, Chunks(past, id)) +
              if st.ReadyRead? && st.id == id && !HandlesRequest(p, st) then 1 else 0
  {
    hide E.CallsOnRequest, E.PoolLoop, E.PoolReadyRead, Chunks;
    OtherChunksStay(past, st);
    if st.ReadyRead? && st.id == id {
      ChunksSnoc(past, st, id);
      LoopSnoc(h, Chunks(past, id), st.chunk);
      WorkerStepKeepsInv(h, p.active[id].worker, st.chunk);
    }
  }

  lemma {:induction false} NoIdleReadsIff(h: Handler, p: Pool, past: seq<Step>, steps: seq<Step>)
    requires Inv(h, p) && Tracks(h, p, past) && Legal(h, p, steps)
    ensures forall id :: Idle(h, Chunks(past + steps, id)) >= Idle(h, Chunks(past, id))
    ensures NoIdleReads(h, p, steps) <==>
            forall id :: Idle(h, Chunks(past + steps, id)) == Idle(h, Chunks(past, id))
    decreases |steps|
  {
    hide Inv, Tracks, Apply, Enabled, Chunks, Idle, HandlesRequest;
    if steps == [] {
      assert past + steps == past;
    } else {
      var st, now := steps[0], past + [steps[0]];
      StepKeepsInv(h, p, st);
      StepKeepsTracks(h, p, past, st);
      NoIdleReadsIff(h, Apply(h, p, st), now, steps[1..]);
      assert now + steps[1..] == past + steps;
      forall id
        ensures Idle(h, Chunks(now, id)) == Idle(h, Chunks(past, id)) +
                  if st.ReadyRead? && st.id == id && !HandlesRequest(p, st) then 1 else 0
      {
        StepIdles(h, p, past, st, id);
      }
      assert NoIdleReads(h, Apply(h, p, st), steps[1..]) <==>
          forall id :: Idle(h, Chunks(past + steps, id)) == Idle(h, Chunks(now, id));
      if !NoIdleReads(h, Apply(h, p, st), steps[1..]) {
        var id :| Idle(h, Chunks(past + steps, id)) != Idle(h, Chunks(now, id));
        assert Idle(h, Chunks(past + steps, id)) > Idle(h, Chunks(past, id));
      } else if st.ReadyRead? {
        assert Idle(h, Chunks(now, st.id)) == Idle(h, Chunks(past, st.id)) + if HandlesRequest(p, st) then 0 else 1;
      }
    }
  }

  /** The length of no message of any client reaches 2^63. */
  ghost predicate SmallStreams(steps: seq<Step>) {
    forall id :: E.D.SmallHeaders(E.Concat(Chunks(steps, id)))
  }

  /** What the server prints once the pool is done: the `readyRead` events of all workers that ever ran,
      never fewer than the requests handled, and, if no announced length reaches 2^63, as many if and
      only if every chunk of every worker completed the next frame of its stream, a non-empty one. */
  lemma DrainedTotal(h: Handler, maxThreads: nat, steps: seq<Step>)
    requires Legal(h, Start(maxThreads), steps) && Drained(Run(h, Start(maxThreads), steps))
    ensures var total := Run(h, Start(maxThreads), steps).total;
            && total == ReadyReads(steps) >= Handled(h, Start(maxThreads), steps)
            && (SmallStreams(steps) ==>
                  (total == Handled(h, Start(maxThreads), steps) <==>
                     forall id :: E.EachCompletesAFrame(Chunks(steps, id))))
  {
    hide Legal, Run, Handled, NoIdleReads, Sum, E.D.SmallHeaders, E.PoolLoop, E.EachCompletesAFrame;
    var p0 := Start(maxThreads);
    HandledAtMostRead(h, p0, steps);
    TallyConserved(h, p0, steps);
    assert Counts(Run(h, p0, steps)) == map[] && Counts(p0) == map[];
    NoIdleReadsIff(h, p0, [], steps);
    assert [] + steps == steps;
    forall id | SmallStreams(steps)
      ensures Idle(h, Chunks(steps, id)) == 0 <==> E.EachCompletesAFrame(Chunks(steps, id))
    {
      E.PoolCountIsExactIff(h, Chunks(steps, id));
      E.LoopCounts(h, Chunks(steps, id));
    }
    E.EmptyLoop(h);
  }

  /* ---- why the timer has to keep firing ---- */

  /** Only a tick, or its own client leaving, tells a running loop to quit. */
  lemma {:induction false} UntoldKeepsRunning(h: Handler, p: Pool, steps: seq<Step>, id: nat)
    requires Legal(h, p, steps) && id in p.active && !p.active[id].quitting
    requires Tick !in steps && Disconnected(id) !in steps
    requires id !in p.queue && id < p.nextId
    ensures id in Run(h, p, steps).active && !Run(h, p, steps).active[id].quitting
    decreases |steps|
  {
    hide E.PoolReadyRead;
    if steps != [] {
      assert steps[0] in steps;
      UntoldKeepsRunning(h, Apply(h, p, steps[0]), steps[1..], id);
    }
  }

  /** Until the shutdown starts the timer, only its own client's leaving ends a loop. */
  lemma {:induction false} RunsUntilShutdown(h: Handler, p: Pool, steps: seq<Step>, id: nat)
    requires Legal(h, p, steps) && id in p.active && !p.active[id].quitting && !p.stopTimer
    requires StartTimer !in steps && Disconnected(id) !in steps
    requires id !in p.queue && id < p.nextId
    ensures id in Run(h, p, steps).active && !Run(h, p, steps).active[id].quitting
    ensures Tick !in steps
    decreases |steps|
  {
    hide E.PoolReadyRead;
    if steps != [] {
      assert steps[0] in steps;
      RunsUntilShutdown(h, Apply(h, p, steps[0]), steps[1..], id);
      assert forall st :: st in steps ==> st == steps[0] || st in steps[1..];
    }
  }

  /** When a client leaves its loop can end at once; that removes it, no other, and adds exactly its count
      to the total. */
  lemma ClientLeaves(h: Handler, p: Pool, id: nat)
    requires id in p.active
    ensures Legal(h, p, [Disconnected(id), Exits(id)])
    ensures Run(h, p, [Disconnected(id), Exits(id)])
         == p.(active := p.active - {id}, total := p.total + p.active[id].worker.requestCount)
  {
    var p1 := Apply(h, p, Disconnected(id));
    var p2 := Apply(h, p1, Exits(id));
    assert p2.active == p.active - {id};
    assert [Disconnected(id), Exits(id)][1..] == [Exits(id)] && [Exits(id)][1..] == [];
    assert Run(h, p1, [Exits(id)]) == Run(h, p2, []) == p2;
  }

  /* ---- the queue ---- */

  /** The queue holds the newest connections, oldest first. */
  ghost predicate FirstComeFirstServed(p: Pool) {
    && (forall i :: 0 <= i < |p.queue| ==> p.queue[i] == p.nextId - |p.queue| + i)
    && |p.queue| <= p.nextId
  }

  /** In every run runnables are taken in the order their connections came, none twice. */
  lemma {:induction false} ServedInOrder(h: Handler, p: Pool, steps: seq<Step>)
    requires FirstComeFirstServed(p) && Legal(h, p, steps)
    ensures FirstComeFirstServed(Run(h, p, steps))
    decreases |steps|
  {
    hide E.PoolReadyRead;
    if steps != [] {
      ServedInOrder(h, Apply(h, p, steps[0]), steps[1..]);
    }
  }

  /** A socket that cannot be set up: its runnable is done without a loop, and never gets one. */
  lemma FailedSetupNeverRuns(h: Handler, p: Pool, steps: seq<Step>)
    requires Inv(h, p) && Enabled(p, Starts(false)) && Legal(h, Apply(h, p, Starts(false)), steps)
    ensures Apply(h, p, Starts(false)).active == p.active && Apply(h, p, Starts(false)).total == p.total
    ensures p.queue[0] !in Run(h, Apply(h, p, Starts(false)), steps).active
  {
    hide E.WorkerInv;
    var id, p' := p.queue[0], Apply(h, p, Starts(false));
    assert id in p.queue && forall i :: 0 <= i < |p'.queue| ==> p'.queue[i] == p.queue[i + 1] != p.queue[0];
    GoneForGood(h, p', steps, id);
  }

  lemma {:induction false} GoneForGood(h: Handler, p: Pool, steps: seq<Step>, id: nat)
    requires Legal(h, p, steps) && id < p.nextId && id !in p.queue && id !in p.active
    ensures id !in Run(h, p, steps).queue && id !in Run(h, p, steps).active
    decreases |steps|
  {
    hide E.PoolReadyRead;
    if steps != [] {
      GoneForGood(h, Apply(h, p, steps[0]), steps[1..], id);
    }
  }

  /* ---- one tick ---- */

  /** The timer does not fire again, and no client leaves of its own accord. */
  ghost predicate Quiet(steps: seq<Step>) {
    forall st :: st in steps ==> !st.Tick? && !st.Disconnected?
  }

  /** No loop is about to end and no runnable about to start. */
  predicate AtRest(p: Pool) {
    (forall id :: id in p.active ==> !p.active[id].quitting) && (p.queue == [] || |p.active| >= p.maxThreads)
  }

  predicate AllTold(p: Pool) {
    !p.listening && p.queue == [] && forall id :: id in p.active ==> p.active[id].quitting
  }

  lemma {:induction false} AllToldStays(h: Handler, p: Pool, steps: seq<Step>)
    requires AllTold(p) && Legal(h, p, steps) && Quiet(steps)
    ensures AllTold(Run(h, p, steps))
    decreases |steps|
  {
    hide E.PoolReadyRead;
    if steps != [] {
      assert steps[0] in steps;
      assert forall st :: st in steps[1..] ==> st in steps;
      AllToldStays(h, Apply(h, p, steps[0]), steps[1..]);
    }
  }

  /** With a runnable that no tick has reached, the pool can come to rest with somebody in it. */
  lemma {:induction false} SomebodyStays(h: Handler, p: Pool) returns (steps: seq<Step>)
    requires Inv(h, p) && Draining(p) && (p.queue != [] || Unmarked(p) != {})
    ensures Legal(h, p, steps) && Quiet(steps)
    ensures AtRest(Run(h, p, steps)) && !Drained(Run(h, p, steps))
    decreases Measure(p)
  {
    hide Inv, Measure;
    if id :| id in p.active && p.active[id].quitting {
      steps := SomebodyStaysAfter(h, p, Exits(id));
    } else if p.queue != [] && |p.active| < p.maxThreads {
      steps := SomebodyStaysAfter(h, p, Starts(true));
    } else {
      assert AtRest(p) && !Drained(p);
      steps := [];
    }
  }

  lemma {:induction false} SomebodyStaysAfter(h: Handler, p: Pool, st: Step) returns (steps: seq<Step>)
    requires Inv(h, p) && Draining(p) && (p.queue != [] || Unmarked(p) != {})
    requires Enabled(p, st) && (st.Exits? || st == Starts(true))
    ensures Legal(h, p, steps) && Quiet(steps)
    ensures AtRest(Run(h, p, steps)) && !Drained(Run(h, p, steps))
    decreases Measure(p), 0
  {
    hide Inv, Measure;
    var p' := Apply(h, p, st);
    StepKeepsInv(h, p, st);
    StepMeasure(h, p, st);
    if st.Starts? {
      assert p.queue[0] in Unmarked(p');
    } else {
      assert Unmarked(p') == Unmarked(p);
    }
    var rest := SomebodyStays(h, p');
    steps := [st] + rest;
    assert steps[0] == st && steps[1..] == rest;
  }

  /** When one tick is enough: if and only if no runnable was waiting for a thread when it came, every
      quiet continuation that comes to rest ends with the pool done. */
  lemma OneTickSufficesIff(h: Handler, p: Pool)
    requires Inv(h, p) && Draining(p)
    ensures p.queue == [] <==>
            forall later :: Legal(h, Apply(h, p, Tick), later) && Quiet(later) ==>
              AtRest(Run(h, Apply(h, p, Tick), later)) ==> Drained(Run(h, Apply(h, p, Tick), later))
  {
    hide Inv, Legal, Run;
    var told := Apply(h, p, Tick);
    if p.queue == [] {
      forall later | Legal(h, told, later) && Quiet(later) && AtRest(Run(h, told, later))
        ensures Drained(Run(h, told, later))
      {
        AllToldStays(h, told, later);
        assert Run(h, told, later).active == map[];
      }
    } else {
      StepKeepsInv(h, p, Tick);
      var later := SomebodyStays(h, told);
      assert !Drained(Run(h, told, later));
    }
  }

  /** One tick is not enough: with one thread and two clients, a shutdown whose timer fired once, while
      the second client was still queued, never ends without another tick or that client's leaving. */
  lemma OneTickIsNotEnough(h: Handler, later: seq<Step>)
    ensures var steps := [Incoming, Incoming, Starts(true), Close, StartTimer, Tick, Exits(0), Starts(true)];
            && Legal(h, Start(1), steps) && Draining(Run(h, Start(1), steps))
            && (Legal(h, Run(h, Start(1), steps), later) && Tick !in later && Disconnected(1) !in later ==>
                  !Drained(Run(h, Run(h, Start(1), steps), later)))
  {
    var quit := Pool(false, true, 1, 2, [1], map[0 := Running(E.NEW_WORKER, true)], 0);
    var last := Pool(false, true, 1, 2, [], map[1 := Running(E.NEW_WORKER, false)], 0);
    UntilTheTick(h);
    AfterTheTick(h);
    RunsInTwo(h, Start(1), [Incoming, Incoming, Starts(true), Close, StartTimer, Tick], [Exits(0), Starts(true)]);
    assert [Incoming, Incoming, Starts(true), Close, StartTimer, Tick] + [Exits(0), Starts(true)]
        == [Incoming, Incoming, Starts(true), Close, StartTimer, Tick, Exits(0), Starts(true)];
    if Legal(h, last, later) && Tick !in later && Disconnected(1) !in later {
      UntoldKeepsRunning(h, last, later, 1);
    }
  }

  lemma {:induction false} RunsInTwo(h: Handler, p: Pool, before: seq<Step>, after: seq<Step>)
    requires Legal(h, p, before) && Legal(h, Run(h, p, before), after)
    ensures Legal(h, p, before + after) && Run(h, p, before + after) == Run(h, Run(h, p, before), after)
    decreases |before|
  {
    hide Apply, Enabled;
    if before == [] {
      assert before + after == after;
    } else {
      assert (before + after)[0] == before[0] && (before + after)[1..] == before[1..] + after;
      RunsInTwo(h, Apply(h, p, before[0]), before[1..], after);
    }
  }

  lemma UntilTheTick(h: Handler)
    ensures var steps := [Incoming, Incoming, Starts(true), Close, StartTimer, Tick];
            && Legal(h, Start(1), steps)
            && Run(h, Start(1), steps) == Pool(false, true, 1, 2, [1], map[0 := Running(E.NEW_WORKER, true)], 0)
  {
    hide Legal, Run;
    UntilTheClose(h);
    CloseAndTick(h);
    RunsInTwo(h, Start(1), [Incoming, Incoming, Starts(true)], [Close, StartTimer, Tick]);
    assert [Incoming, Incoming, Starts(true)] + [Close, StartTimer, Tick]
        == [Incoming, Incoming, Starts(true), Close, StartTimer, Tick];
  }

  lemma CloseAndTick(h: Handler)
    ensures var p := Pool(true, false, 1, 2, [1], map[0 := Running(E.NEW_WORKER, false)], 0);
            && Legal(h, p, [Close, StartTimer, Tick])
            && Run(h, p, [Close, StartTimer, Tick]) == Pool(false, true, 1, 2, [1], map[0 := Running(E.NEW_WORKER, true)], 0)
  {
    assert Quit(map[0 := Running(E.NEW_WORKER, false)]) == map[0 := Running(E.NEW_WORKER, true)];
    assert [Close, StartTimer, Tick][1..] == [StartTimer, Tick] && [StartTimer, Tick][1..] == [Tick] && [Tick][1..] == [];
  }

  lemma UntilTheClose(h: Handler)
    ensures var steps := [Incoming, Incoming, Starts(true)];
            && Legal(h, Start(1), steps)
            && Run(h, Start(1), steps) == Pool(true, false, 1, 2, [1], map[0 := Running(E.NEW_WORKER, false)], 0)
  {
    hide E.PoolReadyRead;
    assert Apply(h, Pool(true, false, 1, 2, [0, 1], map[], 0), Starts(true))
        == Pool(true, false, 1, 2, [1], map[0 := Running(E.NEW_WORKER, false)], 0);
    assert [Incoming, Incoming, Starts(true)][1..] == [Incoming, Starts(true)];
    assert [Incoming, Starts(true)][1..] == [Starts(true)] && [Starts(true)][1..] == [];
  }

  lemma AfterTheTick(h: Handler)
    ensures var p := Pool(false, true, 1, 2, [1], map[0 := Running(E.NEW_WORKER, true)], 0);
            && Legal(h, p, [Exits(0), Starts(true)])
            && Run(h, p, [Exits(0), Starts(true)]) == Pool(false, true, 1, 2, [], map[1 := Running(E.NEW_WORKER, false)], 0)
  {
    var p := Pool(false, true, 1, 2, [1], map[0 := Running(E.NEW_WORKER, true)], 0);
    assert p.active - {0} == map[];
    assert [Exits(0), Starts(true)][1..] == [Starts(true)] && [Starts(true)][1..] == [];
  }
}

/** The pool server object: what its own code changes; the pool's scheduling is the environment's. */
module PoolServerObject {
  import opened Framing
  import Spec = PoolDrain

  class Server {
    var listening: bool
    var stopTimer: bool
    var total: nat
    var nextId: nat
    var queue: seq<nat>                       // handed to QThreadPool::start, in order
    ghost var active: map<nat, Spec.Running>
    const maxThreads: nat
    const onRequest: Handler

    ghost function State(): Spec.Pool
      reads this
    {
      Spec.Pool(listening, stopTimer, maxThreads, nextId, queue, active, total)
    }

    /** Every runnable is queued or running once, no more of them run than there are threads, and the
        running ones have answered what they handled. */
    ghost predicate Valid()
      reads this
    {
      Spec.Inv(onRequest, State())
    }

    constructor (maxThreads: nat, onRequest: Handler)
      ensures Valid() && State() == Spec.Start(maxThreads) && this.onRequest == onRequest
    {
      this.maxThreads, this.onRequest := maxThreads, onRequest;
      listening, stopTimer, total, nextId, queue, active := true, false, 0, 0, [], map[];
    }

    /** A runnable of its own for the connection, behind those that already wait. */
    method IncomingConnection() returns (id: nat)
      requires Valid() && listening
      modifies this`queue, this`nextId
      ensures Valid() && queue == old(queue) + [id]
      ensures id !in old(queue) && id !in active
      ensures State() == Spec.Apply(onRequest, old(State()), Spec.Incoming)
    {
      Spec.StepKeepsInv(onRequest, State(), Spec.Incoming);
      id := nextId;
      queue := queue + [id];
      nextId := nextId + 1;
    }

    /** Close, wait until no longer listening, then start the timer: the pool is left draining, with
        every client still in it. */
    method Shutdown()
      requires Valid() && listening && maxThreads > 0
      modifies this`listening, this`stopTimer
      ensures Valid() && Spec.Draining(State())
      ensures queue == old(queue) && active == old(active) && total == old(total)
      ensures State() == Spec.Apply(onRequest, Spec.Apply(onRequest, old(State()), Spec.Close), Spec.StartTimer)
    {
      hide Spec.Inv;
      Spec.StepKeepsInv(onRequest, State(), Spec.Close);
      listening := false;
      DisconnectClients();
    }

    /** Starts the timer that will tell every running loop to quit; it is the only thing that changes,
        and if the server has stopped listening the pool is then draining. */
    method DisconnectClients()
      requires Valid()
      modifies this`stopTimer
      ensures Valid() && State() == old(State()).(stopTimer := true)
      ensures State() == Spec.Apply(onRequest, old(State()), Spec.StartTimer)
      ensures !listening && maxThreads > 0 ==> Spec.Draining(State())
    {
      hide Spec.Inv;
      Spec.StepKeepsInv(onRequest, State(), Spec.StartTimer);
      stopTimer := true;
    }
  }
}
