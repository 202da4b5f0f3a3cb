/** The Qt server with a thread for every client: each thread counts the requests it handles and hands
    its count over when its event loop ends. Stopping the server ends the main loop, not theirs. */
module ThreadServer {
  import opened Framing
  import opened Tally
  import D = QtDecoder
  import E = QtEndpoints

  datatype Running = Running(worker: E.Worker, quitting: bool)

  datatype Threads = Threads(
    nextId: nat,
    active: map<nat, Running>,   // client threads whose event loop runs
    total: nat                   // m_totalRequests
  )

  datatype Step =
    | Connects                       // newConnection: a thread of its own
    | Arrives(id: nat, a: E.Arrival)
    | Disconnected(id: nat)          // the peer goes away: the loop is told to quit
    | Exits(id: nat)                 // the loop ends

  const START := Threads(0, map[], 0)

  predicate Enabled(s: Threads, st: Step) {
    match st
    case Connects => true
    case Arrives(id, _) => id in s.active
    case Disconnected(id) => id in s.active
    case Exits(id) => id in s.active && s.active[id].quitting
  }

  function Apply(h: Handler, s: Threads, st: Step): Threads
    requires Enabled(s, st)
  {
    match st
    case Connects => s.(nextId := s.nextId + 1, active := s.active[s.nextId := Running(E.NEW_WORKER, false)])
    case Arrives(id, a) =>
      s.(active := s.active[id := s.active[id].(worker := E.ThreadServes(h, s.active[id].worker, a))])
    case Disconnected(id) => s.(active := s.active[id := s.active[id].(quitting := true)])
    case Exits(id) => s.(total := s.total + s.active[id].worker.requestCount, active := s.active - {id})
  }

  ghost predicate Legal(h: Handler, s: Threads, steps: seq<Step>)
    decreases |steps|
  {
    steps == [] || (Enabled(s, steps[0]) && Legal(h, Apply(h, s, steps[0]), steps[1..]))
  }

  ghost function Run(h: Handler, s: Threads, steps: seq<Step>): Threads
    requires Legal(h, s, steps)
    decreases |steps|
  {
    if steps == [] then s else Run(h, Apply(h, s, steps[0]), steps[1..])
  }

  /** A new thread's id is nobody else's. */
  ghost predicate Inv(s: Threads) { forall id :: id in s.active ==> id < s.nextId }

  /** Whether a step leads to a call of `onRequest`. */
  predicate HandlesRequest(s: Threads, st: Step)
    requires Enabled(s, st)
  {
    st.Arrives? && E.CallsOnRequest(E.Deliver(s.active[st.id].worker, st.a.chunk).d)
  }

  ghost function Handled(h: Handler, s: Threads, steps: seq<Step>): nat
    requires Legal(h, s, steps)
    decreases |steps|
  {
    if steps == [] then 0
    else (if HandlesRequest(s, steps[0]) then 1 else 0) + Handled(h, Apply(h, s, steps[0]), steps[1..])
  }

  /** What each running thread has counted. */
  ghost function Counts(s: Threads): map<nat, nat> {
    map id | id in s.active :: s.active[id].worker.requestCount
  }

  lemma StepConserves(h: Handler, s: Threads, st: Step)
    requires Inv(s) && Enabled(s, st)
    ensures Inv(Apply(h, s, st))
    ensures Apply(h, s, st).total + Sum(Counts(Apply(h, s, st)))
         == s.total + Sum(Counts(s)) + if HandlesRequest(s, st) then 1 else 0
  {
    hide Sum, D.ReadyRead;
    var s' := Apply(h, s, st);
    match st {
      case Connects =>
        assert Counts(s') == Counts(s)[s.nextId := 0];
        SumUpdates(Counts(s), s.nextId, 0);
      case Arrives(id, a) =>
        assert Counts(s') == Counts(s)[id := s'.active[id].worker.requestCount];
        SumUpdates(Counts(s), id, s'.active[id].worker.requestCount);
        SumRemoves(Counts(s), id);
      case Disconnected(id) =>
        assert Counts(s') == Counts(s);
      case Exits(id) =>
        assert Counts(s') == Counts(s) - {id};
        SumRemoves(Counts(s), id);
    }
  }

  /** Over every run of any number of clients, whatever writes fail: the total plus what running threads
      have counted is the number of requests handled. */
  lemma {:induction false} TallyConserved(h: Handler, s: Threads, steps: seq<Step>)
    requires Inv(s) && Legal(h, s, steps)
    ensures Run(h, s, steps).total + Sum(Counts(Run(h, s, steps))) == s.total + Sum(Counts(s)) + Handled(h, s, steps)
    decreases |steps|
  {
    hide Inv, Apply, Enabled, Sum, Counts, HandlesRequest;
    if steps != [] {
      StepConserves(h, s, steps[0]);
      TallyConserved(h, Apply(h, s, steps[0]), steps[1..]);
    }
  }

  /** What the server prints when it is stopped never exceeds the requests handled, and equals them if
      and only if every thread still running has handled none. */
  lemma PrintedTotalIsExactIff(h: Handler, steps: seq<Step>)
    requires Legal(h, START, steps)
    ensures var s := Run(h, START, steps);
            && s.total <= Handled(h, START, steps)
            && (s.total == Handled(h, START, steps) <==>
                  forall id :: id in s.active ==> s.active[id].worker.requestCount == 0)
  {
    hide Legal, Run, Handled, Sum;
    TallyConserved(h, START, steps);
    assert Counts(START) == map[];
    SumIsZero(map[]);
    var s := Run(h, START, steps);
    SumIsZero(Counts(s));
    assert forall id :: id in Counts(s) <==> id in s.active;
  }

  /** It is wrong as soon as a client that is still connected has been served. */
  lemma ServedButNotPrinted(h: Handler, p: Payload)
    requires 0 < |p| < I63
    ensures var steps := [Connects, Arrives(0, E.Arrival(Frame(p), false, false))];
            && Legal(h, START, steps)
            && Handled(h, START, steps) == 1 && Run(h, START, steps).total == 0
            && Run(h, START, steps).active.Keys == {0}
            && Run(h, START, steps).active[0].worker.outbox == Frame(h(p))
  {
    hide D.ReadyRead, Frame;
    WholeFrameIsEmitted(p);
    var a := E.Arrival(Frame(p), false, false);
    var s1 := Apply(h, START, Connects);
    assert [Connects, Arrives(0, a)][1..] == [Arrives(0, a)] && [Arrives(0, a)][1..] == [];
    assert E.CallsOnRequest(E.Deliver(E.NEW_WORKER, Frame(p)).d);
    assert [] + Frame(h(p)) == Frame(h(p));
    assert Run(h, s1, [Arrives(0, a)]) == Run(h, Apply(h, s1, Arrives(0, a)), []);
    assert Handled(h, s1, [Arrives(0, a)]) == 1;
  }

  lemma WholeFrameIsEmitted(p: Payload)
    requires 0 < |p| < I63
    ensures D.ReadyRead(D.Arrive(D.FRESH, Frame(p))).emitted == [p]
  {
    hide D.ReadyRead, D.Inv, D.SmallHeaders, Frame, Frames, Parse;
    var d := D.Arrive(D.FRESH, Frame(p));
    D.FreshInv();
    D.ArriveKeepsInv(D.FRESH, Frame(p));
    FramesCons(p, []);
    FramesNonempty([]);
    assert [p] + [] == [p] && [] + Frame(p) == Frame(p) == Frames([p]);
    D.SmallFramesHaveSmallHeaders([p]);
    ParseUnique([p], []);
    assert Frames([p]) + [] == Frames([p]);
    D.OneCallOneFrame(d);
  }

  /* ---- clients that leave ---- */

  lemma RunOfNone(h: Handler, s: Threads)
    ensures Legal(h, s, []) && Run(h, s, []) == s
  {
  }

  lemma RunFrom(h: Handler, s: Threads, st: Step, rest: seq<Step>, steps: seq<Step>)
    requires Enabled(s, st) && Legal(h, Apply(h, s, st), rest) && steps == [st] + rest
    ensures Legal(h, s, steps) && Run(h, s, steps) == Run(h, Apply(h, s, st), rest)
    ensures Handled(h, s, steps) == (if HandlesRequest(s, st) then 1 else 0) + Handled(h, Apply(h, s, st), rest)
  {
    hide Enabled, Apply, HandlesRequest;
    assert steps[1..] == rest;
  }

  /** When a client leaves its thread can end at once; that removes it, no other, and adds exactly its
      count to the total. */
  lemma ClientLeaves(h: Handler, s: Threads, id: nat)
    requires id in s.active
    ensures Legal(h, s, [Disconnected(id), Exits(id)])
    ensures Run(h, s, [Disconnected(id), Exits(id)])
         == s.(active := s.active - {id}, total := s.total + s.active[id].worker.requestCount)
  {
    hide Legal, Run;
    var s1 := Apply(h, s, Disconnected(id));
    var s2 := Apply(h, s1, Exits(id));
    assert s2.active == s.active - {id};
    RunOfNone(h, s2);
    RunFrom(h, s1, Exits(id), [], [Exits(id)]);
    RunFrom(h, s, Disconnected(id), [Exits(id)], [Disconnected(id), Exits(id)]);
  }

  /** From any state all clients can leave, after which the total has taken in every count. */
  lemma {:induction false} AllLeave(h: Handler, s: Threads) returns (steps: seq<Step>)
    requires Inv(s)
    ensures Legal(h, s, steps) && Handled(h, s, steps) == 0
    ensures Run(h, s, steps).active == map[] && Run(h, s, steps).total == s.total + Sum(Counts(s))
    decreases |s.active|
  {
    hide Legal, Run, Handled, Sum, Enabled, Apply;
    if s.active == map[] {
      steps := [];
      RunOfNone(h, s);
      NothingCounted(h, s);
    } else {
      var id :| id in s.active;
      LeaveSteps(h, s, id);
      var s1 := Apply(h, s, Disconnected(id));
      var s2 := Apply(h, s1, Exits(id));
      StepConserves(h, s, Disconnected(id));
      StepConserves(h, s1, Exits(id));
      var rest := AllLeave(h, s2);
      RunFrom(h, s1, Exits(id), rest, [Exits(id)] + rest);
      steps := [Disconnected(id)] + ([Exits(id)] + rest);
      RunFrom(h, s, Disconnected(id), [Exits(id)] + rest, steps);
    }
  }

  lemma NothingCounted(h: Handler, s: Threads)
    requires s.active == map[]
    ensures Sum(Counts(s)) == 0 && Handled(h, s, []) == 0
  {
    assert Counts(s) == map[];
    SumIsZero(map[]);
  }

  lemma LeaveSteps(h: Handler, s: Threads, id: nat)
    requires id in s.active
    ensures Enabled(s, Disconnected(id)) && !HandlesRequest(s, Disconnected(id))
    ensures var s1 := Apply(h, s, Disconnected(id));
            && Enabled(s1, Exits(id)) && !HandlesRequest(s1, Exits(id))
            && |Apply(h, s1, Exits(id)).active| < |s.active|
  {
    var s1 := Apply(h, s, Disconnected(id));
    assert s1.active.Keys == s.active.Keys && |s1.active| == |s.active|;
    assert (s1.active - {id}).Keys == s1.active.Keys - {id};
    assert |s1.active - {id}| == |s1.active.Keys - {id}|;
  }

  /** After any history all clients can leave, and the total is then the number of requests handled. */
  lemma EveryTotalCanBecomeExact(h: Handler, past: seq<Step>) returns (steps: seq<Step>)
    requires Legal(h, START, past)
    ensures var s := Run(h, START, past);
            && Legal(h, s, steps) && Handled(h, s, steps) == 0
            && Run(h, s, steps).active == map[] && Run(h, s, steps).total == Handled(h, START, past)
  {
    hide Legal, Run, Handled, Sum;
    TallyConserved(h, START, past);
    NothingCounted(h, START);
    RunKeepsInv(h, START, past);
    steps := AllLeave(h, Run(h, START, past));
  }

  lemma {:induction false} RunKeepsInv(h: Handler, s: Threads, steps: seq<Step>)
    requires Inv(s) && Legal(h, s, steps)
    ensures Inv(Run(h, s, steps))
    decreases |steps|
  {
    hide Inv, Apply, Enabled, Sum, HandlesRequest;
    if steps != [] {
      StepConserves(h, s, steps[0]);
      RunKeepsInv(h, Apply(h, s, steps[0]), steps[1..]);
    }
  }

  /** No thread ends before its own client has left. */
  lemma {:induction false} ServesUntilItsClientLeaves(h: Handler, s: Threads, steps: seq<Step>, id: nat)
    requires Inv(s) && Legal(h, s, steps) && id in s.active && !s.active[id].quitting
    requires Disconnected(id) !in steps
    ensures id in Run(h, s, steps).active && !Run(h, s, steps).active[id].quitting
    decreases |steps|
  {
    hide E.ThreadServes, Sum;
    if steps != [] {
      assert steps[0] in steps;
      StepConserves(h, s, steps[0]);
      ServesUntilItsClientLeaves(h, Apply(h, s, steps[0]), steps[1..], id);
    }
  }
}
