/** The Asio server with any number of clients: the table of sessions, the id counter, the shared
    total, and one connection per accepted client. A step is an accept completion or a step of one
    connection, so a run interleaves all clients in every possible way. */
module ServerTable {
  import opened Framing
  import opened Connection
  import opened Tally

  datatype Status =
    | AwaitingAccept   // the acceptor is about to fill its socket
    | Serving          // its session has an operation outstanding
    | Stranded         // accept or the socket option failed: never served, never erased

  datatype World = World(
    table: map<nat, Status>,   // m_clients
    idCounter: nat,            // m_clientIdCounter
    total: nat,                // m_totalRequests
    accepting: bool,           // an async_accept is outstanding, for the client idCounter - 1
    conns: map<nat, Conn>      // every connection ever accepted, with its peer
  )

  datatype Step =
    | Accepted
    | AcceptFails
    | OptionThrows             // accepted, but set_option threw before the session began
    | At(id: nat, l: Label)

  /** `try_emplace` leaves an existing entry alone. */
  function InitiateAccept(w: World): World {
    w.(table := if w.idCounter in w.table then w.table else w.table[w.idCounter := AwaitingAccept],
       idCounter := w.idCounter + 1,
       accepting := true)
  }

  /** A failed check takes the session's count into the total and erases the session. */
  function Disconnect(w: World, id: nat, count: nat): World {
    w.(table := w.table - {id}, total := w.total + count)
  }

  const START := InitiateAccept(World(map[], 0, 0, false, map[]))

  predicate Enabled(w: World, st: Step) {
    match st
    case At(id, l) => id in w.conns && Connection.Enabled(w.conns[id], l)
    case _ => w.accepting && w.idCounter > 0
  }

  predicate Ends(c: Conn, c': Conn) { !c.server.ep.phase.Failed? && c'.server.ep.phase.Failed? }

  function Apply(h: Handler, w: World, st: Step): World
    requires Enabled(w, st)
  {
    match st
    case Accepted =>
      var id := w.idCounter - 1;
      var w := InitiateAccept(w);
      w.(table := w.table[id := Serving], conns := w.conns[id := ACCEPTED])
    case AcceptFails =>
      w.(table := w.table[w.idCounter - 1 := Stranded], accepting := false)
    case OptionThrows =>
      var id := w.idCounter - 1;
      var w := InitiateAccept(w);
      w.(table := w.table[id := Stranded], conns := w.conns[id := STRANDED])
    case At(id, l) =>
      var c, c' := w.conns[id], Connection.Apply(h, w.conns[id], l);
      var w := w.(conns := w.conns[id := c']);
      if Ends(c, c') then Disconnect(w, id, c'.server.requestCount) else w
  }

  ghost predicate Legal(h: Handler, w: World, steps: seq<Step>)
    decreases |steps|
  {
    steps == [] || (Enabled(w, steps[0]) && Legal(h, Apply(h, w, steps[0]), steps[1..]))
  }

  ghost function Run(h: Handler, w: World, steps: seq<Step>): World
    requires Legal(h, w, steps)
    decreases |steps|
  {
    if steps == [] then w else Run(h, Apply(h, w, steps[0]), steps[1..])
  }

  /* ---- the table invariant ---- */

  ghost predicate IdsBelowCounter(w: World) {
    forall id :: id in w.table || id in w.conns ==> id < w.idCounter
  }

  /** The one entry awaiting accept is the newest, and there is one exactly while an accept is
      outstanding. */
  ghost predicate NewestAwaits(w: World) {
    && (w.accepting ==> 0 < w.idCounter && w.idCounter - 1 in w.table && w.table[w.idCounter - 1].AwaitingAccept?)
    && (forall id :: id in w.table && w.table[id].AwaitingAccept? ==>
          w.accepting && id == w.idCounter - 1 && id !in w.conns)
  }

  predicate IsServed(w: World, id: nat) { id in w.table && w.table[id].Serving? }

  predicate HasOperation(w: World, id: nat) { id in w.conns && w.conns[id].server.ep.Busy() }

  predicate HasEnded(w: World, id: nat) { id in w.conns && w.conns[id].server.ep.phase.Failed? }

  /** An entry is being served exactly when its session has one operation outstanding; an ended session
      has no entry. */
  ghost predicate ServedIffBusy(w: World) {
    && (forall id :: IsServed(w, id) <==> HasOperation(w, id))
    && (forall id :: HasEnded(w, id) ==> id !in w.table)
  }

  ghost predicate TableInv(w: World) { IdsBelowCounter(w) && NewestAwaits(w) && ServedIffBusy(w) }

  ghost predicate Inv(h: Handler, w: World) {
    && TableInv(w)
    && (forall id :: id in w.conns ==> Connection.Inv(h, w.conns[id]))
  }

  lemma StartTable()
    ensures TableInv(START) && START.conns == map[]
  {
    assert START.table.Keys == {0} && START.conns.Keys == {};
    assert forall id :: !IsServed(START, id) && !HasOperation(START, id) && !HasEnded(START, id);
  }

  lemma StartInv(h: Handler)
    ensures Inv(h, START)
  {
    hide TableInv, InitiateAccept, Connection.Inv;
    StartTable();
  }

  /** A connection step leaves a session idle, keeps its one outstanding operation, or ends it. */
  lemma SessionPhase(h: Handler, c: Conn, l: Label)
    requires Connection.Enabled(c, l)
    ensures var p, p' := c.server.ep.phase, Connection.Apply(h, c, l).server.ep.phase;
            && (p.Idle? <==> p'.Idle?)
            && (p.Failed? ==> p'.Failed?)
  {
  }

  lemma AtKeepsIds(h: Handler, w: World, id: nat, l: Label)
    requires IdsBelowCounter(w) && NewestAwaits(w) && ServedIffBusy(w) && Enabled(w, At(id, l))
    ensures IdsBelowCounter(Apply(h, w, At(id, l))) && NewestAwaits(Apply(h, w, At(id, l)))
  {
    hide Connection.Apply, Connection.Enabled;
    var c := w.conns[id];
    if Ends(c, Connection.Apply(h, c, l)) {
      SessionPhase(h, c, l);
      assert HasOperation(w, id);
      assert IsServed(w, id);
    }
  }

  lemma AtKeepsServed(h: Handler, w: World, id: nat, l: Label)
    requires ServedIffBusy(w) && Enabled(w, At(id, l))
    ensures ServedIffBusy(Apply(h, w, At(id, l)))
  {
    hide Connection.Apply, Connection.Enabled;
    var w' := Apply(h, w, At(id, l));
    SessionPhase(h, w.conns[id], l);
    assert HasOperation(w, id) <==> IsServed(w, id);
    assert HasEnded(w, id) ==> id !in w.table;
    forall i
      ensures IsServed(w', i) <==> HasOperation(w', i)
      ensures HasEnded(w', i) ==> i !in w'.table
    {
      if i != id {
        assert (IsServed(w', i) <==> IsServed(w, i)) && (HasOperation(w', i) <==> HasOperation(w, i));
        assert HasEnded(w', i) <==> HasEnded(w, i);
      }
    }
  }

  lemma AtKeepsTable(h: Handler, w: World, id: nat, l: Label)
    requires TableInv(w) && Enabled(w, At(id, l))
    ensures TableInv(Apply(h, w, At(id, l)))
  {
    hide IdsBelowCounter, NewestAwaits, ServedIffBusy, Connection.Apply, Connection.Enabled;
    AtKeepsIds(h, w, id, l);
    AtKeepsServed(h, w, id, l);
  }

  lemma AtKeepsInv(h: Handler, w: World, id: nat, l: Label)
    requires Inv(h, w) && Enabled(w, At(id, l))
    ensures Inv(h, Apply(h, w, At(id, l)))
  {
    hide Connection.Inv, Connection.Apply, Connection.Enabled, TableInv;
    Connection.StepKeepsInv(h, w.conns[id], l);
    AtKeepsTable(h, w, id, l);
  }

  lemma AcceptKeepsTable(h: Handler, w: World, st: Step)
    requires TableInv(w) && Enabled(w, st) && !st.At?
    ensures TableInv(Apply(h, w, st))
  {
    hide ServedIffBusy;
    AcceptKeepsServed(h, w, st);
  }

  lemma AcceptKeepsServed(h: Handler, w: World, st: Step)
    requires TableInv(w) && Enabled(w, st) && !st.At?
    ensures ServedIffBusy(Apply(h, w, st))
  {
    var w' := Apply(h, w, st);
    forall id
      ensures IsServed(w', id) <==> HasOperation(w', id)
      ensures HasEnded(w', id) ==> id !in w'.table
    {
      assert (IsServed(w, id) <==> HasOperation(w, id)) && (HasEnded(w, id) ==> id !in w.table);
    }
  }

  lemma AcceptKeepsInv(h: Handler, w: World, st: Step)
    requires Inv(h, w) && Enabled(w, st) && !st.At?
    ensures Inv(h, Apply(h, w, st))
  {
    hide Connection.Inv, Connection.Apply, Connection.Enabled, TableInv;
    AcceptedInv(h);
    AcceptKeepsTable(h, w, st);
  }

  lemma StepKeepsInv(h: Handler, w: World, st: Step)
    requires Inv(h, w) && Enabled(w, st)
    ensures Inv(h, Apply(h, w, st))
  {
    hide Inv, Apply, Enabled;
    if st.At? {
      AtKeepsInv(h, w, st.id, st.l);
    } else {
      AcceptKeepsInv(h, w, st);
    }
  }

  lemma {:induction false} RunKeepsInv(h: Handler, w: World, steps: seq<Step>)
    requires Inv(h, w) && Legal(h, w, steps)
    ensures Inv(h, Run(h, w, steps))
    decreases |steps|
  {
    hide Inv, Apply, Enabled;
    if steps != [] {
      StepKeepsInv(h, w, steps[0]);
      RunKeepsInv(h, Apply(h, w, steps[0]), steps[1..]);
    }
  }

  /** An id that has left the table never comes back, and no handler of its session ever runs again. */
  lemma {:induction false} IdsAreNotReused(h: Handler, w: World, steps: seq<Step>, id: nat)
    requires Inv(h, w) && Legal(h, w, steps)
    requires id < w.idCounter && id !in w.table
    ensures id !in Run(h, w, steps).table && id < Run(h, w, steps).idCounter
    ensures forall l :: At(id, l) in steps ==> !l.ServerCompletes? && !l.ServerTake? && !l.ServerPut?
    decreases |steps|
  {
    hide Connection.Inv, Connection.Apply;
    if steps != [] {
      var w' := Apply(h, w, steps[0]);
      StepKeepsInv(h, w, steps[0]);
      assert id !in w'.table;
      IdsAreNotReused(h, w', steps[1..], id);
      if steps[0].At? && steps[0].id == id {
        assert !IsServed(w, id) && !HasOperation(w, id);
        NoServerStep(h, w.conns[id], steps[0].l);
      }
      assert forall l :: At(id, l) in steps ==> At(id, l) == steps[0] || At(id, l) in steps[1..];
    }
  }

  lemma NoServerStep(h: Handler, c: Conn, l: Label)
    requires Connection.Enabled(c, l) && !c.server.ep.Busy()
    ensures !l.ServerCompletes? && !l.ServerTake? && !l.ServerPut?
  {
  }

  /** In every run of the server, with any number of clients. */
  lemma EveryTableIsValid(h: Handler, steps: seq<Step>)
    requires Legal(h, START, steps)
    ensures TableInv(Run(h, START, steps))
  {
    hide Legal, Run, Connection.Inv, TableInv;
    StartInv(h);
    RunKeepsInv(h, START, steps);
  }

  /** Once erased, always erased: a run in two parts. */
  lemma ErasedStaysErased(h: Handler, before: seq<Step>, after: seq<Step>, id: nat)
    requires Legal(h, START, before) && Legal(h, Run(h, START, before), after)
    requires id < Run(h, START, before).idCounter && id !in Run(h, START, before).table
    ensures id !in Run(h, Run(h, START, before), after).table
    ensures forall l :: At(id, l) in after ==> !l.ServerCompletes? && !l.ServerTake? && !l.ServerPut?
  {
    hide Legal, Run, Inv;
    StartInv(h);
    RunKeepsInv(h, START, before);
    IdsAreNotReused(h, Run(h, START, before), after, id);
  }

  /** An accept error leaves its session stranded, and accepts nobody any more. */
  lemma AcceptErrorEndsAccepting(h: Handler, w: World, steps: seq<Step>)
    requires Inv(h, w) && Enabled(w, AcceptFails) && Legal(h, Apply(h, w, AcceptFails), steps)
    ensures var w' := Run(h, Apply(h, w, AcceptFails), steps);
            && w'.conns.Keys == w.conns.Keys && w'.idCounter == w.idCounter
            && w.idCounter - 1 in w'.table && w'.table[w.idCounter - 1].Stranded?
    ensures forall st :: st in steps ==> st.At?
  {
    hide Inv, Connection.Enabled;
    StepKeepsInv(h, w, AcceptFails);
    var w1 := Apply(h, w, AcceptFails);
    NobodyAccepted(h, w1, steps);
    StrandedStays(h, w1, steps, w.idCounter - 1);
  }

  /** A socket option that cannot be set leaves its session stranded for good, but accepting goes on. */
  lemma OptionErrorStrandsOne(h: Handler, w: World, steps: seq<Step>)
    requires Inv(h, w) && Enabled(w, OptionThrows) && Legal(h, Apply(h, w, OptionThrows), steps)
    ensures Apply(h, w, OptionThrows).accepting && Apply(h, w, OptionThrows).idCounter == w.idCounter + 1
    ensures var w' := Run(h, Apply(h, w, OptionThrows), steps);
            w.idCounter - 1 in w'.table && w'.table[w.idCounter - 1].Stranded?
  {
    hide Inv, Connection.Enabled;
    StepKeepsInv(h, w, OptionThrows);
    StrandedStays(h, Apply(h, w, OptionThrows), steps, w.idCounter - 1);
  }

  lemma {:induction false} NobodyAccepted(h: Handler, w: World, steps: seq<Step>)
    requires !w.accepting && Legal(h, w, steps)
    ensures Run(h, w, steps).conns.Keys == w.conns.Keys && Run(h, w, steps).idCounter == w.idCounter
    ensures forall st :: st in steps ==> st.At?
    decreases |steps|
  {
    hide Connection.Apply, Connection.Enabled;
    if steps != [] {
      assert Apply(h, w, steps[0]).conns.Keys == w.conns.Keys;
      NobodyAccepted(h, Apply(h, w, steps[0]), steps[1..]);
      assert forall st :: st in steps ==> st == steps[0] || st in steps[1..];
    }
  }

  /** A session that was never begun is never erased. */
  lemma {:induction false} StrandedStays(h: Handler, w: World, steps: seq<Step>, id: nat)
    requires Inv(h, w) && Legal(h, w, steps) && id in w.table && w.table[id].Stranded?
    ensures id in Run(h, w, steps).table && Run(h, w, steps).table[id].Stranded?
    decreases |steps|
  {
    hide Inv, Apply, Enabled;
    if steps != [] {
      StepKeepsInv(h, w, steps[0]);
      StepKeepsStranded(h, w, steps[0], id);
      StrandedStays(h, Apply(h, w, steps[0]), steps[1..], id);
    }
  }

  lemma StepKeepsStranded(h: Handler, w: World, st: Step, id: nat)
    requires Inv(h, w) && Enabled(w, st) && id in w.table && w.table[id].Stranded?
    ensures id in Apply(h, w, st).table && Apply(h, w, st).table[id].Stranded?
  {
    hide Connection.Inv, Connection.Apply, Connection.Enabled;
    if st.At? && st.id == id {
      SessionPhase(h, w.conns[id], st.l);
      assert !IsServed(w, id) && !HasOperation(w, id);
    }
  }

  /* ---- the tally ---- */

  /** m_requestCount of every session being served. */
  ghost function Counts(w: World): map<nat, nat> {
    map id | id in w.table && id in w.conns && w.table[id].Serving? :: w.conns[id].server.requestCount
  }

  /** Whether a step is a response write that completes: the session runs onDataSent. */
  ghost predicate WritesResponse(h: Handler, w: World, st: Step)
    requires Enabled(w, st)
  {
    && st.At?
    && w.conns[st.id].server.ep.phase.SendData?
    && Connection.Apply(h, w.conns[st.id], st.l).server.ep.phase.RecvLen?
  }

  ghost function Written(h: Handler, w: World, steps: seq<Step>): nat
    requires Legal(h, w, steps)
    decreases |steps|
  {
    if steps == [] then 0
    else (if WritesResponse(h, w, steps[0]) then 1 else 0) + Written(h, Apply(h, w, steps[0]), steps[1..])
  }

  lemma CountMoves(h: Handler, c: Conn, l: Label)
    requires Connection.Enabled(c, l)
    ensures Connection.Apply(h, c, l).server.requestCount == c.server.requestCount +
              if c.server.ep.phase.SendData? && Connection.Apply(h, c, l).server.ep.phase.RecvLen? then 1 else 0
  {
  }

  lemma StepConserves(h: Handler, w: World, st: Step)
    requires Inv(h, w) && Enabled(w, st)
    ensures Apply(h, w, st).total + Sum(Counts(Apply(h, w, st)))
         == w.total + Sum(Counts(w)) + if WritesResponse(h, w, st) then 1 else 0
  {
    hide Connection.Inv, Connection.Apply, Connection.Enabled, Sum;
    var w' := Apply(h, w, st);
    if st.At? {
      AtConserves(h, w, st.id, st.l);
    } else if st.Accepted? {
      var id := w.idCounter - 1;
      assert Counts(w') == Counts(w)[id := 0];
      SumUpdates(Counts(w), id, 0);
    } else {
      assert Counts(w') == Counts(w);
    }
  }

  /** What a connection's step does to the counts: nothing if its session is not being served; else
      its entry goes with the session, or follows the session's count. */
  lemma AtCounts(h: Handler, w: World, id: nat, l: Label)
    requires TableInv(w) && Enabled(w, At(id, l))
    ensures var w', c' := Apply(h, w, At(id, l)), Connection.Apply(h, w.conns[id], l);
            Counts(w') ==
              if id !in Counts(w) then Counts(w)
              else if Ends(w.conns[id], c') then Counts(w) - {id}
              else Counts(w)[id := c'.server.requestCount]
  {
    hide Connection.Apply, Connection.Enabled, IdsBelowCounter, NewestAwaits, ServedIffBusy;
    CountedIffBusy(w, id);
    SessionPhase(h, w.conns[id], l);
  }

  lemma CountedIffBusy(w: World, id: nat)
    requires TableInv(w) && id in w.conns
    ensures id in Counts(w) <==> w.conns[id].server.ep.Busy()
    ensures id in Counts(w) ==> Counts(w)[id] == w.conns[id].server.requestCount
  {
    assert IsServed(w, id) <==> HasOperation(w, id);
  }

  lemma AtConserves(h: Handler, w: World, id: nat, l: Label)
    requires Inv(h, w) && Enabled(w, At(id, l))
    ensures var w' := Apply(h, w, At(id, l));
            w'.total + Sum(Counts(w')) == w.total + Sum(Counts(w)) + if WritesResponse(h, w, At(id, l)) then 1 else 0
  {
    hide Connection.Inv, Connection.Apply, Connection.Enabled, TableInv, Counts, Sum;
    AtCounts(h, w, id, l);
    CountedIffBusy(w, id);
    CountMoves(h, w.conns[id], l);
    SessionPhase(h, w.conns[id], l);
    if id in Counts(w) {
      SumRemoves(Counts(w), id);
      SumUpdates(Counts(w), id, Connection.Apply(h, w.conns[id], l).server.requestCount);
    }
  }

  /** Over every run of every number of clients: the total plus the counts still held by live sessions
      is the number of responses whose write completed. */
  lemma {:induction false} TallyConserved(h: Handler, w: World, steps: seq<Step>)
    requires Inv(h, w) && Legal(h, w, steps)
    ensures Run(h, w, steps).total + Sum(Counts(Run(h, w, steps))) == w.total + Sum(Counts(w)) + Written(h, w, steps)
    decreases |steps|
  {
    hide Inv, Apply, Enabled, Sum, Counts, WritesResponse;
    if steps != [] {
      StepKeepsInv(h, w, steps[0]);
      StepConserves(h, w, steps[0]);
      TallyConserved(h, Apply(h, w, steps[0]), steps[1..]);
    }
  }

  /** The same from the start of the server. */
  lemma TotalPlusLiveIsWritten(h: Handler, steps: seq<Step>)
    requires Legal(h, START, steps)
    ensures Run(h, START, steps).total + Sum(Counts(Run(h, START, steps))) == Written(h, START, steps)
  {
    hide Inv, Apply, Enabled, Sum, WritesResponse;
    StartInv(h);
    TallyConserved(h, START, steps);
    assert START.total == 0 && Counts(START) == map[];
    SumIsZero(map[]);
  }

  /** The printed total falls short of the responses written exactly by what live sessions have not
      handed over: it is right if and only if every session still served has counted nothing. */
  lemma PrintedTotalIsExactIff(h: Handler, steps: seq<Step>)
    requires Legal(h, START, steps)
    ensures var w := Run(h, START, steps);
            && w.total <= Written(h, START, steps)
            && (w.total == Written(h, START, steps) <==>
                  forall id :: id in w.table && id in w.conns && w.table[id].Serving? ==>
                    w.conns[id].server.requestCount == 0)
  {
    hide Inv, Apply, Enabled, Sum, WritesResponse;
    TotalPlusLiveIsWritten(h, steps);
    var w := Run(h, START, steps);
    var counts := Counts(w);
    SumIsZero(counts);
    assert forall id :: id in counts <==> id in w.table && id in w.conns && w.table[id].Serving?;
    assert forall id :: id in counts ==> counts[id] == w.conns[id].server.requestCount;
  }

  /* ---- isolation ---- */

  /** The steps of one client. */
  function Project(steps: seq<Step>, id: nat): seq<Label> {
    if steps == [] then []
    else (if steps[0].At? && steps[0].id == id then [steps[0].l] else []) + Project(steps[1..], id)
  }

  /** What a client's connection goes through in a run with any number of other clients is a run of its
      own, made of its own steps. */
  lemma {:induction false} Projection(h: Handler, w: World, steps: seq<Step>, id: nat)
    requires Inv(h, w) && Legal(h, w, steps) && id in w.conns
    ensures id in Run(h, w, steps).conns
    ensures Connection.Legal(h, w.conns[id], Project(steps, id))
    ensures Connection.Run(h, w.conns[id], Project(steps, id)) == Run(h, w, steps).conns[id]
    decreases |steps|
  {
    hide Connection.Inv, Connection.Apply, Connection.Enabled;
    if steps != [] {
      var st, w' := steps[0], Apply(h, w, steps[0]);
      StepKeepsInv(h, w, st);
      Projection(h, w', steps[1..], id);
      var rest := Project(steps[1..], id);
      if st.At? && st.id == id {
        assert Project(steps, id) == [st.l] + rest;
        assert ([st.l] + rest)[0] == st.l && ([st.l] + rest)[1..] == rest;
      } else {
        assert Project(steps, id) == [] + rest == rest;
        assert w'.conns[id] == w.conns[id];
      }
    }
  }

  lemma {:induction false} RunsAloneOnceAccepted(h: Handler, w: World, steps: seq<Step>, id: nat)
    requires Inv(h, w) && Legal(h, w, steps) && id !in w.conns && id in Run(h, w, steps).conns
    ensures var ls := Project(steps, id);
            || (Connection.Legal(h, ACCEPTED, ls) && Run(h, w, steps).conns[id] == Connection.Run(h, ACCEPTED, ls))
            || (Connection.Legal(h, STRANDED, ls) && Run(h, w, steps).conns[id] == Connection.Run(h, STRANDED, ls))
    decreases |steps|
  {
    hide Connection.Inv, Connection.Apply, Connection.Enabled, Connection.Run, Connection.Legal;
    var st, w' := steps[0], Apply(h, w, steps[0]);
    StepKeepsInv(h, w, st);
    var rest := Project(steps[1..], id);
    assert Project(steps, id) == [] + rest == rest;
    if id in w'.conns {
      Projection(h, w', steps[1..], id);
    } else {
      RunsAloneOnceAccepted(h, w', steps[1..], id);
    }
  }

  /** From the start of the server: every connection began as a fresh one and ran by itself. */
  lemma EveryClientRunsAlone(h: Handler, steps: seq<Step>, id: nat)
    requires Legal(h, START, steps) && id in Run(h, START, steps).conns
    ensures var ls, c := Project(steps, id), Run(h, START, steps).conns[id];
            || (Connection.Legal(h, ACCEPTED, ls) && c == Connection.Run(h, ACCEPTED, ls))
            || (Connection.Legal(h, STRANDED, ls) && c == Connection.Run(h, STRANDED, ls))
  {
    hide Inv, Legal, Run, Apply, Enabled, Connection.Legal, Connection.Run;
    StartInv(h);
    assert id !in START.conns;
    RunsAloneOnceAccepted(h, START, steps, id);
  }

  /** Every client of a busy server sees its own call loop. */
  lemma EveryClientRefinesCallLoop(h: Handler, steps: seq<Step>, id: nat)
    requires Legal(h, START, steps) && id in Run(h, START, steps).conns
    ensures CallLoop(h, Run(h, START, steps).conns[id])
  {
    hide Connection.Inv, Apply, Enabled, Legal, Run, TableInv, CallLoop;
    StartInv(h);
    RunKeepsInv(h, START, steps);
    InvImpliesCallLoop(h, Run(h, START, steps).conns[id]);
  }
}
