/** The Asio client of the benchmark: an exchange is send length, send data, receive length, receive
    data, each phase a composed operation whose completion handler starts the next one.

    The functions say what each member function does to the client's state, and what every run of
    them keeps. The class in `AsioClientObject` does the same to fields. */
module AsioClient {
  import opened Framing
  import opened AsioEndpoint

  const UNLIMITED: nat := U64 - 1   // a default streambuf is limited by size_t only

  datatype ClientState = ClientState(
    ep: Endpoint,
    open: bool,                  // m_socket.is_open()
    timerArmed: bool,            // a wait on m_timeoutTimer is pending
    queuedTimeouts: nat,         // waits that expired and whose handler has not run; cancel() misses them
    requests: seq<Payload>,      // every request handed to initiateCommunication
    responses: seq<Payload>,     // every buffer m_communicateHandler was called with
    disconnects: nat             // calls of m_disconnectHandler
  )

  const FRESH := ClientState(New(UNLIMITED), true, false, 0, [], [], 0)

  /* ---- member functions, as state transformers ---- */

  function InitiateSendRequest(c: ClientState): ClientState {
    c.(ep := StartWriteLen(c.ep))
  }

  /** `sendRequest` appends the serialised message to the buffer and starts an exchange. */
  function InitiateCommunication(c: ClientState, request: Payload): ClientState {
    InitiateSendRequest(c.(ep := c.ep.(dataBuf := c.ep.dataBuf + request), requests := c.requests + [request]))
  }

  function OnLenSent(c: ClientState): ClientState {
    c.(ep := StartWriteData(c.ep))
  }

  /** Re-arming the timer cancels a pending wait, not an expired one. */
  function InitiateReceiveResponse(c: ClientState): ClientState {
    c.(ep := StartReadLen(c.ep), timerArmed := true)
  }

  function OnDataSent(c: ClientState): ClientState {
    InitiateReceiveResponse(c)
  }

  function OnLenReceived(c: ClientState): ClientState {
    c.(ep := StartReadData(c.ep))
  }

  /** `m_communicateHandler` parses the message, which drains the buffer. */
  function OnDataReceived(c: ClientState): ClientState
    requires |c.ep.dataBuf| < U64
  {
    c.(ep := c.ep.(phase := Idle, dataBuf := []), responses := c.responses + [c.ep.dataBuf])
  }

  function Disconnect(c: ClientState): ClientState {
    c.(ep := c.ep.(phase := Failed), disconnects := c.disconnects + 1)
  }

  function CheckTimeout(c: ClientState): ClientState
    requires c.queuedTimeouts > 0
  {
    c.(queuedTimeouts := c.queuedTimeouts - 1, open := false)
  }

  function WriteLenCompleted(c: ClientState, ec: bool): ClientState {
    if CheckOperation(ec, c.ep.done, HEADER) then OnLenSent(c) else Disconnect(c)
  }

  function WriteDataCompleted(c: ClientState, ec: bool): ClientState
    requires c.ep.done <= |c.ep.dataBuf|
  {
    var c := c.(ep := Consume(c.ep));
    if CheckOperation(ec, c.ep.done, c.ep.Length()) then OnDataSent(c) else Disconnect(c)
  }

  function ReadLenCompleted(c: ClientState, ec: bool): ClientState {
    if CheckOperation(ec, c.ep.done, HEADER) then OnLenReceived(c) else Disconnect(c)
  }

  function ReadDataCompleted(c: ClientState, ec: bool): ClientState
    requires |c.ep.dataBuf| < U64
  {
    var c := c.(timerArmed := false);
    if CheckOperation(ec, c.ep.done, c.ep.Length()) then OnDataReceived(c) else Disconnect(c)
  }

  /** The completion handler of the operation under way. */
  function Completed(c: ClientState, ec: bool): ClientState
    requires c.ep.Valid() && c.ep.Busy()
  {
    var c := c.(ep := c.ep.(completions := c.ep.completions + 1));
    match c.ep.phase
    case SendLen => WriteLenCompleted(c, ec)
    case SendData => WriteDataCompleted(c, ec)
    case RecvLen => ReadLenCompleted(c, ec)
    case RecvData => ReadDataCompleted(c, ec)
  }

  /* ---- runs of one client against any environment ---- */

  datatype Event =
    | Start(request: Payload)   // sendRequest
    | Reconnect                 // connect, between exchanges
    | Put(n: nat)               // part of a write reaches the wire
    | Take(chunk: Bytes)        // part of a read comes off the wire
    | Complete(ec: bool)        // the outstanding operation completes
    | TimerExpires
    | RunTimeout                // the expired wait's handler runs

  /** One exchange at a time: a request starts only when no operation is outstanding. */
  predicate Enabled(c: ClientState, ev: Event) {
    && c.ep.Valid()
    && match ev
       case Start(p) => !c.ep.Busy() && |c.ep.dataBuf| + |p| <= c.ep.maxSize
       case Reconnect => !c.ep.Busy()
       case Put(n) => c.open && 0 < n <= |c.ep.Unsent()|
       case Take(chunk) => c.open && 0 < |chunk| <= c.ep.Room()
       case Complete(ec) => c.ep.Busy() && (ec || c.ep.Settled())
       case TimerExpires => c.timerArmed
       case RunTimeout => c.queuedTimeouts > 0
  }

  function Apply(c: ClientState, ev: Event): ClientState
    requires Enabled(c, ev)
  {
    match ev
    case Start(p) => InitiateCommunication(c, p)
    case Reconnect => c.(open := true)
    case Put(n) => c.(ep := AsioEndpoint.Put(c.ep, n))
    case Take(chunk) => c.(ep := AsioEndpoint.Take(c.ep, chunk))
    case Complete(ec) => Completed(c, ec)
    case TimerExpires => c.(timerArmed := false, queuedTimeouts := c.queuedTimeouts + 1)
    case RunTimeout => CheckTimeout(c)
  }

  ghost predicate Legal(c: ClientState, evs: seq<Event>)
    decreases |evs|
  {
    evs == [] || (Enabled(c, evs[0]) && Legal(Apply(c, evs[0]), evs[1..]))
  }

  ghost function Run(c: ClientState, evs: seq<Event>): ClientState
    requires Legal(c, evs)
    decreases |evs|
  {
    if evs == [] then c else Run(Apply(c, evs[0]), evs[1..])
  }

  /* ---- exactly one outcome per exchange ---- */

  /** Composed operations of the current exchange that have completed. */
  function Stage(p: Phase): nat {
    match p
    case SendData => 1
    case RecvLen => 2
    case RecvData => 3
    case _ => 0
  }

  /** Every exchange started has had one outcome, except the one under way; a response takes four
      completions, a disconnect between one and four. */
  ghost predicate OneOutcome(c: ClientState) {
    && c.ep.Valid()
    && |c.requests| == |c.responses| + c.disconnects + (if c.ep.Busy() then 1 else 0)
    && 4 * |c.responses| + c.disconnects + Stage(c.ep.phase) <= c.ep.completions
    && c.ep.completions <= 4 * (|c.responses| + c.disconnects) + Stage(c.ep.phase)
  }

  /** A completion either moves to the next stage or is the outcome, one of the two kinds. */
  lemma CompletionAdvances(c: ClientState, ec: bool)
    requires c.ep.Valid() && c.ep.Busy()
    ensures var c' := Completed(c, ec);
            && c'.ep.Valid()
            && c'.ep.completions == c.ep.completions + 1
            && c'.requests == c.requests
            && if c'.ep.Busy() then
                 Stage(c'.ep.phase) == Stage(c.ep.phase) + 1
                 && |c'.responses| == |c.responses| && c'.disconnects == c.disconnects
               else
                 || (Stage(c.ep.phase) == 3 && |c'.responses| == |c.responses| + 1 && c'.disconnects == c.disconnects)
                 || (|c'.responses| == |c.responses| && c'.disconnects == c.disconnects + 1)
  {
    HeaderValue(c.ep.dataLen);
  }

  lemma OneOutcomeKept(c: ClientState, ev: Event)
    requires OneOutcome(c) && Enabled(c, ev)
    ensures OneOutcome(Apply(c, ev))
  {
    if ev.Complete? {
      CompletionAdvances(c, ev.ec);
    }
  }

  /** Under any mix of errors, short transfers, timeouts and reconnects. */
  lemma {:induction false} ExactlyOneOutcome(c: ClientState, evs: seq<Event>)
    requires OneOutcome(c) && Legal(c, evs)
    ensures OneOutcome(Run(c, evs))
    decreases |evs|
  {
    if evs != [] {
      OneOutcomeKept(c, evs[0]);
      ExactlyOneOutcome(Apply(c, evs[0]), evs[1..]);
    }
  }

  /** The exchange under way ends after at most as many completions as it has operations left,
      whatever else happens in between: an outcome cannot be starved. */
  lemma {:induction false} OutcomeWithinFourCompletions(c: ClientState, evs: seq<Event>)
    requires OneOutcome(c) && c.ep.Busy() && Legal(c, evs)
    requires forall ev :: ev in evs ==> !ev.Start?
    ensures Completions(evs) <= 4 - Stage(c.ep.phase)
    ensures Completions(evs) == 4 - Stage(c.ep.phase) ==> !Run(c, evs).ep.Busy()
    decreases |evs|
  {
    if evs != [] {
      var c' := Apply(c, evs[0]);
      OneOutcomeKept(c, evs[0]);
      if evs[0].Complete? {
        CompletionAdvances(c, evs[0].ec);
      }
      if c'.ep.Busy() {
        OutcomeWithinFourCompletions(c', evs[1..]);
      } else {
        IdleCompletesNothing(c', evs[1..]);
      }
    }
  }

  function Completions(evs: seq<Event>): nat {
    if evs == [] then 0 else (if evs[0].Complete? then 1 else 0) + Completions(evs[1..])
  }

  lemma {:induction false} IdleCompletesNothing(c: ClientState, evs: seq<Event>)
    requires c.ep.Valid() && !c.ep.Busy() && Legal(c, evs)
    requires forall ev :: ev in evs ==> !ev.Start?
    ensures Completions(evs) == 0 && !Run(c, evs).ep.Busy()
    ensures Run(c, evs).responses == c.responses && Run(c, evs).disconnects == c.disconnects
    ensures Run(c, evs).ep == c.ep
    decreases |evs|
  {
    if evs != [] {
      IdleCompletesNothing(Apply(c, evs[0]), evs[1..]);
    }
  }

  /* ---- the timeout ---- */

  predicate AwaitsResponse(c: ClientState) { c.ep.phase.RecvLen? || c.ep.phase.RecvData? }

  /** A client that waits for a response is never without a timeout: the timer is armed, or it has
      expired and its handler is about to run, or the handler has closed the socket. Until the first
      failure the timer is armed at no other time. */
  ghost predicate Guarded(c: ClientState) {
    && c.ep.Valid()
    && (AwaitsResponse(c) ==> c.timerArmed || c.queuedTimeouts > 0 || !c.open)
    && (c.timerArmed ==> AwaitsResponse(c) || c.disconnects > 0)
  }

  lemma CompletionKeepsGuarded(c: ClientState, ec: bool)
    requires Guarded(c) && c.ep.Busy()
    ensures Guarded(Completed(c, ec))
  {
    HeaderValue(c.ep.dataLen);
  }

  lemma {:induction false} AlwaysGuarded(c: ClientState, evs: seq<Event>)
    requires Guarded(c) && Legal(c, evs)
    ensures Guarded(Run(c, evs))
    decreases |evs|
  {
    hide Completed;
    if evs != [] {
      if evs[0].Complete? {
        CompletionKeepsGuarded(c, evs[0].ec);
      }
      AlwaysGuarded(Apply(c, evs[0]), evs[1..]);
    }
  }

  /** After a timeout has closed the socket nothing moves any more, whatever happens before the client
      reconnects: an exchange whose operation was still short of bytes ends, with its next completion,
      in exactly one disconnect and no response. */
  lemma {:induction false} TimeoutEndsExchange(c: ClientState, evs: seq<Event>)
    requires c.ep.Valid() && c.ep.Busy() && !c.open && !c.ep.Settled() && Legal(c, evs)
    requires forall ev :: ev in evs ==> !ev.Start? && !ev.Reconnect?
    ensures var c' := Run(c, evs);
            && c'.ep.sent == c.ep.sent && c'.ep.received == c.ep.received && c'.responses == c.responses
            && c'.disconnects == c.disconnects + (if Completions(evs) > 0 then 1 else 0)
            && (Completions(evs) > 0 ==> c'.ep.phase.Failed? && Completions(evs) == 1)
    decreases |evs|
  {
    if evs != [] {
      var c' := Apply(c, evs[0]);
      if evs[0].Complete? {
        CompletionAdvances(c, evs[0].ec);
        CompletionMovesNothing(c, evs[0].ec);
        ErrorDisconnects(c);
        IdleCompletesNothing(c', evs[1..]);
      } else {
        TimeoutEndsExchange(c', evs[1..]);
      }
    }
  }

  lemma ErrorDisconnects(c: ClientState)
    requires c.ep.Valid() && c.ep.Busy()
    ensures var c' := Completed(c, true);
            c'.ep.phase.Failed? && c'.disconnects == c.disconnects + 1 && c'.responses == c.responses
  {
  }

  /** What each completion handler does to the timer: the last one of a send arms it, a finished payload
      read cancels it whether or not it failed, and a length read leaves it alone, even if it fails. */
  lemma TimerAfterCompletion(c: ClientState, ec: bool)
    requires c.ep.Valid() && c.ep.Busy()
    ensures var c' := Completed(c, ec);
            && c'.timerArmed == (if c.ep.phase.RecvData? then false
                                 else if c.ep.phase.SendData? then c.timerArmed || c'.ep.phase.RecvLen?
                                 else c.timerArmed)
            && c'.queuedTimeouts == c.queuedTimeouts && c'.open == c.open
  {
  }

  /** What is in the buffer afterwards: a payload write consumes what it wrote, failed or not; a payload
      read empties it exactly if it succeeds, in the response handler. */
  lemma BufferAfterCompletion(c: ClientState, ec: bool)
    requires c.ep.Valid() && c.ep.Busy()
    ensures var c' := Completed(c, ec);
            c'.ep.dataBuf == if c.ep.phase.SendData? then c.ep.dataBuf[c.ep.done..]
                             else if c'.ep.phase.Idle? then []
                             else c.ep.dataBuf
  {
  }

  /** A completed length read failed at step i, and the timer has not expired since. */
  ghost predicate LeavesTimerArmed(c: ClientState, evs: seq<Event>, i: nat)
    requires i < |evs|
  {
    && evs[i].Complete?
    && Legal(c, evs[..i]) && Run(c, evs[..i]).ep.phase.RecvLen?
    && Enabled(Run(c, evs[..i]), evs[i]) && Apply(Run(c, evs[..i]), evs[i]).ep.phase.Failed?
    && TimerExpires !in evs[i..]
  }

  /** Where a timer outside a wait comes from: it can only have been left armed by a length read that
      failed. In any run, from any state in which it is armed for a wait or not at all. */
  lemma ArmedOutsideAWait(c: ClientState, evs: seq<Event>)
    requires c.ep.Valid() && Legal(c, evs) && (c.timerArmed ==> AwaitsResponse(c))
    ensures Run(c, evs).timerArmed && !AwaitsResponse(Run(c, evs)) ==>
              exists i: nat :: i < |evs| && LeavesTimerArmed(c, evs, i)
  {
    hide Run, LeavesTimerArmed;
    WhereTheTimerComesFrom(c, evs);
  }

  lemma HowAWaitIsLeftOver(c: ClientState, ev: Event)
    requires c.ep.Valid() && Enabled(c, ev)
    ensures var c' := Apply(c, ev);
            && c'.ep.Valid()
            && (c'.timerArmed && !AwaitsResponse(c') ==>
                  || (c.timerArmed && !AwaitsResponse(c) && !ev.TimerExpires?)
                  || (ev.Complete? && c.ep.phase.RecvLen? && c'.ep.phase.Failed?))
  {
  }

  lemma {:induction false} WhereTheTimerComesFrom(c: ClientState, evs: seq<Event>)
    requires c.ep.Valid() && Legal(c, evs)
    ensures Run(c, evs).timerArmed && !AwaitsResponse(Run(c, evs)) ==>
              || (c.timerArmed && !AwaitsResponse(c) && TimerExpires !in evs)
              || exists i: nat :: i < |evs| && LeavesTimerArmed(c, evs, i)
    decreases |evs|
  {
    hide Enabled, Apply, LeavesTimerArmed;
    if evs != [] && Run(c, evs).timerArmed && !AwaitsResponse(Run(c, evs)) {
      var ev, c' := evs[0], Apply(c, evs[0]);
      HowAWaitIsLeftOver(c, ev);
      WhereTheTimerComesFrom(c', evs[1..]);
      if i: nat :| i < |evs[1..]| && LeavesTimerArmed(c', evs[1..], i) {
        OneStepEarlier(c, evs, i);
      } else if !(c.timerArmed && !AwaitsResponse(c)) {
        FailsAtOnce(c, evs);
      }
    }
  }

  lemma OneStepEarlier(c: ClientState, evs: seq<Event>, i: nat)
    requires evs != [] && Enabled(c, evs[0]) && i < |evs| - 1 && LeavesTimerArmed(Apply(c, evs[0]), evs[1..], i)
    ensures LeavesTimerArmed(c, evs, i + 1)
  {
    hide Enabled, Apply;
    assert evs[..i + 1][1..] == evs[1..][..i] && evs[..i + 1][0] == evs[0];
    assert evs[i + 1..] == evs[1..][i..];
  }

  lemma FailsAtOnce(c: ClientState, evs: seq<Event>)
    requires evs != [] && Enabled(c, evs[0]) && evs[0].Complete? && TimerExpires !in evs[1..]
    requires c.ep.phase.RecvLen? && Apply(c, evs[0]).ep.phase.Failed?
    ensures LeavesTimerArmed(c, evs, 0)
  {
    hide Enabled, Apply;
    assert evs[..0] == [] && evs[0..] == evs;
    assert forall ev :: ev in evs ==> ev == evs[0] || ev in evs[1..];
  }

  function Count(evs: seq<Event>, ev: Event): nat {
    if evs == [] then 0 else (if evs[0] == ev then 1 else 0) + Count(evs[1..], ev)
  }

  /** In every run each expired wait's handler runs at most once, and the timer expires at most once for
      every wait that was started: an exchange has one. */
  lemma {:induction false} EachWaitEndsOnce(c: ClientState, evs: seq<Event>)
    requires c.ep.Valid() && Legal(c, evs)
    ensures Count(evs, RunTimeout) + Run(c, evs).queuedTimeouts == c.queuedTimeouts + Count(evs, TimerExpires)
    ensures Count(evs, TimerExpires) + (if Run(c, evs).timerArmed then 1 else 0)
         <= (if c.timerArmed then 1 else 0) + Completions(evs)
    decreases |evs|
  {
    hide Completed;
    if evs != [] {
      if evs[0].Complete? {
        CompletionAdvances(c, evs[0].ec);
        TimerAfterCompletion(c, evs[0].ec);
      }
      EachWaitEndsOnce(Apply(c, evs[0]), evs[1..]);
    }
  }

  /** A client that reconnects can write again, whatever failed before. */
  lemma ReconnectedClientWrites(c: ClientState, p: Payload)
    requires c.ep.Valid() && !c.ep.Busy() && |c.ep.dataBuf| + |p| <= c.ep.maxSize
    ensures var evs := [Reconnect, Start(p), Put(HEADER)];
            && Legal(c, evs) && Run(c, evs).open
            && Run(c, evs).ep.sent == c.ep.sent + Header(|c.ep.dataBuf| + |p|)
  {
    hide Legal, Run;
    var c1 := Apply(c, Reconnect);
    var c2 := Apply(c1, Start(p));
    assert c2.ep.Unsent() == Header(|c.ep.dataBuf| + |p|) == c2.ep.Unsent()[..HEADER];
    RunOfNone(Apply(c2, Put(HEADER)));
    RunFrom(c2, Put(HEADER), [], [Put(HEADER)]);
    RunFrom(c1, Start(p), [Put(HEADER)], [Start(p), Put(HEADER)]);
    RunFrom(c, Reconnect, [Start(p), Put(HEADER)], [Reconnect, Start(p), Put(HEADER)]);
  }

  /* ---- a timeout of the exchange before ---- */

  /** Until two operations of an exchange are complete its timer has not been armed, so only a wait
      left over from an earlier exchange can close its socket. */
  lemma {:induction false} NothingLeftOver(c: ClientState, evs: seq<Event>)
    requires c.ep.Valid() && Legal(c, evs)
    requires c.open && c.queuedTimeouts == 0 && !c.timerArmed
    requires Completions(evs) + Stage(c.ep.phase) <= 1 && (Completions(evs) == 0 || !AwaitsResponse(c))
    ensures Run(c, evs).open
    decreases |evs|
  {
    if evs != [] {
      if evs[0].Complete? {
        CompletionAdvances(c, evs[0].ec);
      }
      NothingLeftOver(Apply(c, evs[0]), evs[1..]);
    }
  }

  /** `cancel()` misses a wait that has already expired, and a failed length read does not cancel at all.
      An exchange is safe from being closed before it has sent its request if and only if no wait is
      left over when it starts. */
  lemma SendingIsUndisturbedIff(c: ClientState, p: Payload)
    requires Enabled(c, Start(p)) && c.open
    ensures (c.queuedTimeouts == 0 && !c.timerArmed) <==>
            forall evs :: Legal(Apply(c, Start(p)), evs) && Completions(evs) <= 1 ==>
              Run(Apply(c, Start(p)), evs).open
  {
    var c' := Apply(c, Start(p));
    if c.queuedTimeouts == 0 && !c.timerArmed {
      forall evs | Legal(c', evs) && Completions(evs) <= 1
        ensures Run(c', evs).open
      {
        NothingLeftOver(c', evs);
      }
    } else {
      var evs := LeftOverCloses(c');
      assert Legal(c', evs) && Completions(evs) <= 1 && !Run(c', evs).open;
    }
  }

  lemma LeftOverCloses(c: ClientState) returns (evs: seq<Event>)
    requires c.ep.Valid() && (c.queuedTimeouts > 0 || c.timerArmed)
    ensures Legal(c, evs) && Completions(evs) == 0 && !Run(c, evs).open
  {
    if c.queuedTimeouts > 0 {
      evs := [RunTimeout];
      assert evs[1..] == [];
    } else {
      evs := [TimerExpires, RunTimeout];
      assert evs[1..] == [RunTimeout] && evs[1..][1..] == [];
    }
  }

  /** It happens: the timer expires just before the last byte of a response is handled, the response is
      handled all the same, and the stale wait closes the socket of the next exchange while its length
      is still being sent, with no timer armed for it. */
  lemma StaleTimeoutClosesNext(c: ClientState, p: Payload)
    requires Inv(c) && c.ep.phase.RecvData? && c.ep.Settled() && c.open && c.timerArmed
    ensures var evs := [TimerExpires, Complete(false), Start(p), RunTimeout];
            && Legal(c, evs)
            && |Run(c, evs).responses| == |c.responses| + 1
            && Run(c, evs).requests == c.requests + [p]
            && Run(c, evs).ep.phase.SendLen? && !Run(c, evs).open && !Run(c, evs).timerArmed
  {
    assert c.ep.Valid();
    hide Inv, Completed, Legal, Run;
    var c1 := Apply(c, TimerExpires);
    StepKeepsInv(c, TimerExpires);
    LastCompletion(c1);
    var c2 := Apply(c1, Complete(false));
    var c3 := Apply(c2, Start(p));
    RunOfNone(Apply(c3, RunTimeout));
    RunFrom(c3, RunTimeout, [], [RunTimeout]);
    RunFrom(c2, Start(p), [RunTimeout], [Start(p), RunTimeout]);
    RunFrom(c1, Complete(false), [Start(p), RunTimeout], [Complete(false), Start(p), RunTimeout]);
    RunFrom(c, TimerExpires, [Complete(false), Start(p), RunTimeout], [TimerExpires, Complete(false), Start(p), RunTimeout]);
  }

  lemma RunOfNone(c: ClientState)
    ensures Legal(c, []) && Run(c, []) == c
  {
  }

  lemma RunFrom(c: ClientState, ev: Event, rest: seq<Event>, evs: seq<Event>)
    requires Enabled(c, ev) && Legal(Apply(c, ev), rest) && evs == [ev] + rest
    ensures Legal(c, evs) && Run(c, evs) == Run(Apply(c, ev), rest)
  {
    hide Enabled, Apply;
    assert evs[1..] == rest;
  }

  /** A client that waits for a response has sent an empty request. */
  const WAITING := ClientState(Endpoint(RecvLen, ZERO, [], UNLIMITED, HEADER, 0, Header(0), [], 2),
                               true, true, 0, [[]], [], 0)

  lemma EmptyRequestSent()
    ensures var evs := [Start([]), Put(HEADER), Complete(false), Complete(false)];
            Legal(FRESH, evs) && Run(FRESH, evs) == WAITING
  {
    hide DecodeLE, Digit, EncodeLE, Legal, Run;
    HeaderRoundTrip(0);
    var c1 := Apply(FRESH, Start([]));
    var c2 := Apply(c1, Put(HEADER));
    var c3 := Apply(c2, Complete(false));
    RunOfNone(WAITING);
    assert Apply(c3, Complete(false)) == WAITING;
    var done := Complete(false);
    RunFrom(c3, done, [], [done]);
    RunFrom(c2, done, [done], [done, done]);
    RunFrom(c1, Put(HEADER), [done, done], [Put(HEADER), done, done]);
    RunFrom(FRESH, Start([]), [Put(HEADER), done, done], [Start([]), Put(HEADER), done, done]);
  }

  /** Such a client there is: one whose exchange has two empty messages, before its last handler. */
  lemma BeforeTheLastHandler()
    ensures var evs := [Start([]), Put(HEADER), Complete(false), Complete(false)];
            && Legal(FRESH, evs) && Run(FRESH, evs) == WAITING
            && Legal(WAITING, [Take(ZERO), Complete(false)])
            && var c := Run(WAITING, [Take(ZERO), Complete(false)]);
               Inv(c) && c.ep.phase.RecvData? && c.ep.Settled() && c.open && c.timerArmed
  {
    hide DecodeLE, Digit, EncodeLE, Legal, Run, Inv;
    EmptyRequestSent();
    WaitingInv();
    var c5 := Apply(WAITING, Take(ZERO));
    ZeroIsZero();
    assert c5.ep.dataLen == ZERO;
    StepKeepsInv(WAITING, Take(ZERO));
    StepKeepsInv(c5, Complete(false));
    RunOfNone(Apply(c5, Complete(false)));
    RunFrom(c5, Complete(false), [], [Complete(false)]);
    RunFrom(WAITING, Take(ZERO), [Complete(false)], [Take(ZERO), Complete(false)]);
  }

  lemma WaitingInv()
    ensures Inv(WAITING)
  {
    hide DecodeLE, Digit, EncodeLE;
    HeaderRoundTrip(0);
    var none: seq<Payload>, empty: Payload := [], [];
    FramesSnoc(none, empty);
    assert none + [empty] == [empty];
    assert Frame(empty) == Header(0);
  }

  lemma ZeroIsZero()
    ensures DecodeLE(ZERO) == 0
  {
    var z := ZERO;
    assert DecodeLE(z[8..]) == 0 && DecodeLE(z[7..]) == 0 && DecodeLE(z[6..]) == 0 && DecodeLE(z[5..]) == 0;
    assert DecodeLE(z[4..]) == 0 && DecodeLE(z[3..]) == 0 && DecodeLE(z[2..]) == 0 && DecodeLE(z[1..]) == 0;
  }

  lemma LastCompletion(c: ClientState)
    requires Inv(c) && c.ep.phase.RecvData? && c.ep.Settled()
    ensures var c' := Completed(c, false);
            && c'.ep.phase.Idle? && c'.ep.Valid() && c'.ep.dataBuf == [] && c'.ep.maxSize == UNLIMITED
            && c'.open == c.open && c'.queuedTimeouts == c.queuedTimeouts && !c'.timerArmed
            && |c'.responses| == |c.responses| + 1 && c'.requests == c.requests
  {
    HeaderValue(c.ep.dataLen);
    ShortReadIff(c.ep, c.requests, c.responses);
  }

  /* ---- the stream invariant of one connection ---- */

  /** Everything a client says about the bytes it exchanged: it is at most one response behind, and
      every byte on the wire belongs to the frame of a request or of a response. */
  ghost predicate Inv(c: ClientState) {
    && Streams(c.ep, c.requests, c.responses)
    && c.ep.maxSize == UNLIMITED
    && |c.responses| <= |c.requests| <= |c.responses| + 1
    && (c.ep.Busy() ==> |c.requests| == |c.responses| + 1)
    && (c.ep.phase.Idle? ==> |c.requests| == |c.responses|)
    && (c.ep.phase.Failed? || c.ep.completions == 4 * |c.responses| + Stage(c.ep.phase))
  }

  lemma FreshInv()
    ensures Inv(FRESH) && OneOutcome(FRESH) && Guarded(FRESH)
  {
  }

  lemma StartKeepsInv(c: ClientState, p: Payload)
    requires Inv(c) && Enabled(c, Start(p)) && c.ep.phase.Idle?
    ensures Inv(Apply(c, Start(p)))
  {
    var e := c.ep.(dataBuf := c.ep.dataBuf + p);
    assert e.dataBuf == p;
    assert c.ep.sent + [] == c.ep.sent && c.ep.received + [] == c.ep.received;
    assert Frames(c.responses) + [] == Frames(c.responses);
    WriteStarts(e, c.requests, c.responses);
  }

  lemma WriteLenKeepsInv(c: ClientState)
    requires Inv(c) && c.ep.Settled() && c.ep.phase.SendLen?
    ensures Inv(Completed(c, false)) && !Completed(c, false).ep.phase.Failed?
  {
    hide Frames, Header;
    LenSent(c.ep.(completions := c.ep.completions + 1), c.requests, c.responses);
  }

  lemma WriteDataKeepsInv(c: ClientState)
    requires Inv(c) && c.ep.Settled() && c.ep.phase.SendData?
    ensures Inv(Completed(c, false)) && !Completed(c, false).ep.phase.Failed?
  {
    hide Frames, Header;
    var e := c.ep.(completions := c.ep.completions + 1);
    DataSent(e, c.requests, c.responses);
  }

  lemma ReadLenKeepsInv(c: ClientState)
    requires Inv(c) && c.ep.Settled() && c.ep.phase.RecvLen?
    ensures Inv(Completed(c, false)) && !Completed(c, false).ep.phase.Failed?
  {
    hide Frames, Header;
    LenReceived(c.ep.(completions := c.ep.completions + 1), c.requests, c.responses);
  }

  lemma ReadDataKeepsInv(c: ClientState)
    requires Inv(c) && c.ep.Settled() && c.ep.phase.RecvData?
    ensures Inv(Completed(c, false)) && !Completed(c, false).ep.phase.Failed?
  {
    HeaderValue(c.ep.dataLen);
    ShortReadIff(c.ep, c.requests, c.responses);
    DataReceived(c.ep, c.requests, c.responses);
    IdleStreams(Completed(c, false).ep, c.requests, Completed(c, false).responses);
  }

  /** Completion handlers move no bytes. */
  lemma CompletionMovesNothing(c: ClientState, ec: bool)
    requires c.ep.Valid() && c.ep.Busy()
    ensures Completed(c, ec).ep.sent == c.ep.sent && Completed(c, ec).ep.received == c.ep.received
  {
  }

  lemma ErrorKeepsInv(c: ClientState)
    requires Inv(c) && c.ep.Busy()
    ensures Inv(Completed(c, true)) && Completed(c, true).ep.phase.Failed?
  {
    hide Frames, Header;
    FailureKeepsPrefixes(c.ep, Completed(c, true).ep, c.requests, c.responses);
  }

  /** Every step of a connection that is given up at its first failure. */
  lemma StepKeepsInv(c: ClientState, ev: Event)
    requires Inv(c) && Enabled(c, ev)
    requires ev.Start? ==> c.ep.phase.Idle?
    ensures Inv(Apply(c, ev))
  {
    match ev
    case Start(p) => StartKeepsInv(c, p);
    case Put(n) => PutKeepsStreams(c.ep, n, c.requests, c.responses);
    case Take(chunk) => TakeKeepsStreams(c.ep, chunk, c.requests, c.responses);
    case Complete(ec) =>
      if ec {
        ErrorKeepsInv(c);
      } else {
        match c.ep.phase {
          case SendLen => WriteLenKeepsInv(c);
          case SendData => WriteDataKeepsInv(c);
          case RecvLen => ReadLenKeepsInv(c);
          case RecvData => ReadDataKeepsInv(c);
        }
      }
    case _ =>
  }
}

/** The client as an object. Each handler does to the fields what the function of the same name says of
    the state; what every run of the functions keeps is the object's `Valid()`. */
module AsioClientObject {
  import opened Framing
  import opened AsioEndpoint
  import Spec = AsioClient

  class Client {
    var phase: Phase              // which completion handler is outstanding
    var dataLen: Bytes
    var dataBuf: Bytes
    var want: nat
    var done: nat
    var open: bool
    var timerArmed: bool
    var queuedTimeouts: nat
    ghost var sent: Bytes
    ghost var received: Bytes
    ghost var completions: nat
    ghost var requests: seq<Payload>
    ghost var responses: seq<Payload>
    ghost var disconnects: nat

    ghost function State(): Spec.ClientState
      reads this
    {
      Spec.ClientState(Endpoint(phase, dataLen, dataBuf, Spec.UNLIMITED, want, done, sent, received, completions),
                  open, timerArmed, queuedTimeouts, requests, responses, disconnects)
    }

    /** Up to and including its first disconnect. */
    ghost predicate FirstUse()
      reads this
    {
      disconnects == 0 || (disconnects == 1 && phase.Failed?)
    }

    /** Every exchange started has had one outcome, except the one under way; a client waiting for a
        response is never without a timeout; and until its first disconnect the bytes it sent and took
        are those of its requests and responses. */
    ghost predicate Valid()
      reads this
    {
      && State().ep.Valid()
      && Spec.OneOutcome(State())
      && Spec.Guarded(State())
      && (phase.Idle? ==> dataBuf == [])
      && (phase.Failed? ==> disconnects > 0)
      && (FirstUse() ==> Spec.Inv(State()))
    }

    constructor ()
      ensures Valid() && State() == Spec.FRESH
    {
      phase, dataLen, dataBuf, want, done := Idle, ZERO, [], 0, 0;
      open, timerArmed, queuedTimeouts := true, false, 0;
      sent, received, completions := [], [], 0;
      requests, responses, disconnects := [], [], 0;
      new;
      Spec.FreshInv();
    }

    /** `connect`: the socket is open again; nothing else changes. */
    method Connect()
      requires Valid() && !State().ep.Busy()
      modifies this`open
      ensures Valid() && open && State() == Spec.Apply(old(State()), Spec.Reconnect)
    {
      StepKeepsValid(State(), Spec.Reconnect);
      open := true;
    }

    /** `m_disconnectHandler` is called exactly when the check fails. */
    method CheckOperation(ec: bool, bytesTransferred: nat, expectedLength: nat) returns (ok: bool)
      modifies this
      ensures ok == AsioEndpoint.CheckOperation(ec, bytesTransferred, expectedLength)
      ensures State() == if ok then old(State()) else Spec.Disconnect(old(State()))
    {
      if ec || bytesTransferred != expectedLength {
        phase := Failed;
        disconnects := disconnects + 1;
        return false;
      }
      return true;
    }

    /** The wait is over: its handler is queued, and cancelling no longer stops it. */
    method TimerExpires()
      requires Valid() && timerArmed
      modifies this
      ensures Valid() && State() == Spec.Apply(old(State()), Spec.TimerExpires)
    {
      StepKeepsValid(State(), Spec.TimerExpires);
      timerArmed, queuedTimeouts := false, queuedTimeouts + 1;
    }

    /** Closes the socket exactly when the wait was not cancelled. */
    method CheckTimeout(ec: bool)
      requires Valid() && (!ec ==> queuedTimeouts > 0)
      modifies this
      ensures Valid()
      ensures State() == if ec then old(State()) else Spec.Apply(old(State()), Spec.RunTimeout)
    {
      if !ec {
        StepKeepsValid(State(), Spec.RunTimeout);
        queuedTimeouts := queuedTimeouts - 1;
        open := false;
      }
    }

    /** Starts an exchange: nothing is on the wire yet, and what is to go there is the frame of the
        buffer, which is that of the request alone unless an earlier failure left something in it. */
    method InitiateCommunication(request: Payload)
      requires Valid() && !State().ep.Busy() && |dataBuf| + |request| <= Spec.UNLIMITED
      modifies this
      ensures Valid() && State().ep.Busy()
      ensures requests == old(requests) + [request]
      ensures sent == old(sent) && responses == old(responses) && disconnects == old(disconnects)
      ensures ToSend(State().ep) == Frame(old(dataBuf) + request)
      ensures old(phase).Idle? ==> ToSend(State().ep) == Frame(request)
      ensures State() == Spec.Apply(old(State()), Spec.Start(request))
    {
      hide Spec.Inv, Spec.Guarded;
      StepKeepsValid(State(), Spec.Start(request));
      dataBuf := dataBuf + request;
      requests := requests + [request];
      InitiateSendRequest();
      assert dataLen[0..] == dataLen;
    }

    method InitiateSendRequest()
      modifies this
      ensures State() == Spec.InitiateSendRequest(old(State()))
    {
      dataLen := Header(|dataBuf|);
      phase, want, done := SendLen, |dataLen|, 0;
    }

    method OnLenSent()
      modifies this
      ensures State() == Spec.OnLenSent(old(State()))
    {
      phase, want, done := SendData, |dataBuf|, 0;
    }

    method OnDataSent()
      modifies this
      ensures State() == Spec.OnDataSent(old(State()))
    {
      InitiateReceiveResponse();
    }

    method InitiateReceiveResponse()
      modifies this
      ensures State() == Spec.InitiateReceiveResponse(old(State()))
    {
      dataLen := ZERO;
      timerArmed := true;
      phase, want, done := RecvLen, |dataLen|, 0;
    }

    method OnLenReceived()
      modifies this
      ensures State() == Spec.OnLenReceived(old(State()))
    {
      phase, want, done := RecvData, DecodeLE(dataLen), 0;
    }

    method OnDataReceived()
      requires |dataBuf| < U64
      modifies this
      ensures State() == Spec.OnDataReceived(old(State()))
    {
      responses := responses + [dataBuf];
      dataBuf := [];
      phase := Idle;
    }

    method WriteLenCompleted(ec: bool)
      modifies this
      ensures State() == Spec.WriteLenCompleted(old(State()), ec)
    {
      var ok := CheckOperation(ec, done, HEADER);
      if ok { OnLenSent(); }
    }

    method WriteDataCompleted(ec: bool)
      requires done <= |dataBuf|
      modifies this
      ensures State() == Spec.WriteDataCompleted(old(State()), ec)
    {
      dataBuf := dataBuf[done..];
      var ok := CheckOperation(ec, done, DecodeLE(dataLen));
      if ok { OnDataSent(); }
    }

    method ReadLenCompleted(ec: bool)
      modifies this
      ensures State() == Spec.ReadLenCompleted(old(State()), ec)
    {
      var ok := CheckOperation(ec, done, HEADER);
      if ok { OnLenReceived(); }
    }

    method ReadDataCompleted(ec: bool)
      requires |dataBuf| < U64
      modifies this
      ensures State() == Spec.ReadDataCompleted(old(State()), ec)
    {
      timerArmed := false;
      var ok := CheckOperation(ec, done, DecodeLE(dataLen));
      if ok { OnDataReceived(); }
    }

    method Dispatch(ec: bool)
      requires State().ep.Valid() && State().ep.Busy()
      modifies this
      ensures State() == Spec.Completed(old(State()), ec)
    {
      completions := completions + 1;
      match phase {
        case SendLen => WriteLenCompleted(ec);
        case SendData => WriteDataCompleted(ec);
        case RecvLen => ReadLenCompleted(ec);
        case RecvData => ReadDataCompleted(ec);
      }
    }

    /** Exactly one completion handler is outstanding; this is the one that runs. It moves no byte and
        either leaves the exchange under way or is its outcome: one response or one disconnect. An
        error is always a disconnect. Until the first one, nothing else is, and the last handler of an
        exchange leaves every request answered by a frame that was taken off the wire whole. */
    method Completed(ec: bool)
      requires Valid() && State().ep.Busy() && (ec || State().ep.Settled())
      modifies this
      ensures Valid() && State() == Spec.Completed(old(State()), ec)
      ensures sent == old(sent) && received == old(received) && requests == old(requests)
      ensures State().ep.Busy() ==> responses == old(responses) && disconnects == old(disconnects)
      ensures !State().ep.Busy() ==>
                || (|responses| == |old(responses)| + 1 && disconnects == old(disconnects))
                || (responses == old(responses) && disconnects == old(disconnects) + 1)
      ensures ec ==> phase.Failed? && responses == old(responses)
      ensures timerArmed == (if old(phase).RecvData? then false else old(timerArmed) || (old(phase).SendData? && phase.RecvLen?))
      ensures queuedTimeouts == old(queuedTimeouts) && open == old(open)
      ensures !ec && old(FirstUse()) ==> !phase.Failed? && (phase.Idle? <==> old(phase).RecvData?)
      ensures !ec && old(FirstUse()) && phase.Idle? ==>
                received == Frames(responses) && sent == Frames(requests) && |responses| == |requests|
    {
      hide Spec.Completed, Spec.Inv;
      var s := State();
      StepKeepsValid(s, Spec.Complete(ec));
      Spec.CompletionMovesNothing(s, ec);
      Outcome(s, ec);
      Spec.TimerAfterCompletion(s, ec);
      Dispatch(ec);
      ghost var firstUse := old(FirstUse());
      if !ec && firstUse {
        FirstUseCompletes(s);
      }
    }

    /** Some bytes of the operation under way reach the wire. */
    method Transmit(n: nat) returns (bytes: Bytes)
      requires Valid() && open && 0 < n <= |State().ep.Unsent()|
      modifies this
      ensures Valid() && State() == Spec.Apply(old(State()), Spec.Put(n))
      ensures bytes == old(ToSend(State().ep))[..n] && sent == old(sent) + bytes
      ensures ToSend(State().ep) == old(ToSend(State().ep))[n..]
    {
      hide Spec.Inv, Spec.OneOutcome, Spec.Guarded;
      StepKeepsValid(State(), Spec.Put(n));
      PutMoves(State().ep, n);
      assert State().ep.Unsent()[..n] == ToSend(State().ep)[..n];
      bytes := if phase.SendLen? then dataLen[done..done + n] else dataBuf[done..done + n];
      assert bytes == State().ep.Unsent()[..n];
      done := done + n;
      sent := sent + bytes;
    }

    /** Some bytes come off the wire for the operation under way. */
    method Receive(chunk: Bytes)
      requires Valid() && open && 0 < |chunk| <= State().ep.Room()
      modifies this
      ensures Valid() && State() == Spec.Apply(old(State()), Spec.Take(chunk))
      ensures received == old(received) + chunk
    {
      hide Spec.Inv, Spec.OneOutcome, Spec.Guarded;
      StepKeepsValid(State(), Spec.Take(chunk));
      if phase.RecvLen? {
        dataLen := dataLen[..done] + chunk + dataLen[done + |chunk|..];
      } else {
        dataBuf := dataBuf + chunk;
      }
      done := done + |chunk|;
      received := received + chunk;
    }
  }

  /** What a step does to the parts of a client's `Valid()`. */
  lemma StepKeepsValid(c: Spec.ClientState, ev: Spec.Event)
    requires Spec.OneOutcome(c) && Spec.Guarded(c) && Spec.Enabled(c, ev)
    ensures Spec.OneOutcome(Spec.Apply(c, ev)) && Spec.Guarded(Spec.Apply(c, ev))
    ensures Spec.Inv(c) && (ev.Start? ==> c.ep.phase.Idle?) ==> Spec.Inv(Spec.Apply(c, ev))
  {
    hide Spec.Inv, Spec.Completed;
    Spec.OneOutcomeKept(c, ev);
    if ev.Complete? {
      Spec.CompletionKeepsGuarded(c, ev.ec);
    }
    if Spec.Inv(c) && (ev.Start? ==> c.ep.phase.Idle?) {
      Spec.StepKeepsInv(c, ev);
    }
  }

  lemma Outcome(c: Spec.ClientState, ec: bool)
    requires c.ep.Valid() && c.ep.Busy()
    ensures var c' := Spec.Completed(c, ec);
            && c'.requests == c.requests
            && (c'.ep.phase.Idle? ==> c'.ep.dataBuf == [])
            && (c'.ep.Busy() ==> c'.responses == c.responses && c'.disconnects == c.disconnects)
            && (!c'.ep.Busy() ==>
                  || (|c'.responses| == |c.responses| + 1 && c'.disconnects == c.disconnects && c'.ep.phase.Idle?)
                  || (c'.responses == c.responses && c'.disconnects == c.disconnects + 1 && c'.ep.phase.Failed?))
            && (ec ==> c'.ep.phase.Failed?)
  {
    HeaderValue(c.ep.dataLen);
  }

  lemma FirstUseCompletes(c: Spec.ClientState)
    requires Spec.Inv(c) && c.ep.Settled()
    ensures var c' := Spec.Completed(c, false);
            && !c'.ep.phase.Failed?
            && (c'.ep.phase.Idle? <==> c.ep.phase.RecvData?)
            && (c'.ep.phase.Idle? ==>
                  c'.ep.received == Frames(c'.responses) && c'.ep.sent == Frames(c'.requests)
                  && |c'.responses| == |c'.requests|)
  {
    hide Frames, Header;
    match c.ep.phase {
      case SendLen => Spec.WriteLenKeepsInv(c);
      case SendData => Spec.WriteDataKeepsInv(c);
      case RecvLen => Spec.ReadLenKeepsInv(c);
      case RecvData =>
        Spec.ReadDataKeepsInv(c);
        var e := Spec.Completed(c, false).ep;
        assert e.sent + [] == e.sent && e.received + [] == e.received;
    }
  }
}
