/** Deadlock freedom and termination of every pairing on which nothing fails, with one `readyRead` for
    each arrival on a Qt side. */
module PairProgress {
  import opened Framing
  import Ep = AsioEndpoint
  import AsioClient
  import AsioSession
  import Qt = QtEndpoints
  import D = QtDecoder
  import opened Interop
  import Progress

  /* ---- at rest ---- */

  /** A side that will not do anything unless something arrives: an Asio side with no operation under
      way or one that waits for bytes, a Qt side with no `readyRead` due. */
  predicate ClientRests(x: ClientSide) {
    match x
    case AsioC(c) => c.ep.Valid() && (c.ep.phase.Idle? || c.ep.Room() > 0)
    case QtC(_, signalled, open) => open && !signalled
  }

  predicate ServerRests(x: ServerSide) {
    match x
    case AsioS(s) => s.ep.Valid() && s.ep.Room() > 0
    case QtS(_, _, signalled, open) => open && !signalled
  }

  lemma QtRestDelivers(d: D.Decoder, out: seq<Payload>)
    requires D.Inv(d) && D.Quiescent(d) && D.Short(out) && d.arrived == Frames(out)
    ensures d.emitted == D.NonEmpty(out)
  {
    hide Frames, D.ReadyRead, D.Short;
    D.SmallFramesHaveSmallHeaders(out);
    D.QuiescentDecoderIsExactIff(d);
    ParseUnique(out, []);
    assert Frames(out) + [] == Frames(out);
  }

  lemma ServerRestDelivers(h: Handler, x: ServerSide, out: seq<Payload>)
    requires ServerInv(h, x) && ServerRests(x) && Readable(x.QtS?, out) && ServerReceived(x) == Frames(out)
    ensures Handled(x) == Seen(x.QtS?, out) && ServerSent(x) == Frames(Replies(h, Handled(x)))
  {
    hide D.Quiescent, D.Inv, D.Short;
    match x
    case AsioS(s) =>
      Ep.WaitingMeansParsed(s.ep, Replies(h, s.handled), s.handled);
      ParseUnique(out, []);
      assert Frames(out) + [] == Frames(out);
      assert s.ep.sent + [] == s.ep.sent;
    case QtS(w, _, _, _) => QtRestDelivers(w.d, out);
  }

  lemma ClientRestDelivers(x: ClientSide, replies: seq<Payload>)
    requires ClientInv(x) && ClientRests(x) && D.Short(replies) && ClientReceived(x) == Frames(replies)
    ensures Responses(x) == Seen(x.QtC?, replies)
  {
    hide D.Quiescent, D.Inv, D.Short;
    match x
    case AsioC(c) =>
      ParseUnique(replies, []);
      assert Frames(replies) + [] == Frames(replies);
      if c.ep.phase.Idle? {
        assert c.ep.received + [] == c.ep.received;
        ParseUnique(c.responses, []);
      } else {
        Ep.WaitingMeansParsed(c.ep, c.requests, c.responses);
      }
    case QtC(q, _, _) => QtRestDelivers(q.d, replies);
  }

  lemma RestingClientHasSent(x: ClientSide)
    requires ClientInv(x) && ClientRests(x)
    ensures ClientSent(x) == Frames(Requests(x))
  {
    hide D.Quiescent, D.Inv;
    if x.AsioC? {
      assert x.c.ep.sent + [] == x.c.ep.sent;
    }
  }

  ghost predicate AtRest(c: Pair) {
    c.c2s == [] && c.s2c == [] && ClientRests(c.client) && ServerRests(c.server)
  }

  /** If nothing is in flight and both sides rest, no message is left lying anywhere, although no Qt side
      looks at its socket again by itself: each side has seen all the other has sent. */
  lemma RestMeansDelivered(h: Handler, c: Pair)
    requires JointInv(h, c) && AtRest(c)
    ensures Handled(c.server) == Seen(c.server.QtS?, Requests(c.client))
    ensures Responses(c.client) == Seen(c.client.QtC?, Replies(h, Handled(c.server)))
  {
    hide ClientInv, ServerInv, ClientRests, ServerRests, Frames, Requests, Responses, Handled, Seen, Readable,
      ClientSent, ClientReceived, ServerSent, ServerReceived;
    RestingClientHasSent(c.client);
    ServerRestDelivers(h, c.server, Requests(c.client));
    RepliesAreShort(h, Handled(c.server));
    ClientRestDelivers(c.client, Replies(h, Handled(c.server)));
  }

  /** No message is one that its receiver would drop. */
  ghost predicate NoneDropped(h: Handler, qtClient: bool, qtServer: bool, ps: seq<Payload>) {
    (qtServer ==> [] !in ps) && (qtClient ==> [] !in Replies(h, ps))
  }

  /** At rest every request has been answered if and only if no Qt server was sent an empty request and
      no Qt client an empty reply: nothing else can stop an exchange half way. */
  lemma RestMeansAnsweredIff(h: Handler, c: Pair)
    requires JointInv(h, c) && AtRest(c)
    ensures Responses(c.client) == Replies(h, Requests(c.client)) <==>
            NoneDropped(h, c.client.QtC?, c.server.QtS?, Requests(c.client))
    ensures c.client.AsioC? && |Responses(c.client)| == |Requests(c.client)| ==> c.client.c.ep.phase.Idle?
  {
    hide JointInv, ClientRests, ServerRests, Requests, Responses, Handled, Seen;
    RestMeansDelivered(h, c);
    SeenLength(c.server.QtS?, Requests(c.client));
    SeenLength(c.client.QtC?, Replies(h, Handled(c.server)));
    if c.client.AsioC? && |Responses(c.client)| == |Requests(c.client)| {
      AnsweredMeansIdle(h, c);
    }
  }

  lemma AnsweredMeansIdle(h: Handler, c: Pair)
    requires JointInv(h, c) && AtRest(c) && c.client.AsioC? && |Responses(c.client)| == |Requests(c.client)|
    ensures c.client.c.ep.phase.Idle?
  {
  }

  /** The same in every run of every pairing, whatever has failed. */
  lemma EveryRestingPairHasAnsweredIff(h: Handler, qtClient: bool, qtServer: bool, threaded: bool, ls: seq<Label>)
    requires Legal(h, Fresh(qtClient, qtServer, threaded), ls)
    ensures var c := Run(h, Fresh(qtClient, qtServer, threaded), ls);
            AtRest(c) && Readable(qtServer, Requests(c.client)) ==>
              (Responses(c.client) == Replies(h, Requests(c.client)) <==>
                 NoneDropped(h, qtClient, qtServer, Requests(c.client)))
  {
    hide JointInv, Legal, Run, Fresh, Requests, Responses, Readable, AtRest, NoneDropped;
    FreshInv(h, qtClient, qtServer, threaded);
    FreshKinds(qtClient, qtServer, threaded);
    var c := Run(h, Fresh(qtClient, qtServer, threaded), ls);
    if AtRest(c) && Readable(qtServer, Requests(c.client)) {
      RunKeepsInv(h, Fresh(qtClient, qtServer, threaded), ls);
      RestMeansAnsweredIff(h, c);
    }
  }

  /** An empty request to a Qt server is taken off the wire, and both sides then rest without an answer:
      only the client's timer is left. */
  lemma EmptyRequestIsNeverAnswered(h: Handler, threaded: bool)
    ensures var ls, c := [Send([]), ServerTake(HEADER), ServerRuns(false)], Fresh(true, true, threaded);
            && Legal(h, c, ls)
            && AtRest(Run(h, c, ls)) && Requests(Run(h, c, ls).client) == [[]] && Responses(Run(h, c, ls).client) == []
            && Run(h, c, ls).client.QtC? && Run(h, c, ls).client.q.timerActive
  {
    hide Enabled, Apply, Fresh, Legal, Run;
    var none: Payload := [];
    var c := Fresh(true, true, threaded);
    RequestIsSent(h, threaded, none);
    var c1 := Apply(h, c, Send(none));
    HeaderIsTaken(h, c1, threaded, none);
    var c2 := Apply(h, c1, ServerTake(HEADER));
    ZeroLengthIsDropped(h, c2, threaded);
    RunOfNone(h, Apply(h, c2, ServerRuns(false)));
    RunFrom(h, c2, ServerRuns(false), [], [ServerRuns(false)]);
    RunFrom(h, c1, ServerTake(HEADER), [ServerRuns(false)], [ServerTake(HEADER), ServerRuns(false)]);
    RunFrom(h, c, Send(none), [ServerTake(HEADER), ServerRuns(false)], [Send(none), ServerTake(HEADER), ServerRuns(false)]);
  }

  lemma ZeroLengthIsDropped(h: Handler, c: Pair, threaded: bool)
    requires c.server == QtS(Qt.Deliver(Qt.NEW_WORKER, Header(0)), threaded, true, true)
    ensures Enabled(c, ServerRuns(false))
    ensures var c' := Apply(h, c, ServerRuns(false));
            && c'.client == c.client && c'.c2s == c.c2s && c'.s2c == c.s2c
            && ServerRests(c'.server)
  {
    hide D.ReadyRead, Header;
    NothingEmitted();
    assert c.s2c + [] == c.s2c;
  }

  lemma NothingEmitted()
    ensures D.ReadyRead(D.Arrive(D.FRESH, Header(0))).emitted == []
  {
    hide DecodeLE, Digit, EncodeLE;
    HeaderRoundTrip(0);
    var b := Header(0);
    assert [] + b == b && b[..HEADER] == b;
  }

  /* ---- no deadlock ---- */

  /** No error code, no failed write, no timeout, no socket going away. */
  predicate Sound(l: Label) {
    match l
    case Send(_) => true
    case ClientPut(_) => true
    case ClientTake(_) => true
    case ClientRuns(ec) => !ec
    case ServerPut(_) => true
    case ServerTake(_) => true
    case ServerRuns(ec) => !ec
    case _ => false
  }

  /** Requests and replies that these two sides can exchange: none dropped, no request too big for an
      Asio server's buffer or a Qt server's idea of a length. */
  ghost predicate Fits(h: Handler, qtClient: bool, qtServer: bool, ps: seq<Payload>) {
    && NoneDropped(h, qtClient, qtServer, ps)
    && (if qtServer then D.Short(ps) else forall p :: p in ps ==> |p| <= LIMIT)
  }

  predicate ClientUp(x: ClientSide) {
    if x.AsioC? then x.c.open && !x.c.ep.phase.Failed? else x.open
  }

  predicate ServerUp(x: ServerSide) {
    if x.AsioS? then x.s.ep.Busy() else x.open
  }

  ghost predicate Live(h: Handler, c: Pair) {
    && JointInv(h, c)
    && ClientUp(c.client) && ServerUp(c.server)
    && Fits(h, c.client.QtC?, c.server.QtS?, Requests(c.client))
  }

  /** What the client does next, if it can do anything. */
  function ClientNext(c: Pair): Label {
    match c.client
    case AsioC(a) =>
      if !a.ep.Valid() then ClientDrops
      else if a.ep.Unsent() != [] then ClientPut(|a.ep.Unsent()|)
      else if a.ep.Settled() then ClientRuns(false)
      else ClientTake(Progress.Min(a.ep.Room(), |c.s2c|))
    case QtC(_, signalled, _) => if signalled then ClientRuns(false) else ClientTake(|c.s2c|)
  }

  function ServerNext(c: Pair): Label {
    match c.server
    case AsioS(s) =>
      if !s.ep.Valid() then ServerDrops
      else if s.ep.Unsent() != [] then ServerPut(|s.ep.Unsent()|)
      else if s.ep.Settled() then ServerRuns(false)
      else ServerTake(Progress.Min(s.ep.Room(), |c.c2s|))
    case QtS(_, _, signalled, _) => if signalled then ServerRuns(false) else ServerTake(|c.c2s|)
  }

  lemma ClientGoesOn(h: Handler, c: Pair)
    requires Live(h, c) && |Responses(c.client)| < |Requests(c.client)|
    ensures Enabled(c, ClientNext(c)) || (ClientRests(c.client) && c.s2c == [])
  {
    hide Frames, Ep.ToSend, Ep.Partial, D.Inv, D.Quiescent, ServerInv;
  }

  lemma ServerGoesOn(h: Handler, c: Pair)
    requires Live(h, c)
    ensures Enabled(c, ServerNext(c)) || (ServerRests(c.server) && c.c2s == [])
  {
    hide Frames, Ep.ToSend, Ep.Partial, D.Inv, D.Quiescent, ClientInv;
  }

  lemma NextIsSound(c: Pair)
    ensures Enabled(c, ClientNext(c)) ==> Sound(ClientNext(c)) && !ClientNext(c).Send? && !IsServers(ClientNext(c))
    ensures Enabled(c, ServerNext(c)) ==> Sound(ServerNext(c)) && IsServers(ServerNext(c))
  {
  }

  /** In every failure-free state of every pairing with an unanswered request some step is enabled. */
  lemma NeverStuck(h: Handler, c: Pair)
    requires Live(h, c) && |Responses(c.client)| < |Requests(c.client)|
    ensures Enabled(c, ClientNext(c)) || Enabled(c, ServerNext(c))
  {
    hide JointInv, ClientRests, ServerRests, Enabled, ClientNext, ServerNext, Requests, Responses;
    ClientGoesOn(h, c);
    ServerGoesOn(h, c);
    if !Enabled(c, ClientNext(c)) && !Enabled(c, ServerNext(c)) {
      RestMeansAnsweredIff(h, c);
    }
  }

  /* ---- failure-free states stay so ---- */

  lemma FitsPrefix(h: Handler, qtClient: bool, qtServer: bool, ps: seq<Payload>, qs: seq<Payload>)
    requires Fits(h, qtClient, qtServer, qs) && ps <= qs
    ensures Fits(h, qtClient, qtServer, ps)
  {
    assert forall p :: p in ps ==> p in qs;
    var rs := Replies(h, ps);
    assert forall i :: 0 <= i < |rs| ==> rs[i] == Replies(h, qs)[i];
    assert forall p :: p in rs ==> p in Replies(h, qs);
  }

  /** With nothing dropped the two sides are in the plain call loop. */
  lemma LiveCallLoop(h: Handler, c: Pair)
    requires Live(h, c)
    ensures Handled(c.server) <= Requests(c.client)
    ensures Responses(c.client) <= Replies(h, Handled(c.server))
  {
    hide JointInv, ClientUp, ServerUp, Requests, Responses, Handled, Seen;
    InvImpliesCallLoop(h, c);
    SeenLength(c.server.QtS?, Requests(c.client));
    FitsPrefix(h, c.client.QtC?, c.server.QtS?, Handled(c.server), Requests(c.client));
    SeenLength(c.client.QtC?, Replies(h, Handled(c.server)));
  }

  lemma AsioClientStaysUp(a: AsioClient.ClientState)
    requires AsioClient.Inv(a) && a.ep.Settled()
    ensures !AsioClient.Completed(a, false).ep.phase.Failed? && AsioClient.Completed(a, false).open == a.open
  {
    match a.ep.phase
    case SendLen => AsioClient.WriteLenKeepsInv(a);
    case SendData => AsioClient.WriteDataKeepsInv(a);
    case RecvLen => AsioClient.ReadLenKeepsInv(a);
    case RecvData => AsioClient.ReadDataKeepsInv(a);
  }

  lemma ClientStaysUp(h: Handler, c: Pair, l: Label)
    requires Live(h, c) && !IsServers(l) && ClientEnabled(c, l) && Sound(l)
    ensures ClientUp(ClientStep(c, l))
  {
    hide AsioClient.Completed, Ep.Streams, NoneDropped, ServerInv;
    if c.client.AsioC? && l.ClientRuns? {
      AsioClientStaysUp(c.client.c);
    }
  }

  /** The length an Asio session has read is that of a request it may be sent. */
  lemma AnnouncedFits(h: Handler, c: Pair)
    requires Live(h, c) && c.server.AsioS? && c.server.s.ep.phase.RecvData?
    ensures |c.server.s.handled| < |Requests(c.client)|
    ensures c.server.s.ep.Length() <= LIMIT
  {
    hide ClientInv, NoneDropped;
    InvImpliesCallLoop(h, c);
    var e := c.server.s.ep;
    Progress.HeaderIsNext(Requests(c.client), c.server.s.handled, e.dataLen, e.dataBuf, e.received);
  }

  lemma BusyUnlessFailed(h: Handler, s: AsioSession.SessionState)
    requires s.ep.Valid() && s.ep.Busy()
    ensures AsioSession.Completed(h, s, false).ep.Busy() || AsioSession.Completed(h, s, false).ep.phase.Failed?
  {
  }

  lemma ServerStaysUp(h: Handler, c: Pair, l: Label)
    requires Live(h, c) && IsServers(l) && ServerEnabled(c, l) && Sound(l)
    ensures ServerUp(ServerStep(h, c, l))
  {
    hide AsioSession.Completed, NoneDropped, ClientInv, Qt.WorkerInv, D.Quiescent, Ep.Streams;
    if c.server.AsioS? && l.ServerRuns? {
      BusyUnlessFailed(h, c.server.s);
      AsioSession.CompletedKeepsInv(h, c.server.s, false);
      if c.server.s.ep.phase.RecvData? {
        AnnouncedFits(h, c);
      }
    }
  }

  lemma SoundKeepsLive(h: Handler, c: Pair, l: Label)
    requires Live(h, c) && Enabled(c, l) && Sound(l)
    requires Fits(h, c.client.QtC?, c.server.QtS?, Requests(Apply(h, c, l).client))
    ensures Live(h, Apply(h, c, l)) && SameKinds(c, Apply(h, c, l))
  {
    hide JointInv, ClientStep, ServerStep, ClientEnabled, ServerEnabled, ClientUp, ServerUp, Sound;
    StepKeepsInv(h, c, l);
    if IsServers(l) {
      ServerStaysUp(h, c, l);
    } else {
      ClientStaysUp(h, c, l);
    }
  }

  /* ---- no livelock ---- */

  /** Bytes moved and handlers run. A Qt side runs its handler at most once for each byte that came. */
  ghost function ClientWork(x: ClientSide): int {
    match x
    case AsioC(a) => |a.ep.sent| + |a.ep.received| + a.ep.completions
    case QtC(q, signalled, _) => |q.sent| + 2 * |q.d.arrived| - if signalled then 1 else 0
  }

  ghost function ServerWork(x: ServerSide): int {
    match x
    case AsioS(s) => |s.ep.sent| + |s.ep.received| + s.ep.completions
    case QtS(w, _, signalled, _) => |w.outbox| + 2 * |w.d.arrived| - if signalled then 1 else 0
  }

  /** Every byte of every frame is put once, taken once and announced at most once; every exchange has
      four completions a side. */
  ghost function Bound(h: Handler, out: seq<Payload>): nat {
    3 * |Frames(out)| + 3 * |Frames(Replies(h, out))| + 8 * |out|
  }

  lemma ClientStepIsWork(h: Handler, c: Pair, l: Label)
    requires Live(h, c) && !IsServers(l) && ClientEnabled(c, l) && Sound(l)
    ensures ClientWork(ClientStep(c, l)) >= ClientWork(c.client) + if l.Send? then 0 else 1
  {
    hide AsioClient.Completed, Ep.Streams, NoneDropped, ServerInv, D.Inv, D.ReadyRead, Frames;
    if l.ClientRuns? {
      if c.client.AsioC? {
        AsioClient.CompletionMovesNothing(c.client.c, l.ec);
        AsioClient.CompletionAdvances(c.client.c, l.ec);
      } else {
        D.ReadyReadArrives(c.client.q.d);
      }
    }
  }

  lemma ServerStepIsWork(h: Handler, c: Pair, l: Label)
    requires Live(h, c) && IsServers(l) && ServerEnabled(c, l) && Sound(l)
    ensures ServerWork(ServerStep(h, c, l)) >= ServerWork(c.server) + 1
  {
    hide AsioSession.Completed, Ep.Streams, NoneDropped, ClientInv, D.Inv, D.ReadyRead, Frames;
    if l.ServerRuns? {
      if c.server.AsioS? {
        AsioSession.CompletionMovesNothing(h, c.server.s, l.ec);
        AsioSession.CompletionCounts(h, c.server.s, l.ec);
      } else {
        D.ReadyReadArrives(c.server.w.d);
      }
    }
  }

  ghost function Work(c: Pair): int { ClientWork(c.client) + ServerWork(c.server) }

  lemma StepIsWork(h: Handler, c: Pair, l: Label)
    requires Live(h, c) && Enabled(c, l) && Sound(l)
    ensures Work(Apply(h, c, l)) >= Work(c) + if l.Send? then 0 else 1
  {
    hide Live, ClientStep, ServerStep, ClientEnabled, ServerEnabled, ClientWork, ServerWork, Sound;
    if IsServers(l) {
      ServerStepIsWork(h, c, l);
    } else {
      ClientStepIsWork(h, c, l);
    }
  }

  lemma ClientWorkIsBounded(x: ClientSide)
    requires ClientInv(x) && ClientUp(x)
    ensures ClientWork(x) <= |ClientSent(x)| + 2 * |ClientReceived(x)| + 4 * |Requests(x)|
  {
    hide Ep.Streams, D.Inv, Frames;
  }

  lemma ServerWorkIsBounded(h: Handler, c: Pair)
    requires Live(h, c)
    ensures ServerWork(c.server) <= |ServerSent(c.server)| + 2 * |ServerReceived(c.server)| + 4 * |Requests(c.client)|
  {
    hide ClientInv, D.Inv, Frames, NoneDropped, Ep.Streams;
    InvImpliesCallLoop(h, c);
    if c.server.AsioS? && c.server.s.ep.phase.RecvData? {
      AnnouncedFits(h, c);
    }
  }

  lemma WorkIsBounded(h: Handler, c: Pair)
    requires Live(h, c)
    ensures Work(c) <= Bound(h, Requests(c.client))
  {
    hide ClientInv, ServerInv, NoneDropped, ClientUp, ServerUp, Frames, ClientWork, ServerWork,
      ClientSent, ClientReceived, ServerSent, ServerReceived, Requests, Responses, Handled;
    InvImpliesCallLoop(h, c);
    LiveCallLoop(h, c);
    var out, handled := Requests(c.client), Handled(c.server);
    ClientSends(c.client);
    ServerDelivers(h, c.server, out);
    assert Replies(h, handled) <= Replies(h, out);
    FramesLonger(Replies(h, handled), Replies(h, out));
    ClientWorkIsBounded(c.client);
    ServerWorkIsBounded(h, c);
  }

  /* ---- every failure-free run ---- */

  function Sent(ls: seq<Label>): seq<Payload> {
    if ls == [] then [] else Requested(ls[0]) + Sent(ls[1..])
  }

  lemma {:induction false} RunRecords(h: Handler, c: Pair, ls: seq<Label>)
    requires Legal(h, c, ls)
    ensures Requests(Run(h, c, ls).client) == Requests(c.client) + Sent(ls)
    decreases |ls|
  {
    hide Apply, Enabled, Requests;
    if ls == [] {
      assert Requests(c.client) + [] == Requests(c.client);
    } else {
      StepRecords(h, c, ls[0]);
      RunRecords(h, Apply(h, c, ls[0]), ls[1..]);
      Progress.Reassociate(Requests(c.client), Requested(ls[0]), Sent(ls[1..]));
    }
  }

  lemma {:induction false} RunIsWork(h: Handler, c: Pair, ls: seq<Label>)
    requires Live(h, c) && Legal(h, c, ls)
    requires forall l :: l in ls ==> Sound(l)
    requires Fits(h, c.client.QtC?, c.server.QtS?, Requests(Run(h, c, ls).client))
    ensures Live(h, Run(h, c, ls))
    ensures Work(c) + |ls| <= Work(Run(h, c, ls)) + |Sent(ls)|
    decreases |ls|
  {
    hide Live, Enabled, Apply, Work, Fits, Requests;
    if ls != [] {
      var c' := Apply(h, c, ls[0]);
      assert ls[0] in ls;
      RequestsGrow(h, c', ls[1..]);
      FitsPrefix(h, c.client.QtC?, c.server.QtS?, Requests(c'.client), Requests(Run(h, c, ls).client));
      SoundKeepsLive(h, c, ls[0]);
      StepIsWork(h, c, ls[0]);
      RunIsWork(h, c', ls[1..]);
    }
  }

  lemma FreshIsLive(h: Handler, qtClient: bool, qtServer: bool, threaded: bool)
    ensures var c := Fresh(qtClient, qtServer, threaded);
            && Live(h, c) && Work(c) == 0 && Requests(c.client) == []
            && (c.client.QtC? <==> qtClient) && (c.server.QtS? <==> qtServer)
  {
    hide JointInv;
    FreshInv(h, qtClient, qtServer, threaded);
  }

  lemma AnsweredWhenStuck(h: Handler, c: Pair)
    requires Live(h, c)
    requires forall l :: Enabled(c, l) && Sound(l) ==> l.Send?
    ensures Responses(c.client) == Replies(h, Requests(c.client))
  {
    hide ClientInv, ServerInv, NoneDropped, Enabled, ClientNext, ServerNext, Sound, Requests, Responses, Handled;
    NextIsSound(c);
    if |Responses(c.client)| < |Requests(c.client)| {
      NeverStuck(h, c);
    }
    InvImpliesCallLoop(h, c);
    LiveCallLoop(h, c);
  }

  /** Whichever client with whichever server: a failure-free run with n requests takes a bounded number
      of steps, however they interleave and however the bytes are cut, and if it cannot be extended
      without a new request, every request has been answered. */
  lemma EveryPairingAnswers(h: Handler, qtClient: bool, qtServer: bool, threaded: bool, ls: seq<Label>)
    requires Legal(h, Fresh(qtClient, qtServer, threaded), ls)
    requires forall l :: l in ls ==> Sound(l)
    requires Fits(h, qtClient, qtServer, Sent(ls))
    ensures |ls| <= |Sent(ls)| + Bound(h, Sent(ls))
    ensures var c := Run(h, Fresh(qtClient, qtServer, threaded), ls);
            (forall l :: Enabled(c, l) && Sound(l) ==> l.Send?) ==>
              Responses(c.client) == Replies(h, Sent(ls))
  {
    hide Live, Enabled, Sound, Legal, Run, Bound, Fits, Work, Fresh, Requests, Responses;
    var start := Fresh(qtClient, qtServer, threaded);
    FreshIsLive(h, qtClient, qtServer, threaded);
    RunRecords(h, start, ls);
    assert [] + Sent(ls) == Sent(ls);
    RunIsWork(h, start, ls);
    var c := Run(h, start, ls);
    WorkIsBounded(h, c);
    if forall l :: Enabled(c, l) && Sound(l) ==> l.Send? {
      AnsweredWhenStuck(h, c);
    }
  }

  /** From every failure-free state the pair can be driven, without a failure or a new request, to one in
      which every request has been answered. */
  lemma {:induction false} CanAlwaysFinish(h: Handler, c: Pair) returns (ls: seq<Label>)
    requires Live(h, c)
    ensures Legal(h, c, ls) && Sent(ls) == [] && (forall l :: l in ls ==> Sound(l))
    ensures Responses(Run(h, c, ls).client) == Replies(h, Requests(c.client))
    decreases Bound(h, Requests(c.client)) - Work(c)
  {
    hide JointInv, Fits, ClientUp, ServerUp, Enabled, Apply, Work, Bound, ClientNext, ServerNext, Requests, Responses, Handled;
    InvImpliesCallLoop(h, c);
    LiveCallLoop(h, c);
    if |Responses(c.client)| >= |Requests(c.client)| {
      return [];
    }
    NeverStuck(h, c);
    NextIsSound(c);
    var l := if Enabled(c, ClientNext(c)) then ClientNext(c) else ServerNext(c);
    var c' := Apply(h, c, l);
    StepRecords(h, c, l);
    assert Requests(c.client) + [] == Requests(c.client);
    SoundKeepsLive(h, c, l);
    StepIsWork(h, c, l);
    WorkIsBounded(h, c');
    var rest := CanAlwaysFinish(h, c');
    ls := [l] + rest;
    assert ls[0] == l && ls[1..] == rest;
  }
}
