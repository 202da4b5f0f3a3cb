/** Any client with any server, joined by two FIFO channels, in any interleaving. An Asio endpoint and a
    Qt endpoint promise different things about their buffers but the same thing about the wire, so
    every pairing the benchmark runs refines the same call loop.

    A Qt side does nothing of its own: its handler runs once after something arrived, so bytes it leaves
    unread wait for the next arrival. */
module Interop {
  import opened Framing
  import Ep = AsioEndpoint
  import AsioClient
  import AsioSession
  import Qt = QtEndpoints
  import opened QtDecoder
  import opened WireFormat
  import opened Service

  /** `signalled`: a `readyRead` is due. `open`: the socket is. */
  datatype ClientSide =
    | AsioC(c: AsioClient.ClientState)
    | QtC(q: Qt.ClientState, signalled: bool, open: bool)

  datatype ServerSide =
    | AsioS(s: AsioSession.SessionState)
    | QtS(w: Qt.Worker, threaded: bool, signalled: bool, open: bool)

  function ClientSent(x: ClientSide): Bytes { if x.AsioC? then x.c.ep.sent else x.q.sent }
  function ClientReceived(x: ClientSide): Bytes { if x.AsioC? then x.c.ep.received else x.q.d.arrived }
  function Requests(x: ClientSide): seq<Payload> { if x.AsioC? then x.c.requests else x.q.requests }
  function Responses(x: ClientSide): seq<Payload> { if x.AsioC? then x.c.responses else x.q.d.emitted }
  function ServerSent(x: ServerSide): Bytes { if x.AsioS? then x.s.ep.sent else x.w.outbox }
  function ServerReceived(x: ServerSide): Bytes { if x.AsioS? then x.s.ep.received else x.w.d.arrived }
  function Handled(x: ServerSide): seq<Payload> { if x.AsioS? then x.s.handled else x.w.d.emitted }

  /** What a side keeps. An open Qt side that is not due a `readyRead` could do nothing with one; its
      client's timer runs exactly while a response is awaited. A Qt side that has gone keeps the
      prefixes of what it sent and delivered. */
  ghost predicate ClientInv(x: ClientSide) {
    match x
    case AsioC(c) => AsioClient.Inv(c)
    case QtC(q, signalled, open) =>
      && |q.requests| <= |q.d.emitted| + 1
      && if open then
           && Qt.ClientInv(q)
           && (q.timerActive <==> |q.requests| > |q.d.emitted|)
           && (signalled || Quiescent(q.d))
         else Delivered(q.d) && q.sent <= Frames(q.requests)
  }

  ghost predicate ServerInv(h: Handler, x: ServerSide) {
    match x
    case AsioS(s) => AsioSession.Inv(h, s)
    case QtS(w, _, signalled, open) =>
      if open then Qt.WorkerInv(h, w) && (signalled || Quiescent(w.d))
      else Delivered(w.d) && w.outbox <= Frames(Replies(h, w.d.emitted))
  }

  /** What a receiver makes of messages: the Qt decoder drops the empty ones. */
  function Seen(qt: bool, ps: seq<Payload>): seq<Payload> { if qt then NonEmpty(ps) else ps }

  lemma SeenLength(qt: bool, ps: seq<Payload>)
    ensures |Seen(qt, ps)| <= |ps|
    ensures |Seen(qt, ps)| == |ps| <==> !qt || [] !in ps
    ensures !qt || [] !in ps ==> Seen(qt, ps) == ps
  {
    NonEmptyLength(ps);
    NonEmptyHasNoEmpty(ps);
  }

  /** A Qt decoder has consumed the first frames of what is sent to it. */
  lemma QtDelivers(d: Decoder, out: seq<Payload>)
    requires Delivered(d) && Short(out) && d.arrived <= Frames(out)
    ensures d.negative == 0 && d.frames <= out && d.emitted == NonEmpty(d.frames) <= NonEmpty(out)
    ensures |d.emitted| <= |d.frames|
  {
    hide Frames, SmallHeaders, NonEmpty;
    SmallFramesHaveSmallHeaders(out);
    SmallHeadersPrefix(d.arrived, Frames(out));
    FramesPrefix(d.frames, out);
    NonEmptyPrefix(d.frames, out);
    NonEmptyLength(d.frames);
  }

  /** What it has not consumed yet of what arrived belongs to the next ones. */
  lemma QtBacklog(d: Decoder, out: seq<Payload>)
    requires Inv(d) && Short(out) && d.arrived <= Frames(out)
    ensures d.negative == 0 && d.frames <= out && |d.emitted| <= |d.frames|
    ensures Pending(d) + d.inbox <= Frames(out[|d.frames|..])
  {
    hide Frames, SmallHeaders, NonEmpty, Pending;
    InvDelivers(d);
    QtDelivers(d, out);
    var rest := out[|d.frames|..];
    assert out == d.frames + rest;
    FramesConcat(d.frames, rest);
    var k := |Frames(d.frames)|;
    assert d.arrived[k..] == Pending(d) + d.inbox;
    assert Frames(out)[k..] == Frames(rest);
    assert d.arrived[k..] == Frames(out)[k..|d.arrived|] == Frames(rest)[..|d.arrived| - k];
  }

  lemma ServerDelivers(h: Handler, x: ServerSide, out: seq<Payload>)
    requires ServerInv(h, x) && (x.QtS? ==> Short(out)) && ServerReceived(x) <= Frames(out)
    ensures Handled(x) <= Seen(x.QtS?, out) && |Handled(x)| <= |out|
    ensures ServerSent(x) <= Frames(Replies(h, Handled(x)))
  {
    match x
    case AsioS(s) =>
      Ep.StreamPrefixes(s.ep, Replies(h, s.handled), s.handled);
      FramesPrefix(s.handled, out);
    case QtS(w, _, _, open) =>
      if open {
        InvDelivers(w.d);
      }
      QtDelivers(w.d, out);
  }

  lemma ClientDelivers(x: ClientSide, replies: seq<Payload>)
    requires ClientInv(x) && Short(replies) && ClientReceived(x) <= Frames(replies)
    ensures Responses(x) <= Seen(x.QtC?, replies) && |Responses(x)| <= |replies|
  {
    match x
    case AsioC(c) =>
      Ep.StreamPrefixes(c.ep, c.requests, c.responses);
      FramesPrefix(c.responses, replies);
    case QtC(q, _, open) =>
      if open {
        InvDelivers(q.d);
      }
      QtDelivers(q.d, replies);
  }

  lemma RepliesAreShort(h: Handler, ps: seq<Payload>)
    ensures Short(Replies(h, ps))
  {
  }

  lemma ClientSends(x: ClientSide)
    requires ClientInv(x)
    ensures ClientSent(x) <= Frames(Requests(x)) && |Requests(x)| <= |Responses(x)| + 1
  {
    if x.AsioC? {
      Ep.StreamPrefixes(x.c.ep, x.c.requests, x.c.responses);
    }
  }

  /* ---- runs of a pair ---- */

  datatype Pair = Pair(client: ClientSide, server: ServerSide, c2s: Bytes, s2c: Bytes)

  /** An Asio side writes piecemeal and its handler is a completion. A Qt side writes a whole frame to
      its socket at once, unless the write fails before or after the header; its handler is a
      `readyRead`, and its socket may go away at any time. */
  datatype Label =
    | Send(p: Payload)
    | SendFails(p: Payload, headerOut: bool)
    | ClientPut(n: nat)
    | ClientTake(n: nat)
    | ClientRuns(ec: bool)
    | ClientDrops
    | TimerExpires
    | RunTimeout
    | ServerPut(n: nat)
    | ServerTake(n: nat)
    | ServerRuns(ec: bool)
    | ServerRunsFail(headerOut: bool)
    | ServerDrops

  const ASIO_CLIENT := AsioC(AsioClient.FRESH)
  const QT_CLIENT := QtC(Qt.ClientState(FRESH, false, [], []), false, true)
  const ASIO_SERVER := AsioS(AsioSession.InitiateReceiveRequest(AsioSession.FRESH))

  function Fresh(qtClient: bool, qtServer: bool, threaded: bool): Pair {
    Pair(if qtClient then QT_CLIENT else ASIO_CLIENT,
         if qtServer then QtS(Qt.NEW_WORKER, threaded, false, true) else ASIO_SERVER, [], [])
  }

  /** A client step, as an event of the Asio client. */
  function AsioEvent(c: Pair, l: Label): AsioClient.Event {
    match l
    case Send(p) => AsioClient.Start(p)
    case ClientPut(n) => AsioClient.Put(n)
    case ClientTake(n) => AsioClient.Take(if n <= |c.s2c| then c.s2c[..n] else [])
    case ClientRuns(ec) => AsioClient.Complete(ec)
    case TimerExpires => AsioClient.TimerExpires
    case _ => AsioClient.RunTimeout
  }

  predicate IsServers(l: Label) {
    l.ServerPut? || l.ServerTake? || l.ServerRuns? || l.ServerRunsFail? || l.ServerDrops?
  }

  /** A client sends again once its last request has been answered. */
  predicate ClientEnabled(c: Pair, l: Label) {
    && (l.ClientTake? ==> 0 < l.n <= |c.s2c|)
    && match c.client
       case AsioC(a) =>
         && !l.SendFails? && !l.ClientDrops?
         && AsioClient.Enabled(a, AsioEvent(c, l)) && (l.Send? ==> a.ep.phase.Idle?)
       case QtC(q, signalled, open) =>
         open &&
         match l
         case Send(_) => |q.requests| == |q.d.emitted|
         case SendFails(_, _) => |q.requests| == |q.d.emitted|
         case ClientTake(_) => true
         case ClientRuns(ec) => signalled && !ec
         case TimerExpires => q.timerActive
         case ClientDrops => true
         case _ => false
  }

  predicate ServerEnabled(c: Pair, l: Label) {
    && (l.ServerTake? ==> 0 < l.n <= |c.c2s|)
    && match c.server
       case AsioS(s) =>
         s.ep.Valid() &&
         (match l
          case ServerPut(n) => 0 < n <= |s.ep.Unsent()|
          case ServerTake(n) => n <= s.ep.Room()
          case ServerRuns(ec) => s.ep.Busy() && (ec || s.ep.Settled())
          case _ => false)
       case QtS(w, _, signalled, open) =>
         open &&
         match l
         case ServerTake(_) => true
         case ServerRuns(ec) => signalled && !ec
         case ServerRunsFail(_) => signalled && Qt.CallsOnRequest(w.d)
         case ServerDrops => true
         case _ => false
  }

  predicate Enabled(c: Pair, l: Label) { if IsServers(l) then ServerEnabled(c, l) else ClientEnabled(c, l) }

  /** A timeout aborts the Qt client's connection, and any disconnect stops its timer. */
  function ClientStep(c: Pair, l: Label): ClientSide
    requires !IsServers(l) && ClientEnabled(c, l)
  {
    match c.client
    case AsioC(a) => AsioC(AsioClient.Apply(a, AsioEvent(c, l)))
    case QtC(q, signalled, _) =>
      match l
      case Send(p) => QtC(Qt.SendRequest(q, p), signalled, true)
      case SendFails(p, headerOut) => QtC(Qt.SendFails(q, p, headerOut), signalled, false)
      case ClientTake(n) => QtC(q.(d := Arrive(q.d, c.s2c[..n])), true, true)
      case ClientRuns(_) => QtC(Qt.ReceiveResponse(q), false, true)
      case _ => QtC(q.(timerActive := false), signalled, false)
  }

  function ServerStep(h: Handler, c: Pair, l: Label): ServerSide
    requires IsServers(l) && ServerEnabled(c, l)
  {
    match c.server
    case AsioS(s) =>
      (match l
       case ServerPut(n) => AsioS(s.(ep := Ep.Put(s.ep, n)))
       case ServerTake(n) => AsioS(s.(ep := Ep.Take(s.ep, c.c2s[..n])))
       case ServerRuns(ec) => AsioS(AsioSession.Completed(h, s, ec)))
    case QtS(w, threaded, signalled, _) =>
      match l
      case ServerTake(n) => QtS(Qt.Deliver(w, c.c2s[..n]), threaded, true, true)
      case ServerRuns(_) =>
        QtS(if threaded then Qt.ThreadReadyRead(h, w) else Qt.PoolReadyRead(h, w), threaded, false, true)
      case ServerRunsFail(headerOut) => QtS(Qt.ServeFails(h, w, headerOut), threaded, false, false)
      case ServerDrops => QtS(w, threaded, signalled, false)
  }

  /** What a side has put on the wire goes into its channel, what it takes comes off the other. */
  function Apply(h: Handler, c: Pair, l: Label): Pair
    requires Enabled(c, l)
  {
    if IsServers(l) then
      var server := ServerStep(h, c, l);
      c.(server := server,
         s2c := c.s2c + Added(ServerSent(c.server), ServerSent(server)),
         c2s := if l.ServerTake? then c.c2s[l.n..] else c.c2s)
    else
      var client := ClientStep(c, l);
      c.(client := client,
         c2s := c.c2s + Added(ClientSent(c.client), ClientSent(client)),
         s2c := if l.ClientTake? then c.s2c[l.n..] else c.s2c)
  }

  function Added(before: Bytes, after: Bytes): Bytes {
    if |before| <= |after| then after[|before|..] else []
  }

  ghost predicate Legal(h: Handler, c: Pair, ls: seq<Label>)
    decreases |ls|
  {
    ls == [] || (Enabled(c, ls[0]) && Legal(h, Apply(h, c, ls[0]), ls[1..]))
  }

  ghost function Run(h: Handler, c: Pair, ls: seq<Label>): Pair
    requires Legal(h, c, ls)
    decreases |ls|
  {
    if ls == [] then c else Run(h, Apply(h, c, ls[0]), ls[1..])
  }

  function Requested(l: Label): seq<Payload> {
    match l
    case Send(p) => [p]
    case SendFails(p, _) => [p]
    case _ => []
  }

  lemma StepRecords(h: Handler, c: Pair, l: Label)
    requires Enabled(c, l)
    ensures Requests(Apply(h, c, l).client) == Requests(c.client) + Requested(l)
  {
    hide ServerStep;
    if !IsServers(l) && c.client.AsioC? && l.ClientRuns? {
      AsioClient.CompletionAdvances(c.client.c, l.ec);
    }
  }

  /** Whatever server it is, it can tell the lengths of these requests. */
  predicate Readable(qtServer: bool, ps: seq<Payload>) { qtServer ==> Short(ps) }

  lemma ReadablePrefix(qtServer: bool, ps: seq<Payload>, qs: seq<Payload>)
    requires Readable(qtServer, qs) && ps <= qs
    ensures Readable(qtServer, ps)
  {
    assert forall p :: p in ps ==> p in qs;
  }

  ghost predicate JointInv(h: Handler, c: Pair) {
    && Readable(c.server.QtS?, Requests(c.client))
    && ClientInv(c.client)
    && ServerInv(h, c.server)
    && ClientSent(c.client) == ServerReceived(c.server) + c.c2s
    && ServerSent(c.server) == ClientReceived(c.client) + c.s2c
  }

  lemma FreshInv(h: Handler, qtClient: bool, qtServer: bool, threaded: bool)
    ensures JointInv(h, Fresh(qtClient, qtServer, threaded))
  {
    hide AsioClient.Inv, AsioSession.Inv, Qt.WorkerInv, Inv;
    AsioClient.FreshInv();
    QtDecoder.FreshInv();
    AsioSession.FreshKeepsInv(h);
    AsioSession.BeginKeepsInv(h, AsioSession.FRESH);
    Qt.NewWorkerInv(h);
  }

  /* ---- what each side can count on from the other ---- */

  /** The call loop, in any state: requests handled in order, responses the handler's replies, but for
      the empty messages a Qt side drops. */
  lemma InvImpliesCallLoop(h: Handler, c: Pair)
    requires JointInv(h, c)
    ensures Handled(c.server) <= Seen(c.server.QtS?, Requests(c.client))
    ensures Responses(c.client) <= Seen(c.client.QtC?, Replies(h, Handled(c.server)))
    ensures |Responses(c.client)| <= |Handled(c.server)| <= |Requests(c.client)| <= |Responses(c.client)| + 1
    ensures ServerReceived(c.server) <= Frames(Requests(c.client))
    ensures ClientReceived(c.client) <= Frames(Replies(h, Handled(c.server)))
  {
    hide ClientInv, ServerInv, Frames, ClientSent, ClientReceived, ServerSent, ServerReceived, Requests, Handled,
      Responses, Seen, Short;
    ClientSends(c.client);
    assert ServerReceived(c.server) <= ClientSent(c.client);
    ServerDelivers(h, c.server, Requests(c.client));
    RepliesAreShort(h, Handled(c.server));
    assert ClientReceived(c.client) <= ServerSent(c.server);
    ClientDelivers(c.client, Replies(h, Handled(c.server)));
  }

  /* ---- a client's steps ---- */

  /** What a side's own step does to its invariant and to its two wire histories. `replies` is what the
      server has made of the client's requests so far. */
  ghost predicate ClientKept(c: Pair, l: Label, x: ClientSide)
    requires l.ClientTake? ==> l.n <= |c.s2c|
  {
    && ClientInv(x)
    && ClientSent(c.client) <= ClientSent(x)
    && ClientReceived(x) == ClientReceived(c.client) + (if l.ClientTake? then c.s2c[..l.n] else [])
  }

  /** With every request answered nothing is left unread, so sending cannot disturb the decoder. */
  lemma AnsweredLeavesNothing(d: Decoder, replies: seq<Payload>)
    requires Inv(d) && Short(replies) && d.arrived <= Frames(replies) && |replies| <= |d.emitted|
    ensures d.negative == 0 && d.dataLen == 0
  {
    hide Inv, Frames;
    QtBacklog(d, replies);
    FramesNonempty([]);
    assert replies[|d.frames|..] == [];
    assert |Pending(d) + d.inbox| == 0;
  }

  /** At most one message is out, so one `readyRead` per arrival is enough. */
  lemma OneOutstandingIsRead(d: Decoder, out: seq<Payload>)
    requires Inv(d) && Short(out) && d.arrived <= Frames(out) && |out| <= |d.emitted| + 1
    ensures Quiescent(ReadyRead(d))
  {
    hide Inv, Frames, Pending, Quiescent;
    QtBacklog(d, out);
    var rest := out[|d.frames|..];
    assert forall p :: p in rest ==> p in out;
    OneSignalSuffices(d, rest);
  }

  lemma QtClientSends(c: Pair, p: Payload, replies: seq<Payload>)
    requires c.client.QtC? && ClientInv(c.client) && ClientEnabled(c, Send(p))
    requires Short(replies) && ClientReceived(c.client) <= Frames(replies)
    requires |replies| <= |Requests(c.client)|
    ensures ClientKept(c, Send(p), ClientStep(c, Send(p)))
  {
    hide ReadyRead, Inv, Frames, Short, Quiescent, Frame;
    var q := c.client.q;
    AnsweredLeavesNothing(q.d, replies);
    assert q.d.(dataLen := 0) == q.d;
    FramesSnoc(q.requests, p);
  }

  lemma QtClientFailsToSend(c: Pair, p: Payload, headerOut: bool)
    requires c.client.QtC? && ClientInv(c.client) && ClientEnabled(c, SendFails(p, headerOut))
    ensures ClientKept(c, SendFails(p, headerOut), ClientStep(c, SendFails(p, headerOut)))
  {
    hide ReadyRead, Inv, Frames, SmallHeaders, NonEmpty, Header;
    var q := c.client.q;
    FramesSnoc(q.requests, p);
    InvDelivers(q.d);
    assert q.sent + Header(|p|) + p == Frames(q.requests) + Frame(p);
  }

  lemma QtClientReads(c: Pair, l: Label, replies: seq<Payload>)
    requires c.client.QtC? && ClientInv(c.client) && !IsServers(l) && ClientEnabled(c, l)
    requires Short(replies) && ClientReceived(c.client) <= Frames(replies)
    requires |replies| <= |Requests(c.client)|
    requires l.ClientRuns?
    ensures ClientKept(c, l, ClientStep(c, l))
  {
    hide ReadyRead, SmallHeaders, NonEmpty, Inv, Frames, Short, Quiescent;
    var q := c.client.q;
    OneOutstandingIsRead(q.d, replies);
    Qt.ReceiveKeepsClientInv(q);
    ReadyReadArrives(q.d);
    Qt.AtMostOneRequest(q.d);
  }

  lemma QtClientOther(c: Pair, l: Label)
    requires c.client.QtC? && ClientInv(c.client) && !IsServers(l) && ClientEnabled(c, l)
    requires l.ClientTake? || l.ClientDrops? || l.TimerExpires?
    ensures ClientKept(c, l, ClientStep(c, l))
  {
    hide ReadyRead, Inv;
    var q := c.client.q;
    if l.ClientTake? {
      Qt.ArriveKeepsClientInv(q, c.s2c[..l.n]);
    } else {
      InvDelivers(q.d);
    }
  }

  lemma AsioClientSteps(c: Pair, l: Label)
    requires c.client.AsioC? && ClientInv(c.client) && !IsServers(l) && ClientEnabled(c, l)
    ensures ClientKept(c, l, ClientStep(c, l))
  {
    hide Ep.Streams;
    AsioClient.StepKeepsInv(c.client.c, AsioEvent(c, l));
    if l.ClientRuns? {
      AsioClient.CompletionMovesNothing(c.client.c, l.ec);
    }
  }

  lemma ClientStepKeeps(c: Pair, l: Label, replies: seq<Payload>)
    requires ClientInv(c.client) && !IsServers(l) && ClientEnabled(c, l)
    requires Short(replies) && ClientReceived(c.client) <= Frames(replies)
    requires |replies| <= |Requests(c.client)|
    ensures ClientKept(c, l, ClientStep(c, l))
  {
    hide ClientInv, ClientKept, ClientStep, Frames;
    if c.client.AsioC? {
      AsioClientSteps(c, l);
    } else {
      match l
      case Send(p) => QtClientSends(c, p, replies);
      case SendFails(p, headerOut) => QtClientFailsToSend(c, p, headerOut);
      case ClientRuns(_) => QtClientReads(c, l, replies);
      case _ => QtClientOther(c, l);
    }
  }

  /* ---- a server's steps ---- */

  ghost predicate ServerKept(h: Handler, c: Pair, l: Label, x: ServerSide)
    requires l.ServerTake? ==> l.n <= |c.c2s|
  {
    && ServerInv(h, x)
    && ServerSent(c.server) <= ServerSent(x)
    && ServerReceived(x) == ServerReceived(c.server) + (if l.ServerTake? then c.c2s[..l.n] else [])
  }

  lemma QtServerReads(h: Handler, c: Pair, l: Label, requests: seq<Payload>)
    requires c.server.QtS? && ServerInv(h, c.server) && l.ServerRuns? && ServerEnabled(c, l)
    requires Readable(c.server.QtS?, requests) && ServerReceived(c.server) <= Frames(requests)
    requires |requests| <= |Handled(c.server)| + 1
    ensures ServerKept(h, c, l, ServerStep(h, c, l))
  {
    hide ReadyRead, SmallHeaders, NonEmpty, Inv, Frames, Short, Quiescent, Replies;
    var w := c.server.w;
    OneOutstandingIsRead(w.d, requests);
    Qt.ServeKeepsInv(h, w);
    ReadyReadArrives(w.d);
  }

  lemma QtServerFails(h: Handler, c: Pair, l: Label)
    requires c.server.QtS? && ServerInv(h, c.server) && l.ServerRunsFail? && ServerEnabled(c, l)
    ensures ServerKept(h, c, l, ServerStep(h, c, l))
  {
    hide ReadyRead, Inv, SmallHeaders, NonEmpty;
    var w := c.server.w;
    ReadyReadKeepsInv(w.d);
    ReadyReadArrives(w.d);
    InvDelivers(ReadyRead(w.d));
    Qt.AtMostOneRequest(w.d);
    var p := ReadyRead(w.d).emitted[|w.d.emitted|];
    RepliesSnoc(h, w.d.emitted, p);
    FramesSnoc(Replies(h, w.d.emitted), h(p));
    assert Frame(h(p)) == Header(|h(p)|) + h(p);
  }

  lemma QtServerOther(h: Handler, c: Pair, l: Label)
    requires c.server.QtS? && ServerInv(h, c.server) && (l.ServerTake? || l.ServerDrops?) && ServerEnabled(c, l)
    ensures ServerKept(h, c, l, ServerStep(h, c, l))
  {
    hide ReadyRead, Inv;
    var w := c.server.w;
    if l.ServerTake? {
      Qt.DeliverKeepsInv(h, w, c.c2s[..l.n]);
    } else {
      InvDelivers(w.d);
    }
  }

  lemma AsioServerSteps(h: Handler, c: Pair, l: Label)
    requires c.server.AsioS? && ServerInv(h, c.server) && IsServers(l) && ServerEnabled(c, l)
    ensures ServerKept(h, c, l, ServerStep(h, c, l))
  {
    hide AsioSession.Inv, AsioSession.Completed;
    var s := c.server.s;
    match l {
      case ServerPut(n) => AsioSession.PutKeepsInv(h, s, n);
      case ServerTake(n) => AsioSession.TakeKeepsInv(h, s, c.c2s[..n]);
      case ServerRuns(ec) =>
        AsioSession.CompletedKeepsInv(h, s, ec);
        AsioSession.CompletionMovesNothing(h, s, ec);
    }
  }

  lemma ServerStepKeeps(h: Handler, c: Pair, l: Label, requests: seq<Payload>)
    requires ServerInv(h, c.server) && IsServers(l) && ServerEnabled(c, l)
    requires Readable(c.server.QtS?, requests) && ServerReceived(c.server) <= Frames(requests)
    requires |requests| <= |Handled(c.server)| + 1
    ensures ServerKept(h, c, l, ServerStep(h, c, l))
  {
    hide ServerInv, ServerKept, ServerStep, Frames;
    if c.server.AsioS? {
      AsioServerSteps(h, c, l);
    } else {
      match l
      case ServerRuns(_) => QtServerReads(h, c, l, requests);
      case ServerRunsFail(_) => QtServerFails(h, c, l);
      case _ => QtServerOther(h, c, l);
    }
  }

  /* ---- both together ---- */

  /** Appending what one side added keeps a channel equal to sent minus taken; so does taking. */
  lemma ChannelKept(sent: Bytes, sent': Bytes, taken: Bytes, channel: Bytes, n: nat)
    requires sent == taken + channel && sent <= sent' && n <= |channel|
    ensures sent' == taken + (channel + Added(sent, sent'))
    ensures sent == (taken + channel[..n]) + channel[n..]
  {
    assert sent' == sent + sent'[|sent|..];
    assert channel == channel[..n] + channel[n..];
  }

  lemma EnabledTake(c: Pair, l: Label)
    requires Enabled(c, l)
    ensures l.ClientTake? ==> l.n <= |c.s2c|
    ensures l.ServerTake? ==> l.n <= |c.c2s|
  {
  }

  /** Each step keeps, of both sides, their stream invariants, the channels equal to sent minus taken,
      and that no Qt side is left with something to do and no `readyRead` due. */
  lemma StepKeepsInv(h: Handler, c: Pair, l: Label)
    requires JointInv(h, c) && Enabled(c, l)
    requires Readable(c.server.QtS?, Requests(Apply(h, c, l).client))
    ensures JointInv(h, Apply(h, c, l)) && SameKinds(c, Apply(h, c, l))
  {
    hide ClientInv, ServerInv, ClientStep, ServerStep, ClientEnabled, ServerEnabled, Frames, Readable, Short, Seen,
      ClientSent, ClientReceived, ServerSent, ServerReceived, Added, Requests, Responses, Handled;
    EnabledTake(c, l);
    StepKeepsKinds(h, c, l);
    InvImpliesCallLoop(h, c);
    var requests, replies := Requests(c.client), Replies(h, Handled(c.server));
    if IsServers(l) {
      ServerStepKeeps(h, c, l, requests);
      var n := if l.ServerTake? then l.n else 0;
      ChannelKept(ServerSent(c.server), ServerSent(ServerStep(h, c, l)), ClientReceived(c.client), c.s2c, 0);
      ChannelKept(ClientSent(c.client), ClientSent(c.client), ServerReceived(c.server), c.c2s, n);
      assert ServerReceived(c.server) + [] == ServerReceived(c.server);
    } else {
      RepliesAreShort(h, Handled(c.server));
      ClientStepKeeps(c, l, replies);
      var n := if l.ClientTake? then l.n else 0;
      ChannelKept(ClientSent(c.client), ClientSent(ClientStep(c, l)), ServerReceived(c.server), c.c2s, 0);
      ChannelKept(ServerSent(c.server), ServerSent(c.server), ClientReceived(c.client), c.s2c, n);
      assert ClientReceived(c.client) + [] == ClientReceived(c.client);
    }
  }

  predicate SameKinds(c: Pair, c': Pair) {
    (c.client.QtC? <==> c'.client.QtC?) && (c.server.QtS? <==> c'.server.QtS?)
  }

  lemma StepKeepsKinds(h: Handler, c: Pair, l: Label)
    requires Enabled(c, l)
    ensures SameKinds(c, Apply(h, c, l))
  {
  }

  lemma {:induction false} RequestsGrow(h: Handler, c: Pair, ls: seq<Label>)
    requires Legal(h, c, ls)
    ensures Requests(c.client) <= Requests(Run(h, c, ls).client) && SameKinds(c, Run(h, c, ls))
    decreases |ls|
  {
    hide Apply, Enabled, Requests;
    if ls != [] {
      StepRecords(h, c, ls[0]);
      StepKeepsKinds(h, c, ls[0]);
      RequestsGrow(h, Apply(h, c, ls[0]), ls[1..]);
    }
  }

  lemma {:induction false} RunKeepsInv(h: Handler, c: Pair, ls: seq<Label>)
    requires JointInv(h, c) && Legal(h, c, ls)
    requires Readable(c.server.QtS?, Requests(Run(h, c, ls).client))
    ensures JointInv(h, Run(h, c, ls)) && SameKinds(c, Run(h, c, ls))
    decreases |ls|
  {
    hide JointInv, Apply, Enabled, Readable, Requests;
    if ls != [] {
      var c' := Apply(h, c, ls[0]);
      RequestsGrow(h, c', ls[1..]);
      ReadablePrefix(c.server.QtS?, Requests(c'.client), Requests(Run(h, c, ls).client));
      StepKeepsInv(h, c, ls[0]);
      RunKeepsInv(h, c', ls[1..]);
    }
  }

  lemma FreshKinds(qtClient: bool, qtServer: bool, threaded: bool)
    ensures Fresh(qtClient, qtServer, threaded).client.QtC? <==> qtClient
    ensures Fresh(qtClient, qtServer, threaded).server.QtS? <==> qtServer
  {
  }

  /* ---- every pairing refines the call loop ---- */

  /** All pairings, in every run with any failures on either side: the server handles the requests in
      order, and the client sees exactly what the handler made of each of them, except that a Qt side
      passes over empty messages; at most one request is unanswered. */
  lemma EveryPairingRefinesCallLoop(h: Handler, qtClient: bool, qtServer: bool, threaded: bool, ls: seq<Label>)
    requires Legal(h, Fresh(qtClient, qtServer, threaded), ls)
    ensures var c := Run(h, Fresh(qtClient, qtServer, threaded), ls);
            Readable(qtServer, Requests(c.client)) ==>
              && Handled(c.server) <= Seen(qtServer, Requests(c.client))
              && Responses(c.client) <= Seen(qtClient, Replies(h, Handled(c.server)))
              && |Requests(c.client)| <= |Responses(c.client)| + 1
  {
    hide JointInv, Legal, Run, Fresh, Requests, Handled, Responses, Readable, Seen;
    FreshInv(h, qtClient, qtServer, threaded);
    FreshKinds(qtClient, qtServer, threaded);
    var c := Run(h, Fresh(qtClient, qtServer, threaded), ls);
    if Readable(qtServer, Requests(c.client)) {
      RunKeepsInv(h, Fresh(qtClient, qtServer, threaded), ls);
      InvImpliesCallLoop(h, c);
    }
  }

  /** With an unreadable request it does not: as soon as the length has arrived the Qt server handles an
      empty request that nobody sent. */
  lemma UnreadableIsInvented(h: Handler, threaded: bool, p: Payload)
    requires |p| >= I63
    ensures var ls, c := [Send(p), ServerTake(HEADER), ServerRuns(false)], Fresh(true, true, threaded);
            && Legal(h, c, ls)
            && Requests(Run(h, c, ls).client) == [p] && Handled(Run(h, c, ls).server) == [[]]
            && !(Handled(Run(h, c, ls).server) <= Seen(true, [p]))
  {
    hide Enabled, Apply, Fresh, Legal, Run, NonEmpty, Requests, Handled;
    var c := Fresh(true, true, threaded);
    RequestIsSent(h, threaded, p);
    var c1 := Apply(h, c, Send(p));
    HeaderIsTaken(h, c1, threaded, p);
    var c2 := Apply(h, c1, ServerTake(HEADER));
    HugeLengthIsHandled(h, c2, threaded, |p|);
    var c3 := Apply(h, c2, ServerRuns(false));
    RunOfNone(h, c3);
    RunFrom(h, c2, ServerRuns(false), [], [ServerRuns(false)]);
    RunFrom(h, c1, ServerTake(HEADER), [ServerRuns(false)], [ServerTake(HEADER), ServerRuns(false)]);
    RunFrom(h, c, Send(p), [ServerTake(HEADER), ServerRuns(false)], [Send(p), ServerTake(HEADER), ServerRuns(false)]);
    NonEmptyHasNoEmpty([p]);
    var none: Payload := [];
    assert Handled(c3.server) == [none] && none in [none];
  }

  lemma RequestIsSent(h: Handler, threaded: bool, p: Payload)
    ensures var c := Fresh(true, true, threaded);
            && Enabled(c, Send(p))
            && Apply(h, c, Send(p)).c2s == Frame(p)
            && Apply(h, c, Send(p)).server == c.server == QtS(Qt.NEW_WORKER, threaded, false, true)
            && Requests(Apply(h, c, Send(p)).client) == [p] && Responses(Apply(h, c, Send(p)).client) == []
            && Apply(h, c, Send(p)).client == QtC(Qt.SendRequest(QT_CLIENT.q, p), false, true)
            && Apply(h, c, Send(p)).s2c == []
  {
    hide Frame;
    assert Frame(p) == [] + Frame(p);
  }

  lemma HeaderIsTaken(h: Handler, c: Pair, threaded: bool, p: Payload)
    requires c.c2s == Frame(p) && c.server == QtS(Qt.NEW_WORKER, threaded, false, true)
    ensures Enabled(c, ServerTake(HEADER))
    ensures Apply(h, c, ServerTake(HEADER)).client == c.client
    ensures Apply(h, c, ServerTake(HEADER)).c2s == p && Apply(h, c, ServerTake(HEADER)).s2c == c.s2c
    ensures Apply(h, c, ServerTake(HEADER)).server == QtS(Qt.Deliver(Qt.NEW_WORKER, Header(|p|)), threaded, true, true)
  {
    hide Header;
    assert Frame(p)[..HEADER] == Header(|p|) && Frame(p)[HEADER..] == p;
  }

  lemma HugeLengthIsHandled(h: Handler, c: Pair, threaded: bool, n: nat)
    requires I63 <= n < U64 && c.server == QtS(Qt.Deliver(Qt.NEW_WORKER, Header(n)), threaded, true, true)
    ensures Enabled(c, ServerRuns(false))
    ensures Apply(h, c, ServerRuns(false)).client == c.client
    ensures Handled(Apply(h, c, ServerRuns(false)).server) == [[]]
  {
    hide ReadyRead, Header;
    HugeLengthIsEmitted(n);
  }

  lemma RunOfNone(h: Handler, c: Pair)
    ensures Legal(h, c, []) && Run(h, c, []) == c
  {
  }

  lemma RunFrom(h: Handler, c: Pair, l: Label, rest: seq<Label>, ls: seq<Label>)
    requires Enabled(c, l) && Legal(h, Apply(h, c, l), rest) && ls == [l] + rest
    ensures Legal(h, c, ls) && Run(h, c, ls) == Run(h, Apply(h, c, l), rest)
  {
    hide Enabled, Apply;
    assert ls[1..] == rest;
  }

  lemma HugeLengthIsEmitted(n: nat)
    requires I63 <= n < U64
    ensures ReadyRead(Arrive(FRESH, Header(n))).emitted == [[]]
  {
    hide DecodeLE, Digit, EncodeLE;
    HeaderRoundTrip(n);
    var b := Header(n);
    assert [] + b == b && b[..HEADER] == b;
  }

  /** A Qt client whose socket is open has its timer running exactly while a response is awaited. */
  lemma QtClientIsGuarded(h: Handler, qtServer: bool, threaded: bool, ls: seq<Label>)
    requires Legal(h, Fresh(true, qtServer, threaded), ls)
    ensures var c := Run(h, Fresh(true, qtServer, threaded), ls);
            Readable(qtServer, Requests(c.client)) && c.client.QtC? && c.client.open ==>
              (c.client.q.timerActive <==> |Requests(c.client)| > |Responses(c.client)|)
  {
    hide Legal, Run, Fresh, Readable, ServerInv;
    FreshInv(h, true, qtServer, threaded);
    FreshKinds(true, qtServer, threaded);
    var c := Run(h, Fresh(true, qtServer, threaded), ls);
    if Readable(qtServer, Requests(c.client)) {
      RunKeepsInv(h, Fresh(true, qtServer, threaded), ls);
    }
  }

  /* ---- Qt sides that go, and what Qt servers count ---- */

  /** What a step does to a Qt client's socket and timer: a failed write, a timeout or a disconnect closes
      the one, and the latter two stop the other. */
  lemma QtClientStep(c: Pair, l: Label)
    requires c.client.QtC? && !IsServers(l) && ClientEnabled(c, l)
    ensures var x := ClientStep(c, l);
            && x.QtC?
            && (x.open <==> !l.SendFails? && !l.ClientDrops? && !l.TimerExpires?)
            && (l.Send? || l.SendFails? ==> x.q.timerActive)
            && (l.ClientDrops? || l.TimerExpires? ==> !x.q.timerActive)
            && (l.ClientTake? ==> x.q.timerActive == c.client.q.timerActive)
            && (l.ClientRuns? ==> x.q.timerActive == (c.client.q.timerActive && !Qt.CallsOnRequest(c.client.q.d)))
  {
    hide ReadyRead;
    Qt.AtMostOneRequest(c.client.q.d);
  }

  lemma QtServerStep(h: Handler, c: Pair, l: Label)
    requires c.server.QtS? && IsServers(l) && ServerEnabled(c, l)
    ensures var x := ServerStep(h, c, l);
            && x.QtS? && x.threaded == c.server.threaded
            && (x.open <==> !l.ServerRunsFail? && !l.ServerDrops?)
            && (l.ServerTake? || l.ServerDrops? ==>
                  x.w.requestCount == c.server.w.requestCount && x.w.d.emitted == c.server.w.d.emitted)
            && (l.ServerRuns? || l.ServerRunsFail? ==>
                  && |x.w.d.emitted| == |c.server.w.d.emitted| + (if Qt.CallsOnRequest(c.server.w.d) then 1 else 0)
                  && x.w.requestCount == c.server.w.requestCount +
                       if !c.server.threaded || Qt.CallsOnRequest(c.server.w.d) then 1 else 0)
  {
    hide ReadyRead;
    Qt.AtMostOneRequest(c.server.w.d);
  }

  /** Once its socket has gone a Qt client does nothing more. */
  lemma {:induction false} GoneClientStays(h: Handler, c: Pair, ls: seq<Label>)
    requires c.client.QtC? && !c.client.open && Legal(h, c, ls)
    ensures Run(h, c, ls).client == c.client
    ensures forall l :: l in ls ==> IsServers(l)
    decreases |ls|
  {
    hide ServerEnabled, ServerStep;
    if ls != [] {
      GoneClientStays(h, Apply(h, c, ls[0]), ls[1..]);
      assert forall l :: l in ls ==> l == ls[0] || l in ls[1..];
    }
  }

  lemma {:induction false} GoneServerStays(h: Handler, c: Pair, ls: seq<Label>)
    requires c.server.QtS? && !c.server.open && Legal(h, c, ls)
    ensures Run(h, c, ls).server == c.server
    ensures forall l :: l in ls ==> !IsServers(l)
    decreases |ls|
  {
    hide ClientEnabled, ClientStep;
    if ls != [] {
      GoneServerStays(h, Apply(h, c, ls[0]), ls[1..]);
      assert forall l :: l in ls ==> l == ls[0] || l in ls[1..];
    }
  }

  lemma {:induction false} TimerOfAGoneClient(h: Handler, c: Pair, ls: seq<Label>)
    requires c.client.QtC? && (c.client.open || !c.client.q.timerActive) && Legal(h, c, ls)
    ensures var x := Run(h, c, ls).client;
            x.QtC? && (!x.open && x.q.timerActive ==> exists l :: l in ls && l.SendFails?)
    decreases |ls|
  {
    hide Enabled, Apply, ClientStep, ServerStep, ClientEnabled, ServerEnabled;
    if ls != [] {
      var c' := Apply(h, c, ls[0]);
      ClientChangesByItsOwn(h, c, ls[0]);
      if !IsServers(ls[0]) {
        QtClientStep(c, ls[0]);
      }
      if ls[0].SendFails? {
        RequestsGrow(h, c', ls[1..]);
        assert ls[0] in ls;
      } else {
        TimerOfAGoneClient(h, c', ls[1..]);
        assert forall l :: l in ls[1..] ==> l in ls;
      }
    }
  }

  lemma ClientChangesByItsOwn(h: Handler, c: Pair, l: Label)
    requires Enabled(c, l)
    ensures !IsServers(l) ==> ClientEnabled(c, l) && Apply(h, c, l).client == ClientStep(c, l)
    ensures IsServers(l) ==> ServerEnabled(c, l) && Apply(h, c, l).server == ServerStep(h, c, l)
    ensures IsServers(l) ==> Apply(h, c, l).client == c.client
    ensures !IsServers(l) ==> Apply(h, c, l).server == c.server
    ensures SameKinds(c, Apply(h, c, l))
  {
  }

  /** In every run the timer of a Qt client whose socket has gone is stopped, unless it was a failed write
      that gave it up. */
  lemma EveryGoneClientsTimer(h: Handler, qtServer: bool, threaded: bool, ls: seq<Label>)
    requires Legal(h, Fresh(true, qtServer, threaded), ls)
    ensures var x := Run(h, Fresh(true, qtServer, threaded), ls).client;
            x.QtC? && (!x.open && x.q.timerActive ==> exists l :: l in ls && l.SendFails?)
  {
    hide Legal, Run;
    TimerOfAGoneClient(h, Fresh(true, qtServer, threaded), ls);
  }

  function Calls(ls: seq<Label>): nat {
    if ls == [] then 0 else (if ls[0].ServerRuns? || ls[0].ServerRunsFail? then 1 else 0) + Calls(ls[1..])
  }

  lemma {:induction false} QtServerCounts(h: Handler, c: Pair, ls: seq<Label>)
    requires c.server.QtS? && Legal(h, c, ls)
    ensures var x, x' := c.server, Run(h, c, ls).server;
            && x'.QtS? && x'.threaded == x.threaded
            && x'.w.requestCount - x.w.requestCount ==
                 if x.threaded then |Handled(x')| - |Handled(x)| else Calls(ls)
    decreases |ls|
  {
    hide Enabled, Apply, ClientStep, ServerStep, ClientEnabled, ServerEnabled;
    if ls != [] {
      ClientChangesByItsOwn(h, c, ls[0]);
      if IsServers(ls[0]) {
        QtServerStep(h, c, ls[0]);
      }
      QtServerCounts(h, Apply(h, c, ls[0]), ls[1..]);
    }
  }

  /** Whatever client it serves and whatever fails, a thread has counted the requests it handled, and a
      pool worker the `readyRead` events it had. */
  lemma EveryQtServerCounts(h: Handler, qtClient: bool, threaded: bool, ls: seq<Label>)
    requires Legal(h, Fresh(qtClient, true, threaded), ls)
    ensures var x := Run(h, Fresh(qtClient, true, threaded), ls).server;
            x.QtS? && x.w.requestCount == if threaded then |Handled(x)| else Calls(ls)
  {
    hide Legal, Run;
    QtServerCounts(h, Fresh(qtClient, true, threaded), ls);
  }

  /** What can go wrong at any time: an error in place of a completion, a disconnect, a write that fails
      when there is something to write, and a timeout exactly while the timer runs. */
  lemma AnythingCanFail(c: Pair, p: Payload, headerOut: bool)
    ensures c.client.AsioC? && c.client.c.ep.Valid() && c.client.c.ep.Busy() ==> Enabled(c, ClientRuns(true))
    ensures c.server.AsioS? && c.server.s.ep.Valid() && c.server.s.ep.Busy() ==> Enabled(c, ServerRuns(true))
    ensures c.client.QtC? ==>
              && (Enabled(c, ClientDrops) <==> c.client.open)
              && (Enabled(c, TimerExpires) <==> c.client.open && c.client.q.timerActive)
              && (Enabled(c, SendFails(p, headerOut)) <==> Enabled(c, Send(p)))
    ensures c.server.QtS? ==>
              && (Enabled(c, ServerDrops) <==> c.server.open)
              && (Enabled(c, ServerRunsFail(headerOut)) <==>
                    Enabled(c, ServerRuns(false)) && Qt.CallsOnRequest(c.server.w.d))
  {
    hide ReadyRead;
  }

  /* ---- the loops of the benchmark ---- */

  /** The handler of either kind of server. */
  function ServeEither(k: Kind, on: Malformed, qtServer: bool): Handler {
    if qtServer then ServeArray(k, on) else Serve(k, on)
  }

  lemma NumberedAreSeen(k: Kind, on: Malformed, qtServer: bool, ps: seq<Payload>, first: nat)
    requires Numbered(ps, first)
    ensures Short(ps) && [] !in ps && [] !in Replies(ServeEither(k, on, qtServer), ps)
  {
    hide RequestBytes, Reply, Encode, Decode;
    forall i | 0 <= i < |ps|
      ensures 0 < |ps[i]| < I63 && ServeEither(k, on, qtServer)(ps[i]) != []
    {
      MessagesAreShortAndNonempty(k, on, (first + i) % U32, 0, ps[i]);
    }
  }

  /** The i-th response carries the i-th id, in every run of every pairing and for either schema of the
      server. The Asio loop counts from 1, the Qt loop from 0. */
  lemma EveryPairingCarriesTheLoopsIds(k: Kind, on: Malformed, qtClient: bool, qtServer: bool, threaded: bool,
                                       ls: seq<Label>, first: nat)
    requires Legal(ServeEither(k, on, qtServer), Fresh(qtClient, qtServer, threaded), ls)
    ensures var client := Run(ServeEither(k, on, qtServer), Fresh(qtClient, qtServer, threaded), ls).client;
            Numbered(Requests(client), first) ==>
              forall i :: 0 <= i < |Responses(client)| ==>
                Decode(UInt32, Responses(client)[i]) == Some(Response((first + i) % U32, true))
  {
    hide Legal, Run, Fresh, Seen, Short, Requests, Responses, Handled, Decode, OnRequest, Reply, RequestBytes, ServeEither;
    var h := ServeEither(k, on, qtServer);
    var c := Run(h, Fresh(qtClient, qtServer, threaded), ls);
    var requests, handled, responses := Requests(c.client), Handled(c.server), Responses(c.client);
    if Numbered(requests, first) {
      NumberedAreSeen(k, on, qtServer, requests, first);
      EveryPairingRefinesCallLoop(h, qtClient, qtServer, threaded, ls);
      SeenLength(qtServer, requests);
      assert handled <= requests;
      assert forall i :: 0 <= i < |handled| ==> Replies(h, handled)[i] == Replies(h, requests)[i];
      SeenLength(qtClient, Replies(h, handled));
      assert responses <= Replies(h, handled);
      forall i | 0 <= i < |responses|
        ensures Decode(UInt32, responses[i]) == Some(Response((first + i) % U32, true))
      {
        assert responses[i] == h(handled[i]) == h(requests[i]);
        EitherAnswers(k, on, qtServer, (first + i) % U32);
      }
    }
  }

  lemma EitherAnswers(k: Kind, on: Malformed, qtServer: bool, id: nat)
    requires id < U32
    ensures Decode(UInt32, ServeEither(k, on, qtServer)(RequestBytes(id, 0))) == Some(Response(id, true))
  {
    hide Decode, Encode, RequestBytes, OnRequest, Reply;
    JobIdSurvives(k, on, id, 0);
  }

  /** On the same stream of non-empty frames within the buffer limit, however each of them got it in
      chunks, an Asio session waiting for more bytes and a quiescent Qt decoder have delivered the same
      payloads. */
  lemma ReceiversAgree(h: Handler, s: AsioSession.SessionState, d: Decoder)
    requires AsioSession.Inv(h, s) && s.ep.Room() > 0
    requires Inv(d) && Quiescent(d)
    requires d.arrived == s.ep.received && SmallHeaders(d.arrived)
    requires forall p :: p in Parse(d.arrived).0 ==> p != []
    ensures s.handled == d.emitted == Parse(d.arrived).0
  {
    hide Frames, Inv, ReadyRead, SmallHeaders;
    Ep.WaitingMeansParsed(s.ep, Replies(h, s.handled), s.handled);
    QuiescentDecoderIsExactIff(d);
    NonEmptyHasNoEmpty(Parse(d.arrived).0);
  }
}
