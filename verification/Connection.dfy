/** One Asio client and one Asio session joined by two FIFO byte channels that grow and drain in
    arbitrary non-empty chunks. A label names one atomic step; a run is a sequence of labels, so every
    lemma about all legal label sequences is a lemma about every interleaving of the two sides'
    handlers with every chunking of the bytes, errors and timeouts included. */
module Connection {
  import opened Framing
  import opened AsioEndpoint
  import Client = AsioClient
  import Session = AsioSession

  datatype Conn = Conn(
    client: Client.ClientState,
    server: Session.SessionState,
    c2s: Bytes,
    s2c: Bytes
  )

  datatype Label =
    | Request(p: Payload)
    | ClientPut(n: nat)
    | ClientTake(n: nat)
    | ClientCompletes(ec: bool)
    | TimerExpires
    | RunTimeout
    | ServerPut(n: nat)
    | ServerTake(n: nat)
    | ServerCompletes(ec: bool)

  /** A connection just accepted: the session has begun its first read. */
  const ACCEPTED := Conn(Client.FRESH, Session.InitiateReceiveRequest(Session.FRESH), [], [])

  /** A connection whose session never begins, because setting the socket option threw. */
  const STRANDED := Conn(Client.FRESH, Session.FRESH, [], [])

  /** A new request only after a response: a connection is used up to its first failure. */
  predicate Enabled(c: Conn, l: Label) {
    && c.server.ep.Valid()
    && match l
       case Request(p) => c.client.ep.phase.Idle? && Client.Enabled(c.client, Client.Start(p))
       case ClientPut(n) => Client.Enabled(c.client, Client.Put(n))
       case ClientTake(n) => n <= |c.s2c| && Client.Enabled(c.client, Client.Take(c.s2c[..n]))
       case ClientCompletes(ec) => Client.Enabled(c.client, Client.Complete(ec))
       case TimerExpires => Client.Enabled(c.client, Client.TimerExpires)
       case RunTimeout => Client.Enabled(c.client, Client.RunTimeout)
       case ServerPut(n) => 0 < n <= |c.server.ep.Unsent()|
       case ServerTake(n) => 0 < n <= |c.c2s| && n <= c.server.ep.Room()
       case ServerCompletes(ec) => c.server.ep.Busy() && (ec || c.server.ep.Settled())
  }

  function Apply(h: Handler, c: Conn, l: Label): Conn
    requires Enabled(c, l)
  {
    match l
    case Request(p) => c.(client := Client.Apply(c.client, Client.Start(p)))
    case ClientPut(n) =>
      c.(client := Client.Apply(c.client, Client.Put(n)), c2s := c.c2s + c.client.ep.Unsent()[..n])
    case ClientTake(n) =>
      c.(client := Client.Apply(c.client, Client.Take(c.s2c[..n])), s2c := c.s2c[n..])
    case ClientCompletes(ec) => c.(client := Client.Apply(c.client, Client.Complete(ec)))
    case TimerExpires => c.(client := Client.Apply(c.client, Client.TimerExpires))
    case RunTimeout => c.(client := Client.Apply(c.client, Client.RunTimeout))
    case ServerPut(n) =>
      c.(server := c.server.(ep := Put(c.server.ep, n)), s2c := c.s2c + c.server.ep.Unsent()[..n])
    case ServerTake(n) =>
      c.(server := c.server.(ep := Take(c.server.ep, c.c2s[..n])), c2s := c.c2s[n..])
    case ServerCompletes(ec) => c.(server := Session.Completed(h, c.server, ec))
  }

  ghost predicate Legal(h: Handler, c: Conn, ls: seq<Label>)
    decreases |ls|
  {
    ls == [] || (Enabled(c, ls[0]) && Legal(h, Apply(h, c, ls[0]), ls[1..]))
  }

  ghost function Run(h: Handler, c: Conn, ls: seq<Label>): Conn
    requires Legal(h, c, ls)
    decreases |ls|
  {
    if ls == [] then c else Run(h, Apply(h, c, ls[0]), ls[1..])
  }

  /* ---- the joint invariant ---- */

  /** Each side keeps its own stream invariant, and a channel holds exactly what one side sent and the
      other has not taken yet. Neither side's invariant mentions the other side's phase. */
  ghost predicate Inv(h: Handler, c: Conn) {
    && Client.Inv(c.client)
    && Session.Inv(h, c.server)
    && c.client.ep.sent == c.server.ep.received + c.c2s
    && c.server.ep.sent == c.client.ep.received + c.s2c
  }

  lemma AcceptedInv(h: Handler)
    ensures Inv(h, ACCEPTED) && Inv(h, STRANDED)
  {
    Client.FreshInv();
    Session.FreshKeepsInv(h);
    Session.BeginKeepsInv(h, Session.FRESH);
  }

  lemma ClientStepKeepsInv(h: Handler, c: Conn, l: Label)
    requires Inv(h, c) && Enabled(c, l)
    requires l.ClientCompletes? || l.TimerExpires? || l.RunTimeout? || l.Request?
    ensures Inv(h, Apply(h, c, l))
  {
    match l {
      case Request(p) => Client.StepKeepsInv(c.client, Client.Start(p));
      case ClientCompletes(ec) =>
        Client.StepKeepsInv(c.client, Client.Complete(ec));
        Client.CompletionMovesNothing(c.client, ec);
      case TimerExpires => Client.StepKeepsInv(c.client, Client.TimerExpires);
      case RunTimeout => Client.StepKeepsInv(c.client, Client.RunTimeout);
    }
  }

  /** A FIFO channel: what goes in at the back and comes out at the front is neither lost nor moved. */
  lemma Fifo(taken: Bytes, channel: Bytes, piece: Bytes, n: nat)
    requires n <= |channel|
    ensures (taken + channel) + piece == taken + (channel + piece)
    ensures taken + channel == (taken + channel[..n]) + channel[n..]
  {
    assert channel == channel[..n] + channel[n..];
  }

  lemma ClientPutKeepsInv(h: Handler, c: Conn, n: nat)
    requires Inv(h, c) && Enabled(c, ClientPut(n))
    ensures Inv(h, Apply(h, c, ClientPut(n)))
  {
    Client.StepKeepsInv(c.client, Client.Put(n));
    Fifo(c.server.ep.received, c.c2s, c.client.ep.Unsent()[..n], 0);
  }

  lemma ClientTakeKeepsInv(h: Handler, c: Conn, n: nat)
    requires Inv(h, c) && Enabled(c, ClientTake(n))
    ensures Inv(h, Apply(h, c, ClientTake(n)))
  {
    Client.StepKeepsInv(c.client, Client.Take(c.s2c[..n]));
    Fifo(c.client.ep.received, c.s2c, [], n);
  }

  lemma ServerPutKeepsInv(h: Handler, c: Conn, n: nat)
    requires Inv(h, c) && Enabled(c, ServerPut(n))
    ensures Inv(h, Apply(h, c, ServerPut(n)))
  {
    Session.PutKeepsInv(h, c.server, n);
    Fifo(c.client.ep.received, c.s2c, c.server.ep.Unsent()[..n], 0);
  }

  lemma ServerTakeKeepsInv(h: Handler, c: Conn, n: nat)
    requires Inv(h, c) && Enabled(c, ServerTake(n))
    ensures Inv(h, Apply(h, c, ServerTake(n)))
  {
    Session.TakeKeepsInv(h, c.server, c.c2s[..n]);
    Fifo(c.server.ep.received, c.c2s, [], n);
  }

  lemma StepKeepsInv(h: Handler, c: Conn, l: Label)
    requires Inv(h, c) && Enabled(c, l)
    ensures Inv(h, Apply(h, c, l))
  {
    match l
    case ClientPut(n) => ClientPutKeepsInv(h, c, n);
    case ClientTake(n) => ClientTakeKeepsInv(h, c, n);
    case ServerPut(n) => ServerPutKeepsInv(h, c, n);
    case ServerTake(n) => ServerTakeKeepsInv(h, c, n);
    case ServerCompletes(ec) =>
      Session.CompletedKeepsInv(h, c.server, ec);
      Session.CompletionMovesNothing(h, c.server, ec);
    case _ => ClientStepKeepsInv(h, c, l);
  }

  lemma {:induction false} RunKeepsInv(h: Handler, c: Conn, ls: seq<Label>)
    requires Inv(h, c) && Legal(h, c, ls)
    ensures Inv(h, Run(h, c, ls))
    decreases |ls|
  {
    if ls != [] {
      StepKeepsInv(h, c, ls[0]);
      RunKeepsInv(h, Apply(h, c, ls[0]), ls[1..]);
    }
  }

  /* ---- refinement of an atomic call loop ---- */

  /** The server handles the client's requests in order, each at most once; the k-th call of
      m_communicateHandler sees exactly what onRequest made of the k-th request. */
  ghost predicate CallLoop(h: Handler, c: Conn) {
    && c.server.handled <= c.client.requests
    && |c.client.responses| <= |c.client.requests|
    && c.client.responses == Replies(h, c.client.requests[..|c.client.responses|])
    && |c.client.responses| <= |c.server.handled|
  }

  lemma InvImpliesCallLoop(h: Handler, c: Conn)
    requires Inv(h, c)
    ensures CallLoop(h, c)
  {
    hide Streams, Frames;
    var out, got := c.client.requests, c.client.responses;
    StreamPrefixes(c.client.ep, out, got);
    StreamPrefixes(c.server.ep, Replies(h, c.server.handled), c.server.handled);
    assert Frames(c.server.handled) <= Frames(out);
    FramesPrefix(c.server.handled, out);
    assert Frames(got) <= Frames(Replies(h, c.server.handled));
    FramesPrefix(got, Replies(h, c.server.handled));
  }

  /** Every reachable state of every run: no loss, no duplication, no reordering, no invention, under
      any interleaving, chunking, error or timeout. */
  lemma EveryRunRefinesCallLoop(h: Handler, ls: seq<Label>)
    requires Legal(h, ACCEPTED, ls)
    ensures CallLoop(h, Run(h, ACCEPTED, ls))
  {
    hide Inv;
    AcceptedInv(h);
    RunKeepsInv(h, ACCEPTED, ls);
    InvImpliesCallLoop(h, Run(h, ACCEPTED, ls));
  }

  /* ---- what holds of the phases, however far one side lags ---- */

  /** At most one direction holds bytes. */
  lemma OneDirection(h: Handler, c: Conn)
    requires Inv(h, c)
    ensures c.c2s == [] || c.s2c == []
  {
    InvImpliesCallLoop(h, c);
    var handled := c.server.handled;
    StreamPrefixes(c.client.ep, c.client.requests, c.client.responses);
    StreamPrefixes(c.server.ep, Replies(h, handled), handled);
    if |handled| == |c.client.responses| {
      assert c.client.requests[..|handled|] == handled;
    } else {
      assert handled == c.client.requests;
    }
  }

  lemma Regroup(a: Bytes, b: Bytes, c: Bytes, d: Bytes)
    ensures a + b + c + d == a + (b + c + d)
  {
  }

  /** If all but the last of `out` has been taken off the wire, what was taken of the last, what is in
      flight and what is unsent make up its frame. */
  lemma InTransit(out: seq<Payload>, got: seq<Payload>, sent: Bytes, toSend: Bytes,
                  received: Bytes, partial: Bytes, channel: Bytes)
    requires out != [] && got == out[..|out| - 1]
    requires sent + toSend == Frames(out)
    requires received == Frames(got) + partial
    requires sent == received + channel
    ensures partial + channel + toSend == Frame(out[|out| - 1])
  {
    Regroup(Frames(got), partial, channel, toSend);
    LastFrame(out, partial + channel + toSend);
  }

  /** Between an exchange's start and its response the server has handled the request or not. Until
      then, taken ++ in flight ++ unsent bytes of the request are exactly its frame, and nothing is
      on the way back. */
  lemma RequestInTransit(h: Handler, c: Conn)
    requires Inv(h, c) && c.client.ep.Busy() && !c.server.ep.phase.Failed?
    requires |c.server.handled| < |c.client.requests|
    ensures |c.server.handled| == |c.client.requests| - 1 && c.s2c == []
    ensures Partial(c.server.ep) + c.c2s + ToSend(c.client.ep)
         == Frame(c.client.requests[|c.client.requests| - 1])
  {
    InvImpliesCallLoop(h, c);
    var out, handled := c.client.requests, c.server.handled;
    assert handled == out[..|out| - 1];
    assert c.client.responses == Replies(h, handled);
    InTransit(out, handled, c.client.ep.sent, ToSend(c.client.ep), c.server.ep.received, Partial(c.server.ep), c.c2s);
  }

  /** Once the request has been handled, the same holds of its response, and no byte of the request
      is left, even if the client's own write handlers have not run yet. */
  lemma ResponseInTransit(h: Handler, c: Conn)
    requires Inv(h, c) && c.client.ep.Busy() && !c.server.ep.phase.Failed?
    requires |c.server.handled| == |c.client.requests|
    ensures c.c2s == [] && ToSend(c.client.ep) == []
    ensures Partial(c.client.ep) + c.s2c + ToSend(c.server.ep)
         == Frame(h(c.client.requests[|c.client.requests| - 1]))
  {
    InvImpliesCallLoop(h, c);
    var out, got := c.client.requests, c.client.responses;
    assert c.server.handled == out;
    var replies := Replies(h, out);
    assert got == replies[..|replies| - 1];
    InTransit(replies, got, c.server.ep.sent, ToSend(c.server.ep), c.client.ep.received, Partial(c.client.ep), c.s2c);
  }

  /** The two sides' counts never differ by more than one, in either direction. */
  lemma CountsWithinOne(h: Handler, c: Conn)
    requires Inv(h, c)
    ensures |c.client.responses| <= c.server.requestCount + 1 <= |c.client.responses| + 2
  {
    InvImpliesCallLoop(h, c);
  }

  /** The handler never sees a request above the buffer limit: such a request is the last one the
      server takes anything of. */
  lemma OversizeIsNeverHandled(h: Handler, c: Conn, i: nat)
    requires Inv(h, c) && i < |c.client.requests| && |c.client.requests[i]| > 1_048_576
    ensures |c.server.handled| <= i && |c.client.responses| <= i
  {
    InvImpliesCallLoop(h, c);
    assert forall k :: 0 <= k < |c.server.handled| ==>
        c.client.requests[k] == c.server.handled[k] && c.server.handled[k] in c.server.handled;
  }

  /** An operation under way can fail at any time, which ends its side for good. */
  lemma EitherSideCanFail(h: Handler, c: Conn)
    requires c.client.ep.Valid() && c.server.ep.Valid()
    ensures c.client.ep.Busy() ==>
              Enabled(c, ClientCompletes(true)) && Apply(h, c, ClientCompletes(true)).client.ep.phase.Failed?
    ensures c.server.ep.Busy() ==>
              Enabled(c, ServerCompletes(true)) && Apply(h, c, ServerCompletes(true)).server.ep.phase.Failed?
    ensures c.client.timerArmed ==> Enabled(c, TimerExpires)
    ensures c.client.queuedTimeouts > 0 ==> Enabled(c, RunTimeout) && !Apply(h, c, RunTimeout).client.open
  {
    hide Client.Completed, Session.Completed;
    if c.client.ep.Busy() {
      Client.ErrorDisconnects(c.client);
    }
    if c.server.ep.Busy() {
      Session.ErrorEnds(h, c.server);
    }
  }
}
