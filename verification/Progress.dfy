/** Deadlock freedom and termination of a connection on which nothing fails. */
module Progress {
  import opened Framing
  import opened AsioEndpoint
  import Client = AsioClient
  import Session = AsioSession
  import opened Connection

  /** No error code, no timeout, and no request the server's buffer cannot hold. */
  predicate Sound(l: Label) {
    match l
    case Request(p) => |p| <= LIMIT
    case ClientCompletes(ec) => !ec
    case ServerCompletes(ec) => !ec
    case TimerExpires => false
    case RunTimeout => false
    case _ => true
  }

  ghost predicate Live(h: Handler, c: Conn) {
    && Inv(h, c)
    && c.client.open && !c.client.ep.phase.Failed?
    && c.server.ep.Busy()
    && (forall p :: p in c.client.requests ==> |p| <= LIMIT)
  }

  lemma AcceptedIsLive(h: Handler)
    ensures Live(h, ACCEPTED)
  {
    hide Inv;
    AcceptedInv(h);
  }

  /** Once the session has a length, it is the length of the request it has not handled yet. */
  lemma AnnouncedLength(h: Handler, c: Conn)
    requires Inv(h, c) && c.server.ep.phase.RecvData?
    ensures |c.server.handled| < |c.client.requests|
    ensures c.server.ep.Length() == |c.client.requests[|c.server.handled|]|
  {
    InvImpliesCallLoop(h, c);
    StreamPrefixes(c.client.ep, c.client.requests, c.client.responses);
    HeaderIsNext(c.client.requests, c.server.handled, c.server.ep.dataLen, c.server.ep.dataBuf, c.server.ep.received);
  }

  lemma HeaderIsNext(out: seq<Payload>, got: seq<Payload>, header: Bytes, data: Bytes, received: Bytes)
    requires got <= out && |header| == HEADER
    requires received == Frames(got) + (header + data) && received <= Frames(out)
    ensures |got| < |out| && DecodeLE(header) == |out[|got|]|
  {
    hide Frames;
    var rest, k := out[|got|..], |Frames(got)|;
    assert out == got + rest;
    FramesConcat(got, rest);
    assert Frames(rest) == Frames(out)[k..];
    assert header == received[k..k + HEADER] == Frames(rest)[..HEADER];
    FramesNonempty(rest);
    assert rest == [rest[0]] + rest[1..];
    FramesCons(rest[0], rest[1..]);
    HeaderRoundTrip(|rest[0]|);
    assert Frames(rest) == Frame(rest[0]) + Frames(rest[1..]);
    assert Frames(rest)[..HEADER] == Frame(rest[0])[..HEADER] == Header(|rest[0]|);
  }

  function Requested(l: Label): seq<Payload> { if l.Request? then [l.p] else [] }

  lemma ServerStaysBusy(h: Handler, c: Conn)
    requires Live(h, c) && c.server.ep.Settled()
    ensures Session.Completed(h, c.server, false).ep.Busy()
  {
    Session.CompletedKeepsInv(h, c.server, false);
    if c.server.ep.phase.RecvData? {
      AnnouncedLength(h, c);
    }
  }

  lemma ClientStaysSound(h: Handler, c: Conn)
    requires Live(h, c) && c.client.ep.Settled()
    ensures var c' := Client.Completed(c.client, false);
            !c'.ep.phase.Failed? && c'.open && c'.requests == c.client.requests
  {
    match c.client.ep.phase
    case SendLen => Client.WriteLenKeepsInv(c.client);
    case SendData => Client.WriteDataKeepsInv(c.client);
    case RecvLen => Client.ReadLenKeepsInv(c.client);
    case RecvData => Client.ReadDataKeepsInv(c.client);
  }

  lemma SoundKeepsLive(h: Handler, c: Conn, l: Label)
    requires Live(h, c) && Enabled(c, l) && Sound(l)
    ensures Live(h, Apply(h, c, l))
    ensures Apply(h, c, l).client.requests == c.client.requests + Requested(l)
  {
    hide Inv, Session.Completed, Client.Completed;
    StepKeepsInv(h, c, l);
    if l.ServerCompletes? {
      ServerStaysBusy(h, c);
    } else if l.ClientCompletes? {
      ClientStaysSound(h, c);
    }
  }

  /* ---- no deadlock ---- */

  function Min(a: nat, b: nat): nat { if a < b then a else b }

  /** A step that is enabled while an exchange is under way. */
  function NextStep(c: Conn): Label
    requires c.client.ep.Valid() && c.server.ep.Valid()
  {
    if c.client.ep.Unsent() != [] then ClientPut(|c.client.ep.Unsent()|)
    else if c.client.ep.Settled() then ClientCompletes(false)
    else if c.s2c != [] then ClientTake(Min(c.client.ep.Room(), |c.s2c|))
    else if c.server.ep.Unsent() != [] then ServerPut(|c.server.ep.Unsent()|)
    else if c.server.ep.Settled() then ServerCompletes(false)
    else ServerTake(Min(c.server.ep.Room(), |c.c2s|))
  }

  /** Both sides waiting for bytes that are not there is impossible. */
  lemma NotBothWaiting(h: Handler, c: Conn)
    requires Inv(h, c) && c.c2s == [] && c.s2c == []
    requires c.client.ep.phase.RecvLen? || c.client.ep.phase.RecvData?
    requires c.server.ep.phase.RecvLen? || c.server.ep.phase.RecvData?
    requires c.client.ep.Room() > 0
    ensures c.server.ep.Room() == 0
  {
    hide Streams, Frames, Parse;
    var out, replies := c.client.requests, Replies(h, c.server.handled);
    Waiting(c.client.ep, out, c.client.responses);
    Waiting(c.server.ep, replies, c.server.handled);
    AllParsed(out, c.client.ep.sent);
    AllParsed(replies, c.server.ep.sent);
    assert c.client.ep.sent == c.server.ep.received && c.server.ep.sent == c.client.ep.received;
  }

  lemma AllParsed(out: seq<Payload>, sent: Bytes)
    requires sent == Frames(out)
    ensures Parse(sent).0 == out
  {
    assert sent + [] == sent;
    ParseUnique(out, []);
  }

  /** Read from the stream invariant while a side waits for bytes. */
  lemma Waiting(e: Endpoint, out: seq<Payload>, got: seq<Payload>)
    requires Streams(e, out, got) && (e.phase.RecvLen? || e.phase.RecvData?)
    ensures e.sent == Frames(out)
    ensures e.Room() > 0 ==> Parse(e.received).0 == got
  {
    assert e.sent + [] == e.sent;
    if e.Room() > 0 {
      WaitingMeansParsed(e, out, got);
    }
  }

  lemma LiveIsValid(h: Handler, c: Conn)
    requires Inv(h, c)
    ensures c.client.ep.Valid() && c.server.ep.Valid()
  {
  }

  /** In every reachable failure-free state with an unanswered request some step is enabled. */
  lemma NeverStuck(h: Handler, c: Conn)
    requires Live(h, c) && c.client.ep.Busy()
    ensures Enabled(c, NextStep(c)) && Sound(NextStep(c)) && !NextStep(c).Request?
  {
    hide Inv, Streams;
    LiveIsValid(h, c);
    if c.c2s == [] && c.s2c == [] && c.client.ep.Room() > 0 && c.server.ep.Unsent() == [] && !c.server.ep.Settled() {
      NotBothWaiting(h, c);
      assert false;
    }
  }

  /* ---- no livelock ---- */

  /** Bytes moved and handlers run, on both sides, since the connection was accepted. */
  ghost function Work(c: Conn): nat {
    |c.client.ep.sent| + |c.client.ep.received| + |c.server.ep.sent| + |c.server.ep.received|
    + c.client.ep.completions + c.server.ep.completions
  }

  /** Every byte of every frame is put once and taken once; every exchange has four completions a side. */
  ghost function Bound(h: Handler, out: seq<Payload>): nat {
    2 * |Frames(out)| + 2 * |Frames(Replies(h, out))| + 8 * |out|
  }

  lemma WorkIsBounded(h: Handler, c: Conn)
    requires Live(h, c)
    ensures Work(c) <= Bound(h, c.client.requests)
  {
    hide Frames, ToSend, Partial, Header, Streams;
    InvImpliesCallLoop(h, c);
    var out, handled := c.client.requests, c.server.handled;
    StreamPrefixes(c.client.ep, out, c.client.responses);
    StreamPrefixes(c.server.ep, Replies(h, handled), handled);
    assert Replies(h, handled) <= Replies(h, out);
    FramesLonger(Replies(h, handled), Replies(h, out));
    if c.server.ep.phase.RecvData? {
      AnnouncedLength(h, c);
    }
  }

  /** Every step except a new request is progress. */
  lemma StepIsWork(h: Handler, c: Conn, l: Label)
    requires Live(h, c) && Enabled(c, l) && Sound(l)
    ensures Work(Apply(h, c, l)) >= Work(c) + if l.Request? then 0 else 1
  {
    hide Client.Completed, Session.Completed, Frames, Header;
    match l {
      case ClientCompletes(ec) =>
        Client.CompletionMovesNothing(c.client, ec);
        Client.CompletionAdvances(c.client, ec);
      case ServerCompletes(ec) =>
        Session.CompletionMovesNothing(h, c.server, ec);
        Session.CompletionCounts(h, c.server, ec);
      case _ =>
    }
  }

  function Requests(ls: seq<Label>): seq<Payload> {
    if ls == [] then [] else Requested(ls[0]) + Requests(ls[1..])
  }

  lemma Reassociate(a: seq<Payload>, b: seq<Payload>, c: seq<Payload>)
    ensures (a + b) + c == a + (b + c)
  {
  }

  lemma {:induction false} RunIsWork(h: Handler, c: Conn, ls: seq<Label>)
    requires Live(h, c) && Legal(h, c, ls)
    requires forall l :: l in ls ==> Sound(l)
    ensures Live(h, Run(h, c, ls))
    ensures Run(h, c, ls).client.requests == c.client.requests + Requests(ls)
    ensures Work(c) + |ls| <= Work(Run(h, c, ls)) + |Requests(ls)|
    decreases |ls|
  {
    hide Live, Enabled, Apply, Work, Sound;
    if ls == [] {
      assert c.client.requests + [] == c.client.requests;
    } else {
      var c' := Apply(h, c, ls[0]);
      SoundKeepsLive(h, c, ls[0]);
      StepIsWork(h, c, ls[0]);
      RunIsWork(h, c', ls[1..]);
      Reassociate(c.client.requests, Requested(ls[0]), Requests(ls[1..]));
    }
  }

  lemma AnsweredWhenStuck(h: Handler, c: Conn)
    requires Live(h, c)
    requires forall l :: Enabled(c, l) && Sound(l) ==> l.Request?
    ensures c.client.ep.phase.Idle? && c.client.responses == Replies(h, c.client.requests)
  {
    hide Enabled, NextStep, Sound, Streams;
    if c.client.ep.Busy() {
      NeverStuck(h, c);
    }
    InvImpliesCallLoop(h, c);
    assert c.client.requests[..|c.client.responses|] == c.client.requests;
  }

  /** A failure-free run with n requests takes a bounded number of steps, however they interleave, and
      if it cannot be extended without a new request, every request has been answered. */
  lemma EveryRunAnswers(h: Handler, ls: seq<Label>)
    requires Legal(h, ACCEPTED, ls)
    requires forall l :: l in ls ==> Sound(l)
    ensures |ls| <= |Requests(ls)| + Bound(h, Requests(ls))
    ensures var c := Run(h, ACCEPTED, ls);
            (forall l :: Enabled(c, l) && Sound(l) ==> l.Request?) ==>
              c.client.ep.phase.Idle? && c.client.responses == Replies(h, Requests(ls))
  {
    hide Live, Enabled, Sound, Legal, Run, Bound;
    AcceptedIsLive(h);
    RunIsWork(h, ACCEPTED, ls);
    var c := Run(h, ACCEPTED, ls);
    assert ACCEPTED.client.requests + Requests(ls) == Requests(ls);
    WorkIsBounded(h, c);
    if forall l :: Enabled(c, l) && Sound(l) ==> l.Request? {
      AnsweredWhenStuck(h, c);
    }
  }

  lemma IdleIsAnswered(h: Handler, c: Conn)
    requires Live(h, c)
    ensures c.client.ep.Valid() && c.server.ep.Valid()
    ensures c.client.ep.phase.Idle? || c.client.ep.Busy()
    ensures c.client.ep.phase.Idle? ==> c.client.responses == Replies(h, c.client.requests)
  {
    InvImpliesCallLoop(h, c);
    assert c.client.requests[..|c.client.requests|] == c.client.requests;
  }

  /** From any reachable failure-free state the connection can be driven, without a failure or a new
      request, to an idle client that has all its responses. */
  lemma {:induction false} CanAlwaysFinish(h: Handler, c: Conn) returns (ls: seq<Label>)
    requires Live(h, c)
    ensures Legal(h, c, ls) && Requests(ls) == [] && (forall l :: l in ls ==> Sound(l))
    ensures Run(h, c, ls).client.ep.phase.Idle? && Live(h, Run(h, c, ls))
    ensures Run(h, c, ls).client.requests == c.client.requests
    ensures Run(h, c, ls).client.responses == Replies(h, c.client.requests)
    decreases Bound(h, c.client.requests) - Work(c)
  {
    hide Live, Enabled, Apply, Work, Bound, NextStep, Sound;
    IdleIsAnswered(h, c);
    if c.client.ep.phase.Idle? {
      return [];
    }
    NeverStuck(h, c);
    var l := NextStep(c);
    var c' := Apply(h, c, l);
    SoundKeepsLive(h, c, l);
    assert c.client.requests + [] == c.client.requests;
    StepIsWork(h, c, l);
    WorkIsBounded(h, c');
    var rest := CanAlwaysFinish(h, c');
    ls := [l] + rest;
    assert ls[0] == l && ls[1..] == rest;
  }
}
