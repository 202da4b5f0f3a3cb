/** The client object and the session object at work: an event loop that runs their handlers and moves
    their bytes in whatever order the events come. What `Connection` proves of every run of labels is
    proved here of the objects' fields. */
module AsioEventLoop {
  import opened Framing
  import opened AsioEndpoint
  import AsioClient
  import AsioSession
  import AsioClientObject
  import AsioServerObject
  import opened Connection

  class EventLoop {
    const client: AsioClientObject.Client
    const session: AsioServerObject.Session
    var c2s: Bytes
    var s2c: Bytes

    ghost function View(): Conn
      reads this, client, session
    {
      Conn(client.State(), session.State(), c2s, s2c)
    }

    ghost predicate Valid()
      reads this, client, session
    {
      client.Valid() && session.Valid() && Inv(session.server.onRequest, View())
    }

    /** A client that has connected and a session that has begun to receive. */
    constructor (client: AsioClientObject.Client, session: AsioServerObject.Session)
      requires client.State() == ACCEPTED.client && session.State() == ACCEPTED.server
      ensures Valid() && View() == ACCEPTED && this.client == client && this.session == session
    {
      this.client, this.session := client, session;
      c2s, s2c := [], [];
      new;
      AcceptedIsValid();
    }

    lemma AcceptedIsValid()
      requires View() == ACCEPTED
      ensures Valid()
    {
      hide Inv, AsioClient.Inv, AsioClient.OneOutcome, AsioClient.Guarded, AsioSession.Inv;
      AcceptedSides(session.server.onRequest);
    }

    /** One event, handled by one method of one object. */
    method Dispatch(l: Label)
      requires Valid() && Enabled(View(), l)
      modifies this, client, session, session.server
      ensures Valid() && View() == Apply(session.server.onRequest, old(View()), l)
    {
      hide Inv, Apply, AsioSession.Inv, AsioClient.Inv, AsioClient.OneOutcome, AsioClient.Guarded;
      StepKeepsInv(session.server.onRequest, View(), l);
      if l.ServerPut? || l.ServerTake? || l.ServerCompletes? {
        DispatchToSession(l);
      } else {
        DispatchToClient(l);
      }
    }

    method DispatchToClient(l: Label)
      requires client.Valid() && Enabled(View(), l) && !l.ServerPut? && !l.ServerTake? && !l.ServerCompletes?
      modifies this, client
      ensures client.Valid() && View() == Apply(session.server.onRequest, old(View()), l)
    {
      hide AsioClient.Completed, AsioClient.Inv, AsioClient.OneOutcome, AsioClient.Guarded;
      match l {
        case Request(p) => client.InitiateCommunication(p);
        case ClientPut(n) =>
          var bytes := client.Transmit(n);
          c2s := c2s + bytes;
        case ClientTake(n) =>
          client.Receive(s2c[..n]);
          s2c := s2c[n..];
        case ClientCompletes(ec) => client.Completed(ec);
        case TimerExpires => client.TimerExpires();
        case RunTimeout => client.CheckTimeout(false);
      }
    }

    method DispatchToSession(l: Label)
      requires session.Valid() && Enabled(View(), l) && (l.ServerPut? || l.ServerTake? || l.ServerCompletes?)
      modifies this, session, session.server
      ensures session.Valid() && View() == Apply(session.server.onRequest, old(View()), l)
    {
      hide AsioSession.Completed, AsioSession.Inv;
      match l {
        case ServerPut(n) =>
          var bytes := session.Transmit(n);
          s2c := s2c + bytes;
        case ServerTake(n) =>
          session.Receive(c2s[..n]);
          c2s := c2s[n..];
        case ServerCompletes(ec) => session.Completed(ec);
      }
    }

    /** Any legal sequence of events: the objects end where the labels say, and whatever the events were,
        the responses the client object has handled are the session's replies to its requests, in
        order. */
    method Run(ls: seq<Label>)
      requires Valid() && Legal(session.server.onRequest, View(), ls)
      modifies this, client, session, session.server
      ensures Valid() && View() == Connection.Run(session.server.onRequest, old(View()), ls)
      ensures session.handled <= client.requests
      ensures client.responses <= Replies(session.server.onRequest, session.handled)
    {
      hide Inv, Apply, Enabled;
      ghost var last := Connection.Run(session.server.onRequest, View(), ls);
      for i := 0 to |ls|
        invariant Valid() && Legal(session.server.onRequest, View(), ls[i..])
        invariant Connection.Run(session.server.onRequest, View(), ls[i..]) == last
      {
        assert ls[i..][0] == ls[i] && ls[i..][1..] == ls[i + 1..];
        Dispatch(ls[i]);
      }
      InvImpliesCallLoop(session.server.onRequest, View());
    }
  }

  lemma AcceptedSides(h: Handler)
    ensures Inv(h, ACCEPTED)
    ensures var c := ACCEPTED.client;
            && c.ep.Valid() && AsioClient.Inv(c) && AsioClient.OneOutcome(c) && AsioClient.Guarded(c)
            && c.ep.phase.Idle? && c.ep.dataBuf == []
    ensures ACCEPTED.server.ep.Valid() && AsioSession.Inv(h, ACCEPTED.server)
  {
    hide AsioClient.Inv, AsioClient.OneOutcome, AsioClient.Guarded, AsioSession.Inv;
    AcceptedInv(h);
    AsioClient.FreshInv();
  }
}
