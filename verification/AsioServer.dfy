/** The Asio server as objects: sessions that update their own fields, and a server whose table, id
    counter and total they share. Every handler does to its session's fields what the function of the
    same name in `AsioSession` says, and so keeps the session's `Valid()`; a failed check is the only
    place a session touches the server. */
module AsioServerObject {
  import opened Framing
  import opened AsioEndpoint
  import Spec = AsioSession

  class Session {
    const server: Server
    const id: nat
    var phase: Phase
    var dataLen: Bytes
    var dataBuf: Bytes
    var want: nat
    var done: nat
    var requestCount: nat
    ghost var sent: Bytes
    ghost var received: Bytes
    ghost var completions: nat
    ghost var handled: seq<Payload>

    ghost function State(): Spec.SessionState
      reads this
    {
      Spec.SessionState(Endpoint(phase, dataLen, dataBuf, LIMIT, want, done, sent, received, completions),
                        requestCount, handled)
    }

    /** The server's side of a step: nothing, or the session's count taken over and its entry erased. */
    twostate predicate ServerFollows()
      reads this, server
    {
      var ended := !old(phase).Failed? && phase.Failed?;
      && server.totalRequests == old(server.totalRequests) + (if ended then requestCount else 0)
      && server.clients == (if ended then old(server.clients) - {id} else old(server.clients))
      && server.clientIdCounter == old(server.clientIdCounter)
      && server.accepting == old(server.accepting)
    }

    /** Whatever the peer sends: whole requests taken in order, each answered once by the handler's
        reply, answers counted. */
    ghost predicate Valid()
      reads this
    {
      State().ep.Valid() && Spec.Inv(server.onRequest, State())
    }

    constructor (server: Server, id: nat)
      ensures Valid() && State() == Spec.FRESH && this.server == server && this.id == id
    {
      this.server, this.id := server, id;
      phase, dataLen, dataBuf, want, done, requestCount := Idle, ZERO, [], 0, 0, 0;
      sent, received, completions, handled := [], [], 0, [];
      new;
      hide Spec.Inv, DecodeLE, Digit;
      assert State() == Spec.FRESH;
      FreshIsValid(server.onRequest);
    }

    method CheckOperation(ec: bool, bytesTransferred: nat, expectedLength: nat) returns (ok: bool)
      requires !phase.Failed?
      modifies this, server
      ensures ok == AsioEndpoint.CheckOperation(ec, bytesTransferred, expectedLength)
      ensures State() == if ok then old(State()) else Spec.Disconnect(old(State()))
      ensures ServerFollows()
    {
      if ec || bytesTransferred != expectedLength {
        server.totalRequests := server.totalRequests + requestCount;
        server.OnDisconnect(id);
        phase := Failed;
        return false;
      }
      return true;
    }

    /** Begins the first read. */
    method InitiateCommunication()
      requires Valid() && phase.Idle?
      modifies this
      ensures Valid() && phase.RecvLen? && State().ep.Room() == HEADER
      ensures State() == Spec.InitiateReceiveRequest(old(State()))
    {
      Spec.BeginKeepsInv(server.onRequest, State());
      InitiateReceiveRequest();
    }

    method InitiateReceiveRequest()
      modifies this
      ensures State() == Spec.InitiateReceiveRequest(old(State()))
    {
      dataLen := ZERO;
      phase, want, done := RecvLen, HEADER, 0;
    }

    method OnLenReceived()
      modifies this
      ensures State() == Spec.OnLenReceived(old(State()))
    {
      phase, want, done := RecvData, DecodeLE(dataLen), 0;
    }

    method OnDataReceived()
      requires |dataBuf| < U64
      modifies this
      ensures State() == Spec.OnDataReceived(server.onRequest, old(State()))
    {
      handled := handled + [dataBuf];
      dataBuf := server.onRequest(dataBuf);
      InitiateSendResponse();
    }

    method InitiateSendResponse()
      modifies this
      ensures State() == Spec.InitiateSendResponse(old(State()))
    {
      dataLen := Header(|dataBuf|);
      phase, want, done := SendLen, HEADER, 0;
    }

    method OnLenSent()
      modifies this
      ensures State() == Spec.OnLenSent(old(State()))
    {
      phase, want, done := SendData, |dataBuf|, 0;
    }

    method OnDataSent()
      modifies this
      ensures State() == Spec.OnDataSent(old(State()))
    {
      requestCount := requestCount + 1;
      InitiateReceiveRequest();
    }

    method ReadLenCompleted(ec: bool)
      requires !phase.Failed?
      modifies this, server
      ensures State() == Spec.ReadLenCompleted(old(State()), ec)
      ensures ServerFollows()
    {
      var ok := CheckOperation(ec, done, HEADER);
      if ok { OnLenReceived(); }
    }

    method ReadDataCompleted(ec: bool)
      requires !phase.Failed? && |dataBuf| < U64
      modifies this, server
      ensures State() == Spec.ReadDataCompleted(server.onRequest, old(State()), ec)
      ensures ServerFollows()
    {
      var ok := CheckOperation(ec, done, DecodeLE(dataLen));
      if ok { OnDataReceived(); }
    }

    method WriteLenCompleted(ec: bool)
      requires !phase.Failed?
      modifies this, server
      ensures State() == Spec.WriteLenCompleted(old(State()), ec)
      ensures ServerFollows()
    {
      var ok := CheckOperation(ec, done, HEADER);
      if ok { OnLenSent(); }
    }

    method WriteDataCompleted(ec: bool)
      requires !phase.Failed? && done <= |dataBuf|
      modifies this, server
      ensures State() == Spec.WriteDataCompleted(old(State()), ec)
      ensures ServerFollows()
    {
      dataBuf := dataBuf[done..];
      var ok := CheckOperation(ec, done, DecodeLE(dataLen));
      if ok { OnDataSent(); }
    }

    method Dispatch(ec: bool)
      requires State().ep.Valid() && State().ep.Busy()
      modifies this, server
      ensures State() == Spec.Completed(server.onRequest, old(State()), ec)
      ensures ServerFollows()
    {
      completions := completions + 1;
      match phase {
        case RecvLen => ReadLenCompleted(ec);
        case RecvData => ReadDataCompleted(ec);
        case SendLen => WriteLenCompleted(ec);
        case SendData => WriteDataCompleted(ec);
      }
    }

    /** The outstanding operation's handler; a session that has ended has none. It moves no byte and
        ends the session exactly on an error or a request too big for the buffer, and then the server
        takes over its count. A request that arrived whole is handled, and the frame of the handler's
        reply is what is to be sent next; a response whose write is done is counted. */
    method Completed(ec: bool)
      requires Valid() && State().ep.Busy() && (ec || State().ep.Settled())
      modifies this, server
      ensures Valid() && ServerFollows()
      ensures old(server.Valid()) ==> server.Valid()
      ensures phase.Failed? <==> ec || (old(phase).RecvData? && old(State().ep.Length()) > LIMIT)
      ensures sent == old(sent) && received == old(received)
      ensures if old(phase).RecvData? && !phase.Failed?
              then |old(dataBuf)| < U64 && handled == old(handled) + [old(dataBuf)]
                   && ToSend(State().ep) == Frame(server.onRequest(old(dataBuf)))
              else handled == old(handled)
      ensures requestCount == old(requestCount) + (if old(phase).SendData? && !phase.Failed? then 1 else 0)
      ensures State() == Spec.Completed(server.onRequest, old(State()), ec)
    {
      hide Spec.Completed, Spec.Inv;
      var s := State();
      Spec.CompletedKeepsInv(server.onRequest, s, ec);
      Spec.CompletionMovesNothing(server.onRequest, s, ec);
      Handles(server.onRequest, s, ec);
      Dispatch(ec);
    }

    /** Some bytes of the operation under way reach the wire. */
    method Transmit(n: nat) returns (bytes: Bytes)
      requires Valid() && 0 < n <= |State().ep.Unsent()|
      modifies this
      ensures Valid() && State() == old(State()).(ep := Put(old(State()).ep, n))
      ensures bytes == old(ToSend(State().ep))[..n] && sent == old(sent) + bytes
      ensures ToSend(State().ep) == old(ToSend(State().ep))[n..]
    {
      hide Spec.Inv;
      Spec.PutKeepsInv(server.onRequest, State(), n);
      PutMoves(State().ep, n);
      assert State().ep.Unsent()[..n] == ToSend(State().ep)[..n];
      bytes := if phase.SendLen? then dataLen[done..done + n] else dataBuf[done..done + n];
      assert bytes == State().ep.Unsent()[..n];
      done := done + n;
      sent := sent + bytes;
    }

    /** Some bytes come off the wire for the operation under way. */
    method Receive(chunk: Bytes)
      requires Valid() && 0 < |chunk| <= State().ep.Room()
      modifies this
      ensures Valid() && State() == old(State()).(ep := Take(old(State()).ep, chunk))
      ensures received == old(received) + chunk
    {
      hide Spec.Inv;
      Spec.TakeKeepsInv(server.onRequest, State(), chunk);
      if phase.RecvLen? {
        dataLen := dataLen[..done] + chunk + dataLen[done + |chunk|..];
      } else {
        dataBuf := dataBuf + chunk;
      }
      done := done + |chunk|;
      received := received + chunk;
    }
  }

  lemma FreshIsValid(h: Handler)
    ensures Spec.FRESH.ep.Valid() && Spec.Inv(h, Spec.FRESH)
  {
    hide Spec.Inv;
    Spec.FreshKeepsInv(h);
  }

  lemma Handles(h: Handler, s: Spec.SessionState, ec: bool)
    requires Spec.Inv(h, s) && s.ep.Busy() && (ec || s.ep.Settled())
    ensures var s' := Spec.Completed(h, s, ec);
            && s'.requestCount == s.requestCount + (if s.ep.phase.SendData? && !s'.ep.phase.Failed? then 1 else 0)
            && s'.ep.Valid()
            && (if s.ep.phase.RecvData? && !s'.ep.phase.Failed?
                then |s.ep.dataBuf| < U64 && s'.handled == s.handled + [s.ep.dataBuf]
                     && ToSend(s'.ep) == Frame(h(s.ep.dataBuf))
                else s'.handled == s.handled)
  {
    hide Frames, Replies, Spec.Completed;
    Spec.CompletedKeepsInv(h, s, ec);
    if !ec && s.ep.phase.RecvData? {
      Spec.ReadDataCheck(h, s);
    }
    HandledState(h, s, ec);
  }

  lemma HandledState(h: Handler, s: Spec.SessionState, ec: bool)
    requires s.ep.Valid() && s.ep.Busy() && s.ep.maxSize == LIMIT
    ensures var s' := Spec.Completed(h, s, ec);
            && s'.requestCount == s.requestCount + (if s.ep.phase.SendData? && !s'.ep.phase.Failed? then 1 else 0)
            && (if s.ep.phase.RecvData? && !s'.ep.phase.Failed?
                then s'.ep.Valid() && s'.handled == s.handled + [s.ep.dataBuf]
                     && ToSend(s'.ep) == Frame(h(s.ep.dataBuf))
                else s'.handled == s.handled)
  {
    var reply := h(s.ep.dataBuf);
    assert Header(|reply|)[0..] == Header(|reply|);
  }

  class Server {
    var clientIdCounter: nat
    var clients: map<nat, Session>
    var totalRequests: nat
    var accepting: bool          // an async_accept is outstanding
    const onRequest: Handler

    /** Ids handed out are below the counter, and the table files every session under its own id. */
    ghost predicate Valid()
      reads this
    {
      forall id :: id in clients ==> id < clientIdCounter && clients[id].id == id && clients[id].server == this
    }

    constructor (onRequest: Handler)
      ensures Valid() && totalRequests == 0 && accepting && this.onRequest == onRequest
      ensures clientIdCounter == 1 && clients.Keys == {0} && fresh(clients[0])
      ensures clients[0].State() == Spec.FRESH
    {
      clientIdCounter, clients, totalRequests, accepting := 0, map[], 0, false;
      this.onRequest := onRequest;
      new;
      hide Spec.Inv;
      var first := InitiateAccept();
    }

    /** Adds one fresh session under an id never used before; no other entry changes. */
    method InitiateAccept() returns (client: Session)
      requires Valid()
      modifies this
      ensures Valid() && fresh(client) && client.State() == Spec.FRESH
      ensures client.server == this && client.id == old(clientIdCounter)
      ensures old(clientIdCounter) !in old(clients)
      ensures clients == old(clients)[old(clientIdCounter) := client]
      ensures clientIdCounter == old(clientIdCounter) + 1
      ensures accepting && totalRequests == old(totalRequests)
    {
      hide Spec.Inv;
      client := new Session(this, clientIdCounter);
      assert clientIdCounter !in clients;   // so try_emplace always inserts
      clients := clients[clientIdCounter := client];
      clientIdCounter := clientIdCounter + 1;
      accepting := true;
    }

    method OnDisconnect(clientId: nat)
      modifies this`clients
      ensures clients == old(clients) - {clientId}
    {
      clients := clients - {clientId};
    }

    /** The accept handler. An accept error throws before the next accept is started; a socket option
        that cannot be set throws after it, and leaves the new session without an operation. */
    method AcceptCompleted(client: Session, ec: bool, optionFails: bool) returns (thrown: bool)
      requires Valid() && accepting && client.server == this && client.Valid() && client.phase.Idle?
      modifies this, client
      ensures Valid() && client.Valid() && thrown == (ec || optionFails) && accepting == !ec
      ensures totalRequests == old(totalRequests)
      ensures ec ==> clients == old(clients) && clientIdCounter == old(clientIdCounter)
      ensures !ec ==> clientIdCounter == old(clientIdCounter) + 1
                      && old(clientIdCounter) in clients
                      && fresh(clients[old(clientIdCounter)])
                      && clients == old(clients)[old(clientIdCounter) := clients[old(clientIdCounter)]]
      ensures client.State() == if thrown then old(client.State()) else Spec.InitiateReceiveRequest(old(client.State()))
    {
      hide Spec.Inv;
      accepting := false;
      if ec {
        return true;
      }
      var next := InitiateAccept();
      if optionFails {
        return true;
      }
      client.InitiateCommunication();
      return false;
    }
  }
}
