/** The Qt programs as objects around a socket, each proved to do to its fields what the functions of
    `QtEndpoints` say. */
module QtObjects {
  import opened Framing
  import opened QtDecoder
  import E = QtEndpoints

  /** uint64_t. */
  type Length = n: nat | n < U64

  /** The buffers of a QTcpSocket. */
  class Socket {
    var inbox: Bytes
    var outbox: Bytes
    ghost var arrived: Bytes

    constructor ()
      ensures inbox == [] && outbox == [] && arrived == []
    {
      inbox, outbox, arrived := [], [], [];
    }

    function BytesAvailable(): nat
      reads this
    {
      |inbox|
    }

    /** The network hands over some bytes. */
    method Receive(chunk: Bytes)
      modifies this`inbox, this`arrived
      ensures inbox == old(inbox) + chunk && arrived == old(arrived) + chunk
    {
      inbox, arrived := inbox + chunk, arrived + chunk;
    }

    /** A negative size reads nothing. */
    method Read(maxSize: int) returns (b: Bytes)
      modifies this`inbox
      ensures b + inbox == old(inbox)
      ensures |b| == if maxSize < 0 then 0 else if maxSize < old(|inbox|) then maxSize else old(|inbox|)
    {
      var n := if maxSize < 0 then 0 else if maxSize < |inbox| then maxSize else |inbox|;
      b := inbox[..n];
      inbox := inbox[n..];
    }

    method Write(b: Bytes, fails: bool) returns (n: int)
      modifies this`outbox
      ensures fails ==> n == -1 && outbox == old(outbox)
      ensures !fails ==> n == |b| && outbox == old(outbox) + b
    {
      if fails {
        return -1;
      }
      outbox := outbox + b;
      n := |b|;
    }
  }

  class Client {
    const socket: Socket
    var dataLen: Length
    var dataBuf: Payload
    var timerActive: bool
    ghost var frames: seq<Payload>
    ghost var emitted: seq<Payload>
    ghost var negative: nat
    ghost var requests: seq<Payload>

    ghost function State(): E.ClientState
      reads this, socket
    {
      E.ClientState(Decoder(dataLen, socket.inbox, socket.arrived, frames, emitted, negative),
                    timerActive, requests, socket.outbox)
    }

    constructor ()
      ensures State() == E.ClientState(FRESH, false, [], []) && fresh(socket)
    {
      socket := new Socket();
      dataLen, dataBuf, timerActive := 0, [], false;
      frames, emitted, negative, requests := [], [], 0, [];
    }

    /** Sends the buffer's frame. A failed write returns early and leaves the length of the request in
        `m_dataLen`, where the decoder will take it for a pending header. */
    method SendRequest(lenFails: bool, dataFails: bool)
      modifies this, socket`outbox
      ensures State() == if lenFails || dataFails then E.SendFails(old(State()), dataBuf, !lenFails)
                         else E.SendRequest(old(State()), dataBuf)
      ensures dataBuf == old(dataBuf) && timerActive && requests == old(requests) + [dataBuf]
      ensures socket.outbox <= old(socket.outbox) + Frame(dataBuf)
      ensures socket.outbox == old(socket.outbox) + Frame(dataBuf) <==> !lenFails && (!dataFails || dataBuf == [])
      ensures lenFails || dataFails ==> dataLen == |dataBuf|
    {
      timerActive := true;
      requests := requests + [dataBuf];
      dataLen := |dataBuf|;
      var n := socket.Write(Header(dataLen), lenFails);
      if n == -1 {
        return;
      }
      n := socket.Write(dataBuf, dataFails);
      if n == -1 {
        return;
      }
      assert socket.outbox == old(socket.outbox) + Frame(dataBuf);
      dataLen := 0;
    }

    /** Returns whether `responseReceived` is emitted, with the response in the buffer. */
    method ReceiveResponse() returns (emits: bool)
      modifies this, socket`inbox
      ensures State() == E.ReceiveResponse(old(State()))
      ensures emits == (|emitted| > old(|emitted|))
      ensures emits ==> dataBuf == emitted[old(|emitted|)] && dataLen == 0 && !timerActive
      ensures !emits ==> dataBuf == old(dataBuf)
    {
      if dataLen == 0 && socket.BytesAvailable() >= HEADER {
        var header := socket.Read(HEADER);
        assert old(socket.inbox)[..HEADER] == header && old(socket.inbox)[HEADER..] == socket.inbox;
        HeaderValue(header);
        dataLen := DecodeLE(header);
        if dataLen == 0 {
          frames := frames + [[]];
        }
      }
      ghost var rest := socket.inbox;
      if dataLen == 0 || socket.BytesAvailable() < AsInt64(dataLen) {
        return false;
      }
      var got := socket.Read(AsInt64(dataLen));
      if dataLen < I63 {
        assert got == rest[..dataLen] && socket.inbox == rest[dataLen..];
        frames := frames + [got];
      } else {
        assert got == [] && socket.inbox == rest;
        negative := negative + 1;
      }
      dataBuf := got;
      emitted := emitted + [dataBuf];
      dataLen := 0;
      timerActive := false;
      return true;
    }
  }

  /** m_totalRequests, shared by all workers of a server. */
  class Total {
    var value: nat

    constructor ()
      ensures value == 0
    {
      value := 0;
    }
  }

  /** The part both kinds of server share: a socket, the decoder's fields, and `onRequest`. */
  class Worker {
    const socket: Socket
    const onRequest: Handler
    var dataLen: Length
    var dataBuf: Payload
    ghost var frames: seq<Payload>
    ghost var emitted: seq<Payload>
    ghost var negative: nat

    ghost function State(requestCount: nat): E.Worker
      reads this, socket
    {
      E.Worker(Decoder(dataLen, socket.inbox, socket.arrived, frames, emitted, negative),
               socket.outbox, requestCount)
    }

    constructor (onRequest: Handler)
      ensures State(0) == E.NEW_WORKER && fresh(socket) && this.onRequest == onRequest
    {
      socket := new Socket();
      this.onRequest := onRequest;
      dataLen, dataBuf := 0, [];
      frames, emitted, negative := [], [], 0;
    }

    /** The decoding half: returns whether a request is now in the buffer. */
    method ReceiveRequest() returns (emits: bool)
      modifies this, socket`inbox
      ensures State(0) == old(State(0)).(d := ReadyRead(old(State(0)).d))
      ensures emits == E.CallsOnRequest(old(State(0)).d)
      ensures emits ==> dataBuf == emitted[old(|emitted|)] && dataLen == 0
    {
      if dataLen == 0 && socket.BytesAvailable() >= HEADER {
        var header := socket.Read(HEADER);
        assert old(socket.inbox)[..HEADER] == header && old(socket.inbox)[HEADER..] == socket.inbox;
        HeaderValue(header);
        dataLen := DecodeLE(header);
        if dataLen == 0 {
          frames := frames + [[]];
        }
      }
      ghost var rest := socket.inbox;
      if dataLen == 0 || socket.BytesAvailable() < AsInt64(dataLen) {
        return false;
      }
      var got := socket.Read(AsInt64(dataLen));
      if dataLen < I63 {
        assert got == rest[..dataLen] && socket.inbox == rest[dataLen..];
        frames := frames + [got];
      } else {
        assert got == [] && socket.inbox == rest;
        negative := negative + 1;
      }
      dataBuf := got;
      emitted := emitted + [dataBuf];
      dataLen := 0;
      return true;
    }

    /** The answering half. As in the client, a failed write leaves a length behind. */
    method SendResponse(lenFails: bool, dataFails: bool)
      requires dataLen == 0
      modifies this`dataLen, this`dataBuf, socket`outbox
      ensures dataBuf == onRequest(old(dataBuf))
      ensures !lenFails && !dataFails ==> dataLen == 0 && socket.outbox == old(socket.outbox) + Frame(dataBuf)
      ensures lenFails || dataFails ==> dataLen == |dataBuf|
      ensures lenFails ==> socket.outbox == old(socket.outbox)
      ensures !lenFails && dataFails ==> socket.outbox == old(socket.outbox) + Header(|dataBuf|)
    {
      dataBuf := onRequest(dataBuf);
      dataLen := |dataBuf|;
      var n := socket.Write(Header(dataLen), lenFails);
      if n == -1 {
        return;
      }
      n := socket.Write(dataBuf, dataFails);
      if n == -1 {
        return;
      }
      assert socket.outbox == old(socket.outbox) + Frame(dataBuf);
      dataLen := 0;
    }

    /** Both halves in one call, as in the pool's `onReadyRead`; the writes can only fail if there is a
        request to answer. */
    method OnReadyRead(lenFails: bool, dataFails: bool) returns (handled: bool)
      modifies this, socket`inbox, socket`outbox
      ensures handled == E.CallsOnRequest(old(State(0)).d)
      ensures handled && (lenFails || dataFails) ==> State(1) == E.ServeFails(onRequest, old(State(0)), !lenFails)
      ensures !(handled && (lenFails || dataFails)) ==> State(0) == E.Serve(onRequest, old(State(0)))
    {
      handled := ReceiveRequest();
      if handled {
        SendResponse(lenFails, dataFails);
        assert lenFails || !dataFails || socket.outbox == old(socket.outbox) + Header(|dataBuf|);
        assert lenFails ==> socket.outbox + [] == socket.outbox;
      }
    }

    /** A pool worker's life: nothing if the socket cannot be set up, otherwise one `readyRead` for
        every chunk until the loop is told to quit, then its count goes into the total. Any write may
        fail; what is on the wire is then still the beginning of the replies' frames. */
    method RunInPool(socketOk: bool, arrivals: seq<E.Arrival>, total: Total)
      requires State(0) == E.NEW_WORKER
      modifies this, socket, total
      ensures !socketOk ==> total.value == old(total.value) && State(0) == E.NEW_WORKER
      ensures socketOk ==>
                && State(|arrivals|) == E.PoolLife(onRequest, arrivals)
                && total.value == old(total.value) + |arrivals|
                && |emitted| <= |arrivals|
      ensures socketOk && E.StaysDown(arrivals) ==> socket.outbox <= Frames(Replies(onRequest, emitted))
      ensures socketOk && E.NoneFails(arrivals) ==> socket.outbox == Frames(Replies(onRequest, emitted))
    {
      if !socketOk {
        return;
      }
      var requestCount := 0;
      for i := 0 to |arrivals|
        invariant requestCount == i && total.value == old(total.value)
        invariant State(requestCount) == E.PoolLife(onRequest, arrivals[..i])
      {
        assert arrivals[..i + 1][..i] == arrivals[..i] && arrivals[..i + 1][i] == arrivals[i];
        socket.Receive(arrivals[i].chunk);
        var handled := OnReadyRead(arrivals[i].lenFails, arrivals[i].dataFails);
        requestCount := requestCount + 1;
      }
      assert arrivals[..|arrivals|] == arrivals;
      LifeFacts(onRequest, arrivals);
      total.value := total.value + requestCount;
    }

    /** A thread's life: it counts the requests it handles, whether or not the responses get out. */
    method RunInThread(arrivals: seq<E.Arrival>, total: Total)
      requires State(0) == E.NEW_WORKER
      modifies this, socket, total
      ensures total.value == old(total.value) + |emitted|
      ensures State(|emitted|) == E.ThreadLife(onRequest, arrivals)
      ensures E.StaysDown(arrivals) ==> socket.outbox <= Frames(Replies(onRequest, emitted))
      ensures E.NoneFails(arrivals) ==> socket.outbox == Frames(Replies(onRequest, emitted))
    {
      var requestCount := 0;
      for i := 0 to |arrivals|
        invariant total.value == old(total.value)
        invariant State(requestCount) == E.ThreadLife(onRequest, arrivals[..i])
      {
        assert arrivals[..i + 1][..i] == arrivals[..i] && arrivals[..i + 1][i] == arrivals[i];
        socket.Receive(arrivals[i].chunk);
        var handled := OnReadyRead(arrivals[i].lenFails, arrivals[i].dataFails);
        if handled {
          requestCount := requestCount + 1;
        }
      }
      assert arrivals[..|arrivals|] == arrivals;
      LifeFacts(onRequest, arrivals);
      total.value := total.value + requestCount;
    }
  }

  lemma LifeFacts(h: Handler, arrivals: seq<E.Arrival>)
    ensures var p, t := E.PoolLife(h, arrivals), E.ThreadLife(h, arrivals);
            && p.d == t.d && p.outbox == t.outbox && t.requestCount == |t.d.emitted|
            && |p.d.emitted| <= p.requestCount == |arrivals|
            && (E.StaysDown(arrivals) ==> p.outbox <= Frames(Replies(h, p.d.emitted)))
            && (E.NoneFails(arrivals) ==> p.outbox == Frames(Replies(h, p.d.emitted)))
  {
    hide E.PoolLife, E.ThreadLife, E.StaysDown, E.NoneFails, Frames;
    E.LivesAgree(h, arrivals);
    if E.StaysDown(arrivals) {
      E.LifeWithinReplies(h, arrivals);
    }
    if E.NoneFails(arrivals) {
      E.NoneFailsIsLoop(h, arrivals);
    }
  }
}
