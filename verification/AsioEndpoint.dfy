/** What both Asio programs share: one `m_dataLen`, one `m_dataBuf`, and at most one composed
    operation, whose bytes move in chunks of the network's choosing.

    `m_lenBuf` is a view of the memory of `m_dataLen`, so a length write reads that memory while it is
    under way and a length read overwrites it piece by piece; `dataLen` is therefore eight bytes, not
    a number. A write of `m_dataBuf` leaves the buffer alone until it completes and then consumes what
    was written; a read into it appends every chunk as it comes. */
module AsioEndpoint {
  import opened Framing

  datatype Phase = Idle | SendLen | SendData | RecvLen | RecvData | Failed

  datatype Endpoint = Endpoint(
    phase: Phase,
    dataLen: Bytes,     // the memory of m_dataLen
    dataBuf: Bytes,     // m_dataBuf
    maxSize: nat,       // m_dataBuf.max_size()
    want: nat,          // bytes the composed operation was started for
    done: nat,          // bytes_transferred so far
    sent: Bytes,        // every byte this side ever put on the wire
    received: Bytes,    // every byte this side ever took off the wire
    completions: nat    // completion handlers run so far
  ) {
    predicate Busy() { phase.SendLen? || phase.SendData? || phase.RecvLen? || phase.RecvData? }

    predicate Valid() {
      && |dataLen| == HEADER
      && |dataBuf| <= maxSize < U64
      && done <= want
      && (phase.SendLen? || phase.RecvLen? ==> want == HEADER)
      && (phase.SendData? ==> want == |dataBuf|)
    }

    /** What `m_dataLen` reads as. */
    function Length(): nat { DecodeLE(dataLen) }

    /** The bytes a write operation still has to put on the wire. */
    function Unsent(): Bytes
      requires Valid()
    {
      match phase
      case SendLen => dataLen[done..]
      case SendData => dataBuf[done..]
      case _ => []
    }

    /** How many more bytes a read operation accepts: `transfer_exactly` and the buffer's limit. */
    function Room(): nat
      requires Valid()
    {
      match phase
      case RecvLen => want - done
      case RecvData => if want - done <= maxSize - |dataBuf| then want - done else maxSize - |dataBuf|
      case _ => 0
    }

    /** The composed operation has nothing left to do; only its handler is outstanding. */
    predicate Settled()
      requires Valid()
    {
      Busy() && Unsent() == [] && Room() == 0
    }
  }

  function New(maxSize: nat): Endpoint {
    Endpoint(Idle, ZERO, [], maxSize, 0, 0, [], [], 0)
  }

  /** One partial write of `n` bytes. */
  function Put(e: Endpoint, n: nat): Endpoint
    requires e.Valid() && n <= |e.Unsent()|
  {
    e.(done := e.done + n, sent := e.sent + e.Unsent()[..n])
  }

  /** One partial read that brings `chunk`. */
  function Take(e: Endpoint, chunk: Bytes): Endpoint
    requires e.Valid() && 0 < |chunk| <= e.Room()
  {
    var e' := e.(done := e.done + |chunk|, received := e.received + chunk);
    if e.phase.RecvLen?
    then e'.(dataLen := e.dataLen[..e.done] + chunk + e.dataLen[e.done + |chunk|..])
    else e'.(dataBuf := e.dataBuf + chunk)
  }

  function StartWriteLen(e: Endpoint): Endpoint {
    e.(phase := SendLen, dataLen := Header(|e.dataBuf|), want := HEADER, done := 0)
  }

  function StartWriteData(e: Endpoint): Endpoint {
    e.(phase := SendData, want := |e.dataBuf|, done := 0)
  }

  function StartReadLen(e: Endpoint): Endpoint {
    e.(phase := RecvLen, dataLen := ZERO, want := HEADER, done := 0)
  }

  function StartReadData(e: Endpoint): Endpoint {
    e.(phase := RecvData, want := e.Length(), done := 0)
  }

  /** A write of a stream buffer consumes what was written just before its handler runs. */
  function Consume(e: Endpoint): Endpoint
    requires e.done <= |e.dataBuf|
  {
    e.(dataBuf := e.dataBuf[e.done..])
  }

  predicate CheckOperation(ec: bool, bytesTransferred: nat, expectedLength: nat) {
    !ec && bytesTransferred == expectedLength
  }

  /* ---- the stream invariant ---- */

  /** The rest of the message being sent, header included. */
  function ToSend(e: Endpoint): Bytes
    requires e.Valid()
  {
    if e.phase.SendLen? then e.dataLen[e.done..] + e.dataBuf else e.Unsent()
  }

  /** What has arrived of the message being received, header included. */
  function Partial(e: Endpoint): Bytes
    requires e.Valid()
  {
    match e.phase
    case RecvLen => e.dataLen[..e.done]
    case RecvData => e.dataLen + e.dataBuf
    case _ => []
  }

  /** One buffer and one length serve both directions without mixing them up; what has not been read of
      a length is zero. */
  ghost predicate Buffers(e: Endpoint)
    requires e.Valid()
  {
    match e.phase
    case Idle => e.dataBuf == []
    case SendLen => e.Length() == |e.dataBuf|
    case SendData => e.Length() == |e.dataBuf|
    case RecvLen => e.dataBuf == [] && e.dataLen[e.done..] == ZERO[e.done..]
    case RecvData => e.want == e.Length() && e.done == |e.dataBuf|
    case Failed => true
  }

  /** Sent plus still-to-send is exactly the frames of `out`; received is exactly the frames of `got`
      plus the message under way. After a failure only the prefixes remain. */
  ghost predicate Streams(e: Endpoint, out: seq<Payload>, got: seq<Payload>) {
    && e.Valid()
    && Buffers(e)
    && if e.phase.Failed? then e.sent <= Frames(out) && Frames(got) <= e.received
       else e.sent + ToSend(e) == Frames(out) && e.received == Frames(got) + Partial(e)
  }

  lemma Slide(sent: Bytes, u: Bytes, n: nat, rest: Bytes)
    requires n <= |u|
    ensures (sent + u[..n]) + (u[n..] + rest) == sent + (u + rest)
    ensures u[n..] + rest == (u + rest)[n..]
  {
    assert u == u[..n] + u[n..];
  }

  /** A partial write moves bytes from "to send" to "sent" and changes nothing else. */
  lemma PutMoves(e: Endpoint, n: nat)
    requires e.Valid() && 0 < n <= |e.Unsent()|
    ensures Put(e, n).Valid()
    ensures ToSend(Put(e, n)) == ToSend(e)[n..]
    ensures Put(e, n).sent + ToSend(Put(e, n)) == e.sent + ToSend(e)
  {
    var u := e.Unsent();
    assert Put(e, n).Unsent() == u[n..];
    Slide(e.sent, u, n, if e.phase.SendLen? then e.dataBuf else []);
    if e.phase.SendData? {
      assert u + [] == u && u[n..] + [] == u[n..];
    }
  }

  lemma PutKeepsStreams(e: Endpoint, n: nat, out: seq<Payload>, got: seq<Payload>)
    requires Streams(e, out, got) && 0 < n <= |e.Unsent()|
    ensures Streams(Put(e, n), out, got)
  {
    PutMoves(e, n);
  }

  /** A chunk of a length overwrites its part of the memory. */
  lemma LengthFills(dataLen: Bytes, done: nat, chunk: Bytes)
    requires |dataLen| == HEADER && done + |chunk| <= HEADER && dataLen[done..] == ZERO[done..]
    ensures var b := dataLen[..done] + chunk + dataLen[done + |chunk|..];
            && |b| == HEADER
            && b[..done + |chunk|] == dataLen[..done] + chunk
            && b[done + |chunk|..] == ZERO[done + |chunk|..]
  {
    assert dataLen[done + |chunk|..] == dataLen[done..][|chunk|..] == ZERO[done..][|chunk|..];
  }

  lemma TakeLength(e: Endpoint, chunk: Bytes)
    requires e.Valid() && Buffers(e) && e.phase.RecvLen? && 0 < |chunk| <= e.Room()
    ensures Take(e, chunk).Valid() && Buffers(Take(e, chunk))
    ensures Partial(Take(e, chunk)) == Partial(e) + chunk
  {
    hide DecodeLE;
    LengthFills(e.dataLen, e.done, chunk);
  }

  lemma TakeData(e: Endpoint, chunk: Bytes)
    requires e.Valid() && Buffers(e) && e.phase.RecvData? && 0 < |chunk| <= e.Room()
    ensures Take(e, chunk).Valid() && Buffers(Take(e, chunk))
    ensures Partial(Take(e, chunk)) == Partial(e) + chunk
  {
    hide DecodeLE;
    assert e.dataLen + (e.dataBuf + chunk) == (e.dataLen + e.dataBuf) + chunk;
  }

  lemma TakeKeepsStreams(e: Endpoint, chunk: Bytes, out: seq<Payload>, got: seq<Payload>)
    requires Streams(e, out, got) && 0 < |chunk| <= e.Room()
    ensures Streams(Take(e, chunk), out, got)
    ensures Partial(Take(e, chunk)) == Partial(e) + chunk
  {
    hide Frames, Partial, Buffers;
    if e.phase.RecvLen? {
      TakeLength(e, chunk);
    } else {
      TakeData(e, chunk);
    }
    Associates(Frames(got), Partial(e), chunk);
  }

  /** A message put in an idle buffer and announced extends what is to be sent by its frame. */
  lemma WriteStarts(e: Endpoint, out: seq<Payload>, got: seq<Payload>)
    requires |e.dataBuf| <= e.maxSize < U64
    requires e.sent == Frames(out) && e.received == Frames(got)
    ensures |e.dataBuf| < U64 && Streams(StartWriteLen(e), out + [e.dataBuf], got)
  {
    var e' := StartWriteLen(e);
    HeaderRoundTrip(|e.dataBuf|);
    FramesSnoc(out, e.dataBuf);
    assert e'.dataLen[0..] == e'.dataLen;
    assert e'.received == Frames(got) + [];
  }

  lemma LenSent(e: Endpoint, out: seq<Payload>, got: seq<Payload>)
    requires Streams(e, out, got) && e.phase.SendLen? && e.Settled()
    ensures Streams(StartWriteData(e), out, got)
  {
    assert ToSend(e) == e.dataBuf == ToSend(StartWriteData(e));
  }

  /** The length check after a data write compares against an `m_dataLen` nobody has touched; the
      buffer is empty again when the next read begins. */
  lemma DataSent(e: Endpoint, out: seq<Payload>, got: seq<Payload>)
    requires Streams(e, out, got) && e.phase.SendData? && e.Settled()
    ensures e.done == e.Length() && Consume(e).dataBuf == []
    ensures Streams(StartReadLen(Consume(e)), out, got)
  {
    assert e.sent + [] == e.sent;
    ReadStarts(Consume(e), out, got);
  }

  lemma ReadStarts(e: Endpoint, out: seq<Payload>, got: seq<Payload>)
    requires e.maxSize < U64 && e.dataBuf == []
    requires e.sent == Frames(out) && e.received == Frames(got)
    ensures Streams(StartReadLen(e), out, got)
  {
    assert StartReadLen(e).received == Frames(got) + [];
    assert e.sent + [] == e.sent;
  }

  lemma LenReceived(e: Endpoint, out: seq<Payload>, got: seq<Payload>)
    requires Streams(e, out, got) && e.phase.RecvLen? && e.Settled()
    ensures Streams(StartReadData(e), out, got)
  {
    assert e.dataLen[..HEADER] == e.dataLen;
    assert e.dataLen + [] == e.dataLen;
  }

  /** A data read that passes its check has taken exactly one more frame off the wire. */
  lemma DataReceived(e: Endpoint, out: seq<Payload>, got: seq<Payload>)
    requires Streams(e, out, got) && e.phase.RecvData? && e.done == e.Length()
    ensures |e.dataBuf| < U64 && e.received == Frames(got + [e.dataBuf])
    ensures e.sent == Frames(out)
  {
    HeaderValue(e.dataLen);
    FramesSnoc(got, e.dataBuf);
    assert e.received == Frames(got) + Frame(e.dataBuf);
    assert e.sent + [] == e.sent;
  }

  /** Replacing a request in the buffer by its reply and announcing it: one more frame received, one
      more frame to send. */
  lemma ReplyStarts(e: Endpoint, reply: Payload, out: seq<Payload>, got: seq<Payload>)
    requires Streams(e, out, got) && e.phase.RecvData? && e.done == e.Length() && |reply| <= e.maxSize
    ensures |e.dataBuf| < U64
    ensures Streams(StartWriteLen(e.(dataBuf := reply)), out + [reply], got + [e.dataBuf])
  {
    DataReceived(e, out, got);
    WriteStarts(e.(dataBuf := reply), out, got + [e.dataBuf]);
  }

  /** A data read that has nothing left to do fails its check exactly when the announced length does
      not fit the buffer. */
  lemma ShortReadIff(e: Endpoint, out: seq<Payload>, got: seq<Payload>)
    requires Streams(e, out, got) && e.phase.RecvData? && e.Settled()
    ensures CheckOperation(false, e.done, e.Length()) <==> e.Length() <= e.maxSize
  {
  }

  lemma IdleStreams(e: Endpoint, out: seq<Payload>, got: seq<Payload>)
    requires e.Valid() && e.phase.Idle? && e.dataBuf == []
    requires e.sent == Frames(out) && e.received == Frames(got)
    ensures Streams(e, out, got)
  {
    assert e.sent + [] == e.sent && e.received + [] == e.received;
  }

  /** A failure keeps what was sent and received. */
  lemma FailureKeepsPrefixes(e: Endpoint, e': Endpoint, out: seq<Payload>, got: seq<Payload>)
    requires Streams(e, out, got)
    requires e'.Valid() && e'.phase.Failed? && e'.sent == e.sent && e'.received == e.received
    ensures Streams(e', out, got)
  {
    if !e.phase.Failed? {
      assert e.sent <= e.sent + ToSend(e);
      assert Frames(got) <= Frames(got) + Partial(e);
    }
  }

  /** Both wire histories, in every phase and after failures. */
  lemma StreamPrefixes(e: Endpoint, out: seq<Payload>, got: seq<Payload>)
    requires Streams(e, out, got)
    ensures e.sent <= Frames(out) && Frames(got) <= e.received
  {
    if !e.phase.Failed? {
      assert e.sent <= e.sent + ToSend(e);
      assert Frames(got) <= Frames(got) + Partial(e);
    }
  }

  /** While a read still waits for bytes, what it has is not a complete frame: the receiver has
      delivered exactly what the batch parser finds in the bytes it took. */
  lemma WaitingMeansParsed(e: Endpoint, out: seq<Payload>, got: seq<Payload>)
    requires Streams(e, out, got) && (e.phase.RecvLen? || e.phase.RecvData?) && e.Room() > 0
    ensures Parse(e.received) == (got, Partial(e))
  {
    if e.phase.RecvData? {
      assert (e.dataLen + e.dataBuf)[..HEADER] == e.dataLen;
    }
    assert Incomplete(Partial(e));
    ParseUnique(got, Partial(e));
  }
}
