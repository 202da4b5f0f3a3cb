/** One session of the Asio server: receive length, receive data, let `onRequest` turn the request in
    the buffer into a response, send length, send data, count, and start over. */
module AsioSession {
  import opened Framing
  import opened AsioEndpoint

  datatype SessionState = SessionState(
    ep: Endpoint,
    requestCount: nat,        // m_requestCount
    handled: seq<Payload>     // every request m_onRequest was called with
  )

  const FRESH := SessionState(New(LIMIT), 0, [])

  /* ---- member functions, as state transformers ---- */

  function InitiateReceiveRequest(s: SessionState): SessionState {
    s.(ep := StartReadLen(s.ep))
  }

  function OnLenReceived(s: SessionState): SessionState {
    s.(ep := StartReadData(s.ep))
  }

  function InitiateSendResponse(s: SessionState): SessionState {
    s.(ep := StartWriteLen(s.ep))
  }

  function OnDataReceived(h: Handler, s: SessionState): SessionState
    requires |s.ep.dataBuf| < U64
  {
    InitiateSendResponse(s.(ep := s.ep.(dataBuf := h(s.ep.dataBuf)), handled := s.handled + [s.ep.dataBuf]))
  }

  function OnLenSent(s: SessionState): SessionState {
    s.(ep := StartWriteData(s.ep))
  }

  function OnDataSent(s: SessionState): SessionState {
    InitiateReceiveRequest(s.(requestCount := s.requestCount + 1))
  }

  /** A failed check ends the session; the server takes over its count and erases it. */
  function Disconnect(s: SessionState): SessionState {
    s.(ep := s.ep.(phase := Failed))
  }

  function ReadLenCompleted(s: SessionState, ec: bool): SessionState {
    if CheckOperation(ec, s.ep.done, HEADER) then OnLenReceived(s) else Disconnect(s)
  }

  function ReadDataCompleted(h: Handler, s: SessionState, ec: bool): SessionState
    requires |s.ep.dataBuf| < U64
  {
    if CheckOperation(ec, s.ep.done, s.ep.Length()) then OnDataReceived(h, s) else Disconnect(s)
  }

  function WriteLenCompleted(s: SessionState, ec: bool): SessionState {
    if CheckOperation(ec, s.ep.done, HEADER) then OnLenSent(s) else Disconnect(s)
  }

  function WriteDataCompleted(s: SessionState, ec: bool): SessionState
    requires s.ep.done <= |s.ep.dataBuf|
  {
    var s := s.(ep := Consume(s.ep));
    if CheckOperation(ec, s.ep.done, s.ep.Length()) then OnDataSent(s) else Disconnect(s)
  }

  function Completed(h: Handler, s: SessionState, ec: bool): SessionState
    requires s.ep.Valid() && s.ep.Busy()
  {
    var s := s.(ep := s.ep.(completions := s.ep.completions + 1));
    match s.ep.phase
    case RecvLen => ReadLenCompleted(s, ec)
    case RecvData => ReadDataCompleted(h, s, ec)
    case SendLen => WriteLenCompleted(s, ec)
    case SendData => WriteDataCompleted(s, ec)
  }

  /* ---- the invariant of a session ---- */

  function Stage(p: Phase): nat {
    match p
    case RecvData => 1
    case SendLen => 2
    case SendData => 3
    case _ => 0
  }

  predicate Replying(s: SessionState) { s.ep.phase.SendLen? || s.ep.phase.SendData? }

  /** Whatever bytes a peer sends: the session has taken whole frames plus the one under way, has
      answered each exactly once, in order, with what the handler made of it, and has counted every
      answer whose write completed. No request above the buffer limit was ever handled. */
  ghost predicate Inv(h: Handler, s: SessionState) {
    && Streams(s.ep, Replies(h, s.handled), s.handled)
    && s.ep.maxSize == LIMIT
    && (forall p :: p in s.handled ==> |p| <= LIMIT)
    && (Replying(s) ==> s.handled != [])
    && (s.ep.phase.Idle? ==> s.handled == [])
    && (s.ep.phase.Failed? ==> |s.handled| <= s.requestCount + 1 <= |s.handled| + 1)
    && (!s.ep.phase.Failed? ==>
          && |s.handled| == s.requestCount + (if Replying(s) then 1 else 0)
          && s.ep.completions == 4 * s.requestCount + Stage(s.ep.phase))
  }

  lemma FreshKeepsInv(h: Handler)
    ensures Inv(h, FRESH)
  {
    assert Replies(h, []) == [];
    IdleStreams(FRESH.ep, [], []);
  }

  /** `initiateCommunication` on an accepted connection. */
  lemma BeginKeepsInv(h: Handler, s: SessionState)
    requires Inv(h, s) && s.ep.phase.Idle?
    ensures Inv(h, InitiateReceiveRequest(s))
  {
    assert s.ep.sent + [] == s.ep.sent && s.ep.received + [] == s.ep.received;
    assert Frames(s.handled) + [] == Frames(s.handled);
    ReadStarts(s.ep, Replies(h, s.handled), s.handled);
  }

  lemma PutKeepsInv(h: Handler, s: SessionState, n: nat)
    requires Inv(h, s) && 0 < n <= |s.ep.Unsent()|
    ensures Inv(h, s.(ep := Put(s.ep, n)))
  {
    hide Frames, Replies, Header;
    PutKeepsStreams(s.ep, n, Replies(h, s.handled), s.handled);
  }

  lemma TakeKeepsInv(h: Handler, s: SessionState, chunk: Bytes)
    requires Inv(h, s) && 0 < |chunk| <= s.ep.Room()
    ensures Inv(h, s.(ep := Take(s.ep, chunk)))
  {
    hide Frames, Replies, Header;
    TakeKeepsStreams(s.ep, chunk, Replies(h, s.handled), s.handled);
  }

  lemma ReadLenKeepsInv(h: Handler, s: SessionState)
    requires Inv(h, s) && s.ep.Settled() && s.ep.phase.RecvLen?
    ensures Inv(h, Completed(h, s, false)) && !Completed(h, s, false).ep.phase.Failed?
  {
    hide Frames, Replies, Header;
    LenReceived(s.ep.(completions := s.ep.completions + 1), Replies(h, s.handled), s.handled);
  }

  /** A request that arrived whole is handled exactly when it fits the buffer; otherwise the session
      ends, and the handler never sees it. */
  lemma ReadDataCheck(h: Handler, s: SessionState)
    requires Inv(h, s) && s.ep.Settled() && s.ep.phase.RecvData?
    ensures |s.ep.dataBuf| < U64
    ensures Completed(h, s, false).ep.phase.Failed? <==> s.ep.Length() > LIMIT
    ensures s.ep.Length() <= LIMIT ==> |s.ep.dataBuf| == s.ep.Length() == s.ep.done
    ensures Completed(h, s, false).handled == if s.ep.Length() <= LIMIT then s.handled + [s.ep.dataBuf] else s.handled
  {
    ShortReadIff(s.ep, Replies(h, s.handled), s.handled);
  }

  lemma ReadDataKeepsInv(h: Handler, s: SessionState)
    requires Inv(h, s) && s.ep.Settled() && s.ep.phase.RecvData? && s.ep.Length() <= LIMIT
    ensures Inv(h, Completed(h, s, false))
  {
    hide Frames, Replies, Header;
    ReadDataCheck(h, s);
    var e := s.ep.(completions := s.ep.completions + 1);
    RepliesSnoc(h, s.handled, e.dataBuf);
    ReplyStarts(e, h(e.dataBuf), Replies(h, s.handled), s.handled);
  }

  lemma ShortReadKeepsInv(h: Handler, s: SessionState)
    requires Inv(h, s) && s.ep.Settled() && s.ep.phase.RecvData? && s.ep.Length() > LIMIT
    ensures Inv(h, Completed(h, s, false))
  {
    hide Frames, Replies, Header;
    ReadDataCheck(h, s);
    FailureKeepsPrefixes(s.ep, Completed(h, s, false).ep, Replies(h, s.handled), s.handled);
  }

  lemma WriteLenKeepsInv(h: Handler, s: SessionState)
    requires Inv(h, s) && s.ep.Settled() && s.ep.phase.SendLen?
    ensures Inv(h, Completed(h, s, false)) && !Completed(h, s, false).ep.phase.Failed?
  {
    hide Frames, Replies, Header;
    LenSent(s.ep.(completions := s.ep.completions + 1), Replies(h, s.handled), s.handled);
  }

  lemma WriteDataKeepsInv(h: Handler, s: SessionState)
    requires Inv(h, s) && s.ep.Settled() && s.ep.phase.SendData?
    ensures Inv(h, Completed(h, s, false)) && !Completed(h, s, false).ep.phase.Failed?
    ensures Completed(h, s, false).requestCount == s.requestCount + 1
  {
    hide Frames, Replies, Header;
    var e := s.ep.(completions := s.ep.completions + 1);
    DataSent(e, Replies(h, s.handled), s.handled);
  }

  lemma CompletionCounts(h: Handler, s: SessionState, ec: bool)
    requires s.ep.Valid() && s.ep.Busy()
    ensures Completed(h, s, ec).ep.completions == s.ep.completions + 1
  {
  }

  /** Completion handlers move no bytes. */
  lemma CompletionMovesNothing(h: Handler, s: SessionState, ec: bool)
    requires s.ep.Valid() && s.ep.Busy()
    ensures Completed(h, s, ec).ep.sent == s.ep.sent && Completed(h, s, ec).ep.received == s.ep.received
  {
  }

  lemma ErrorEnds(h: Handler, s: SessionState)
    requires s.ep.Valid() && s.ep.Busy()
    ensures Completed(h, s, true).ep.phase.Failed?
  {
  }

  lemma ErrorKeepsInv(h: Handler, s: SessionState)
    requires Inv(h, s) && s.ep.Busy()
    ensures Inv(h, Completed(h, s, true)) && Completed(h, s, true).ep.phase.Failed?
  {
    hide Frames, Replies, Header;
    FailureKeepsPrefixes(s.ep, Completed(h, s, true).ep, Replies(h, s.handled), s.handled);
  }

  lemma CompletedKeepsInv(h: Handler, s: SessionState, ec: bool)
    requires Inv(h, s) && s.ep.Busy() && (ec || s.ep.Settled())
    ensures Inv(h, Completed(h, s, ec))
    ensures Completed(h, s, ec).ep.phase.Failed? <==> ec || (s.ep.phase.RecvData? && s.ep.Length() > LIMIT)
  {
    if ec {
      ErrorKeepsInv(h, s);
    } else {
      match s.ep.phase {
        case RecvLen => ReadLenKeepsInv(h, s);
        case RecvData =>
          ReadDataCheck(h, s);
          if s.ep.Length() <= LIMIT { ReadDataKeepsInv(h, s); } else { ShortReadKeepsInv(h, s); }
        case SendLen => WriteLenKeepsInv(h, s);
        case SendData => WriteDataKeepsInv(h, s);
      }
    }
  }
}
