/** The Qt client and the Qt servers' workers as state transformers around the decoder. */
module QtEndpoints {
  import opened Framing
  import D = QtDecoder

  /* ---- client ---- */

  datatype ClientState = ClientState(
    d: D.Decoder,
    timerActive: bool,
    requests: seq<Payload>,
    sent: Bytes
  )

  /** `m_dataLen` serves as scratch space for the length sent and is zero afterwards. */
  function SendRequest(c: ClientState, p: Payload): ClientState {
    c.(timerActive := true, d := c.d.(dataLen := 0), requests := c.requests + [p], sent := c.sent + Frame(p))
  }

  /** A write that fails returns early, before or after the header, and leaves the length behind. */
  function SendFails(c: ClientState, p: Payload, headerOut: bool): ClientState {
    c.(timerActive := true, d := c.d.(dataLen := |p|), requests := c.requests + [p],
       sent := c.sent + if headerOut then Header(|p|) else [])
  }

  function ReceiveResponse(c: ClientState): ClientState {
    var d := D.ReadyRead(c.d);
    c.(d := d, timerActive := c.timerActive && |d.emitted| == |c.d.emitted|)
  }

  ghost predicate ClientInv(c: ClientState) {
    D.Inv(c.d) && c.sent == Frames(c.requests)
  }

  /** Sending while the length of a response is pending forgets that length, and whatever the decoder
      holds, some later arrivals bring out the difference: what the client goes on to receive is
      unchanged for every future if and only if no length was pending. */
  lemma SendKeepsDecoderIff(c: ClientState, p: Payload)
    requires c.d.dataLen < U64
    ensures c.d.dataLen == 0 <==>
            forall evs :: D.Run(SendRequest(c, p).d, evs).emitted == D.Run(c.d, evs).emitted
  {
    var d' := SendRequest(c, p).d;
    if c.d.dataLen == 0 {
      assert d' == c.d;
    } else {
      var evs := D.ForgottenHeaderShows(c.d);
      assert D.Run(d', evs).emitted != D.Run(c.d, evs).emitted;
    }
  }

  /** It happens: a request typed in while a response of one byte is half way loses that response. */
  lemma SendLosesResponse(p: Payload)
    ensures var c := ClientState(D.Run(D.FRESH, [D.Arrives(Header(1)), D.Signal]), true, [], []);
            var d := D.Run(SendRequest(c, p).d, [D.Arrives([7]), D.Signal]);
            && d.emitted == [] && D.SmallHeaders(d.arrived) && D.NonEmpty(Parse(d.arrived).0) == [[7]]
  {
    hide D.ReadyRead, Parse;
    var before, after: seq<D.Event> := [D.Arrives(Header(1)), D.Signal], [D.Arrives([7]), D.Signal];
    var c := ClientState(D.Run(D.FRESH, before), true, [], []);
    D.RunAfter(D.FRESH, Header(1), []);
    assert before + [] == before && after + [] == after;
    D.RunAfter(SendRequest(c, p).d, [7], []);
    HeaderThenNothing(p);
    OneByteFrame();
  }

  lemma HeaderThenNothing(p: Payload)
    ensures var d := D.After(D.FRESH, Header(1));
            var d' := D.After(d.(dataLen := 0), [7]);
            d'.emitted == [] && d'.arrived == Header(1) + [7]
  {
    hide Digit, DecodeLE;
    HeaderRoundTrip(1);
    var b := Header(1);
    assert [] + b == b && b[..HEADER] == b && b[HEADER..] == [];
    assert [] + [7] == [7 as Byte];
  }

  lemma OneByteFrame()
    ensures var b := Header(1) + [7];
            Parse(b).0 == [[7]] && D.SmallHeaders(b) && D.NonEmpty(Parse(b).0) == [[7]]
  {
    hide Header, Parse, D.SmallHeaders;
    var p: Payload := [7];
    assert [p] == [] + [p];
    FramesSnoc([], p);
    ParseUnique([p], []);
    assert Frames([p]) == Frames([p]) + [] == Header(1) + [7];
    D.NonEmptyHasNoEmpty([p]);
    D.SmallFramesHaveSmallHeaders([p]);
  }

  lemma ReceiveKeepsClientInv(c: ClientState)
    requires ClientInv(c)
    ensures ClientInv(ReceiveResponse(c))
  {
    D.ReadyReadKeepsInv(c.d);
  }

  lemma ArriveKeepsClientInv(c: ClientState, chunk: Bytes)
    requires ClientInv(c)
    ensures ClientInv(c.(d := D.Arrive(c.d, chunk)))
  {
    D.ArriveKeepsInv(c.d, chunk);
  }

  /* ---- workers ---- */

  datatype Worker = Worker(
    d: D.Decoder,
    outbox: Bytes,        // everything written to the socket
    requestCount: nat
  )

  const NEW_WORKER := Worker(D.FRESH, [], 0)

  /** Whether a `readyRead` leads to a call of `onRequest`. */
  predicate CallsOnRequest(d: D.Decoder) { |D.ReadyRead(d).emitted| > |d.emitted| }

  /** Decode, and answer if a request came out. */
  function Serve(h: Handler, w: Worker): Worker {
    var d := D.ReadyRead(w.d);
    w.(d := d, outbox := if CallsOnRequest(w.d) then w.outbox + Frame(h(d.emitted[|w.d.emitted|])) else w.outbox)
  }

  /** The same when a write of the response fails: the request has been handled all the same. */
  function ServeFails(h: Handler, w: Worker, headerOut: bool): Worker
    requires CallsOnRequest(w.d)
  {
    var d := D.ReadyRead(w.d);
    var reply := h(d.emitted[|w.d.emitted|]);
    w.(d := d.(dataLen := |reply|), outbox := w.outbox + (if headerOut then Header(|reply|) else []),
       requestCount := w.requestCount + 1)
  }

  /** The pool counts every `readyRead`. */
  function PoolReadyRead(h: Handler, w: Worker): Worker {
    Serve(h, w).(requestCount := w.requestCount + 1)
  }

  /** The threaded server counts every response it sends. */
  function ThreadReadyRead(h: Handler, w: Worker): Worker {
    Serve(h, w).(requestCount := w.requestCount + if CallsOnRequest(w.d) then 1 else 0)
  }

  function Deliver(w: Worker, chunk: Bytes): Worker {
    w.(d := D.Arrive(w.d, chunk))
  }

  /** Each request that came out has been answered exactly once, in order. */
  ghost predicate WorkerInv(h: Handler, w: Worker) {
    D.Inv(w.d) && w.outbox == Frames(Replies(h, w.d.emitted))
  }

  lemma NewWorkerInv(h: Handler)
    ensures WorkerInv(h, NEW_WORKER)
  {
    D.FreshInv();
    assert Replies(h, []) == [];
  }

  /** A `readyRead` emits at most one payload. */
  lemma AtMostOneRequest(d: D.Decoder)
    ensures D.ReadyRead(d).emitted ==
            d.emitted + (if CallsOnRequest(d) then [D.ReadyRead(d).emitted[|d.emitted|]] else [])
  {
  }

  lemma ServeKeepsInv(h: Handler, w: Worker)
    requires WorkerInv(h, w)
    ensures WorkerInv(h, Serve(h, w))
  {
    hide D.ReadyRead, D.Inv, Frame;
    D.ReadyReadKeepsInv(w.d);
    AtMostOneRequest(w.d);
    if CallsOnRequest(w.d) {
      var p := D.ReadyRead(w.d).emitted[|w.d.emitted|];
      RepliesSnoc(h, w.d.emitted, p);
      FramesSnoc(Replies(h, w.d.emitted), h(p));
      assert Serve(h, w).d.emitted == w.d.emitted + [p];
    } else {
      assert w.d.emitted + [] == w.d.emitted;
    }
  }

  lemma DeliverKeepsInv(h: Handler, w: Worker, chunk: Bytes)
    requires WorkerInv(h, w)
    ensures WorkerInv(h, Deliver(w, chunk))
  {
    D.ArriveKeepsInv(w.d, chunk);
  }

  /* ---- a worker's event loop ---- */

  /** The loop of a worker that gets these chunks, one `readyRead` each, before it is told to quit. */
  function PoolLoop(h: Handler, w: Worker, chunks: seq<Bytes>): Worker {
    if chunks == [] then w
    else PoolReadyRead(h, Deliver(PoolLoop(h, w, chunks[..|chunks| - 1]), chunks[|chunks| - 1]))
  }

  function ThreadLoop(h: Handler, w: Worker, chunks: seq<Bytes>): Worker {
    if chunks == [] then w
    else ThreadReadyRead(h, Deliver(ThreadLoop(h, w, chunks[..|chunks| - 1]), chunks[|chunks| - 1]))
  }

  /** The pool's count is the number of `readyRead` events, at least the number of requests handled;
      the threaded server's count is exact. Both handle the same requests and send the same bytes. */
  lemma {:induction false} LoopCounts(h: Handler, chunks: seq<Bytes>)
    ensures var p, t := PoolLoop(h, NEW_WORKER, chunks), ThreadLoop(h, NEW_WORKER, chunks);
            && WorkerInv(h, p)
            && p.d == t.d && p.outbox == t.outbox
            && t.requestCount == |t.d.emitted|
            && |p.d.emitted| <= p.requestCount == |chunks|
  {
    hide D.ReadyRead, D.Inv, WorkerInv;
    if chunks == [] {
      NewWorkerInv(h);
    } else {
      var front := chunks[..|chunks| - 1];
      LoopCounts(h, front);
      var w := Deliver(PoolLoop(h, NEW_WORKER, front), chunks[|chunks| - 1]);
      DeliverKeepsInv(h, PoolLoop(h, NEW_WORKER, front), chunks[|chunks| - 1]);
      ServeKeepsInv(h, w);
      CountIsNotState(h, w);
      AtMostOneRequest(w.d);
    }
  }

  lemma CountIsNotState(h: Handler, w: Worker)
    ensures WorkerInv(h, PoolReadyRead(h, w)) <==> WorkerInv(h, Serve(h, w))
  {
  }

  lemma EmptyLoop(h: Handler)
    ensures PoolLoop(h, NEW_WORKER, []) == NEW_WORKER
  {
  }

  /* ---- a worker's life, with writes that fail ---- */

  /** A chunk, and which of the two writes fails if the chunk leads to a response. */
  datatype Arrival = Arrival(chunk: Bytes, lenFails: bool, dataFails: bool) {
    predicate Fails() { lenFails || dataFails }
  }

  function PoolServes(h: Handler, w: Worker, a: Arrival): Worker {
    var w := Deliver(w, a.chunk);
    if a.Fails() && CallsOnRequest(w.d) then ServeFails(h, w, !a.lenFails) else PoolReadyRead(h, w)
  }

  function ThreadServes(h: Handler, w: Worker, a: Arrival): Worker {
    var w := Deliver(w, a.chunk);
    if a.Fails() && CallsOnRequest(w.d) then ServeFails(h, w, !a.lenFails) else ThreadReadyRead(h, w)
  }

  function PoolLife(h: Handler, arrivals: seq<Arrival>): Worker {
    if arrivals == [] then NEW_WORKER
    else PoolServes(h, PoolLife(h, arrivals[..|arrivals| - 1]), arrivals[|arrivals| - 1])
  }

  function ThreadLife(h: Handler, arrivals: seq<Arrival>): Worker {
    if arrivals == [] then NEW_WORKER
    else ThreadServes(h, ThreadLife(h, arrivals[..|arrivals| - 1]), arrivals[|arrivals| - 1])
  }

  function Chunks(arrivals: seq<Arrival>): seq<Bytes> {
    if arrivals == [] then [] else Chunks(arrivals[..|arrivals| - 1]) + [arrivals[|arrivals| - 1].chunk]
  }

  /** A write fails only on a socket that is going away, so no later one succeeds. */
  ghost predicate StaysDown(arrivals: seq<Arrival>) {
    forall i, j :: 0 <= i < j < |arrivals| && arrivals[i].Fails() ==> arrivals[j].lenFails
  }

  ghost predicate NoneFails(arrivals: seq<Arrival>) {
    forall i :: 0 <= i < |arrivals| ==> !arrivals[i].Fails()
  }

  /** The two kinds of worker differ in nothing but what they count. */
  lemma {:induction false} LivesAgree(h: Handler, arrivals: seq<Arrival>)
    ensures var p, t := PoolLife(h, arrivals), ThreadLife(h, arrivals);
            && p.d == t.d && p.outbox == t.outbox
            && t.requestCount == |t.d.emitted|
            && |p.d.emitted| <= p.requestCount == |arrivals|
  {
    hide D.ReadyRead;
    if arrivals != [] {
      var n := |arrivals| - 1;
      LivesAgree(h, arrivals[..n]);
      AtMostOneRequest(Deliver(PoolLife(h, arrivals[..n]), arrivals[n].chunk).d);
    }
  }

  lemma {:induction false} NoneFailsIsLoop(h: Handler, arrivals: seq<Arrival>)
    requires NoneFails(arrivals)
    ensures PoolLife(h, arrivals) == PoolLoop(h, NEW_WORKER, Chunks(arrivals))
    ensures ThreadLife(h, arrivals) == ThreadLoop(h, NEW_WORKER, Chunks(arrivals))
    ensures WorkerInv(h, PoolLife(h, arrivals))
  {
    hide PoolReadyRead, ThreadReadyRead, WorkerInv, CallsOnRequest;
    if arrivals == [] {
      NewWorkerInv(h);
    } else {
      var n := |arrivals| - 1;
      NoneFailsIsLoop(h, arrivals[..n]);
      var chunks := Chunks(arrivals);
      assert chunks[..|chunks| - 1] == Chunks(arrivals[..n]);
      LoopCounts(h, chunks);
    }
  }

  lemma RepliesGrow(h: Handler, ps: seq<Payload>, qs: seq<Payload>)
    requires ps <= qs
    ensures Frames(Replies(h, ps)) <= Frames(Replies(h, qs))
  {
    assert Replies(h, ps) <= Replies(h, qs);
    FramesLonger(Replies(h, ps), Replies(h, qs));
  }

  /** One arrival after which writes do not fail any more than before. */
  lemma ServesWithinReplies(h: Handler, w: Worker, a: Arrival)
    requires w.outbox <= Frames(Replies(h, w.d.emitted))
    requires !a.lenFails ==> WorkerInv(h, w)
    ensures PoolServes(h, w, a).outbox <= Frames(Replies(h, PoolServes(h, w, a).d.emitted))
  {
    hide D.ReadyRead, D.Inv, Header, Frames;
    var w1 := Deliver(w, a.chunk);
    AtMostOneRequest(w1.d);
    RepliesGrow(h, w.d.emitted, PoolServes(h, w, a).d.emitted);
    if !a.lenFails {
      DeliverKeepsInv(h, w, a.chunk);
      if !a.Fails() {
        ServeKeepsInv(h, w1);
      } else if CallsOnRequest(w1.d) {
        var p := D.ReadyRead(w1.d).emitted[|w1.d.emitted|];
        RepliesSnoc(h, w1.d.emitted, p);
        FramesSnoc(Replies(h, w1.d.emitted), h(p));
        assert Header(|h(p)|) <= Frame(h(p));
      }
    }
  }

  /** Whatever writes fail, all a worker ever put on the wire is the beginning of the frames of its
      replies, in order. */
  lemma {:induction false} LifeWithinReplies(h: Handler, arrivals: seq<Arrival>)
    requires StaysDown(arrivals)
    ensures PoolLife(h, arrivals).outbox <= Frames(Replies(h, PoolLife(h, arrivals).d.emitted))
  {
    hide PoolServes, Frames, Replies, WorkerInv;
    if arrivals == [] {
      NewWorkerInv(h);
      NothingWritten(h);
    } else {
      var n := |arrivals| - 1;
      LifeWithinReplies(h, arrivals[..n]);
      if !arrivals[n].lenFails {
        NoneFailsIsLoop(h, arrivals[..n]);
      }
      ServesWithinReplies(h, PoolLife(h, arrivals[..n]), arrivals[n]);
    }
  }

  lemma NothingWritten(h: Handler)
    ensures NEW_WORKER.outbox <= Frames(Replies(h, NEW_WORKER.d.emitted))
  {
  }

  /* ---- when the pool's count is the number of requests ---- */

  function Concat(chunks: seq<Bytes>): Bytes {
    if chunks == [] then [] else Concat(chunks[..|chunks| - 1]) + chunks[|chunks| - 1]
  }

  /** With chunk i the stream has its frame i, and that frame is not empty. */
  predicate CompletesFrame(chunks: seq<Bytes>, i: nat)
    requires i < |chunks|
  {
    var fs := Parse(Concat(chunks[..i + 1])).0;
    i < |fs| && fs[i] != []
  }

  ghost predicate EachCompletesAFrame(chunks: seq<Bytes>) {
    forall i :: 0 <= i < |chunks| ==> CompletesFrame(chunks, i)
  }

  lemma ReadyReadConsumesAtMostOne(d: D.Decoder)
    ensures |D.ReadyRead(d).frames| <= |d.frames| + 1
    ensures D.ReadyRead(d).arrived == d.arrived
  {
  }

  lemma {:induction false} LoopConsumes(h: Handler, chunks: seq<Bytes>)
    ensures var d := PoolLoop(h, NEW_WORKER, chunks).d;
            d.arrived == Concat(chunks) && |d.frames| <= |chunks|
  {
    hide D.ReadyRead;
    if chunks != [] {
      var front := chunks[..|chunks| - 1];
      LoopConsumes(h, front);
      ReadyReadConsumesAtMostOne(Deliver(PoolLoop(h, NEW_WORKER, front), chunks[|chunks| - 1]).d);
    }
  }

  /** If every `readyRead` so far has handled a request, the next one does exactly when the batch parser
      now finds one more frame, and finds it not empty. */
  lemma NextHandlesIff(d: D.Decoder, n: nat)
    requires D.Inv(d) && D.SmallHeaders(d.arrived) && |d.frames| <= n == |d.emitted|
    ensures var fs := Parse(d.arrived).0;
            CallsOnRequest(d) <==> n < |fs| && fs[n] != []
  {
    hide D.ReadyRead, D.SmallHeaders;
    D.NonEmptyLength(d.frames);
    ParseFrames(d.frames, D.Pending(d) + d.inbox);
    D.OneCallOneFrame(d);
  }

  /** The last `readyRead` of a loop. */
  lemma LastCall(h: Handler, chunks: seq<Bytes>)
    requires chunks != []
    ensures var n := |chunks| - 1;
            var front := PoolLoop(h, NEW_WORKER, chunks[..n]);
            var d := D.Arrive(front.d, chunks[n]);
            && D.Inv(d) && d.arrived == Concat(chunks) && |d.frames| <= n
            && |front.d.emitted| == |d.emitted| <= n
            && |PoolLoop(h, NEW_WORKER, chunks).d.emitted| == |d.emitted| + (if CallsOnRequest(d) then 1 else 0)
  {
    hide D.ReadyRead, D.Inv;
    var n := |chunks| - 1;
    LoopCounts(h, chunks[..n]);
    LoopConsumes(h, chunks[..n]);
    var front := PoolLoop(h, NEW_WORKER, chunks[..n]);
    D.ArriveKeepsInv(front.d, chunks[n]);
    AtMostOneRequest(D.Arrive(front.d, chunks[n]));
  }

  lemma EachOfFrontAndLast(chunks: seq<Bytes>)
    requires chunks != []
    ensures var n := |chunks| - 1;
            EachCompletesAFrame(chunks) <==> EachCompletesAFrame(chunks[..n]) && CompletesFrame(chunks, n)
  {
    hide Parse, Concat;
    var n := |chunks| - 1;
    var front := chunks[..n];
    forall i | 0 <= i < n
      ensures CompletesFrame(front, i) <==> CompletesFrame(chunks, i)
    {
      assert front[..i + 1] == chunks[..i + 1];
    }
    assert EachCompletesAFrame(chunks) ==> forall i :: 0 <= i < n ==> CompletesFrame(chunks, i) && CompletesFrame(front, i);
  }

  /** The pool's count is never too low, and as long as no announced length reaches 2^63 it is right if
      and only if each chunk completed the next frame of the stream, a non-empty one. */
  lemma {:induction false} PoolCountIsExactIff(h: Handler, chunks: seq<Bytes>)
    ensures var p := PoolLoop(h, NEW_WORKER, chunks);
            && |p.d.emitted| <= p.requestCount
            && (D.SmallHeaders(Concat(chunks)) ==>
                  (p.requestCount == |p.d.emitted| <==> EachCompletesAFrame(chunks)))
  {
    hide D.ReadyRead, D.Inv, D.SmallHeaders, CallsOnRequest, PoolLoop, Parse;
    LoopCounts(h, chunks);
    if chunks == [] {
      assert EachCompletesAFrame(chunks);
    } else if D.SmallHeaders(Concat(chunks)) {
      var n := |chunks| - 1;
      var front := chunks[..n];
      D.SmallHeadersPrefix(Concat(front), Concat(chunks));
      PoolCountIsExactIff(h, front);
      LoopCounts(h, front);
      LastCall(h, chunks);
      EachOfFrontAndLast(chunks);
      var d := D.Arrive(PoolLoop(h, NEW_WORKER, front).d, chunks[n]);
      if |d.emitted| == n {
        NextHandlesIff(d, n);
        assert chunks[..n + 1] == chunks;
      }
    }
  }

  lemma HeaderThenByte()
    ensures var d := D.ReadyRead(D.Arrive(D.FRESH, Header(1)));
            && d.emitted == []
            && D.ReadyRead(D.Arrive(d, [7])).emitted == [[7]]
  {
    hide Digit, DecodeLE;
    HeaderRoundTrip(1);
    var b := Header(1);
    assert [] + b == b && b[..HEADER] == b && b[HEADER..] == [];
    assert [] + [7] == [7 as Byte] && [7 as Byte][..1] == [7 as Byte];
  }

  /** A request that arrives in two pieces is counted twice by the pool. */
  lemma SplitRequestCountsTwice(h: Handler)
    ensures var w := PoolLoop(h, NEW_WORKER, [Header(1), [7]]);
            w.requestCount == 2 && w.d.emitted == [[7]]
  {
    hide D.ReadyRead;
    HeaderThenByte();
    var chunks: seq<Bytes> := [Header(1), [7]];
    assert chunks[..1] == [Header(1)] && chunks[..1][..0] == [];
    assert PoolLoop(h, NEW_WORKER, chunks[..1][..0]) == NEW_WORKER;
    assert PoolLoop(h, NEW_WORKER, chunks[..1]) == PoolReadyRead(h, Deliver(NEW_WORKER, Header(1)));
  }
}
