/** The incremental decoder of the Qt programs. `m_dataLen == 0` means that no header is pending; a
    `readyRead` reads at most one header and emits at most one payload. A header of zero is consumed
    and forgotten, so empty frames are dropped. The length is compared as a signed number, so a header
    of 2^63 or more passes the test with any number of bytes at hand; the resize and the read it leads
    to then get a negative size, which leaves an empty buffer and reads nothing. */
module QtDecoder {
  import opened Framing

  datatype Decoder = Decoder(
    dataLen: nat,             // m_dataLen
    inbox: Bytes,             // what the socket has buffered
    arrived: Bytes,           // everything that ever arrived
    frames: seq<Payload>,     // frames consumed, empty ones included
    emitted: seq<Payload>,    // payloads emitted
    negative: nat             // headers consumed that read as negative
  )

  const FRESH := Decoder(0, [], [], [], [], 0)

  function AsInt64(n: nat): int { if n < I63 then n else n - U64 }

  function Arrive(d: Decoder, chunk: Bytes): Decoder {
    d.(inbox := d.inbox + chunk, arrived := d.arrived + chunk)
  }

  function ReadHeader(d: Decoder): Decoder {
    if d.dataLen == 0 && |d.inbox| >= HEADER then
      var n := DecodeLE(d.inbox[..HEADER]);
      d.(dataLen := n, inbox := d.inbox[HEADER..], frames := if n == 0 then d.frames + [[]] else d.frames)
    else d
  }

  function ReadPayload(d: Decoder): Decoder {
    if d.dataLen == 0 || |d.inbox| < AsInt64(d.dataLen) then d
    else if d.dataLen >= I63 then
      d.(dataLen := 0, emitted := d.emitted + [[]], negative := d.negative + 1)
    else
      var p := d.inbox[..d.dataLen];
      d.(dataLen := 0, inbox := d.inbox[d.dataLen..], frames := d.frames + [p], emitted := d.emitted + [p])
  }

  /** One `readyRead`. */
  function ReadyRead(d: Decoder): Decoder {
    ReadPayload(ReadHeader(d))
  }

  datatype Event = Arrives(chunk: Bytes) | Signal

  function Apply(d: Decoder, ev: Event): Decoder {
    match ev
    case Arrives(chunk) => Arrive(d, chunk)
    case Signal => ReadyRead(d)
  }

  function Run(d: Decoder, evs: seq<Event>): Decoder
    decreases |evs|
  {
    if evs == [] then d else Run(Apply(d, evs[0]), evs[1..])
  }

  /* ---- against the batch parser ---- */

  function NonEmpty(ps: seq<Payload>): seq<Payload> {
    if ps == [] then [] else NonEmpty(ps[..|ps| - 1]) + (if ps[|ps| - 1] == [] then [] else [ps[|ps| - 1]])
  }

  /** Every length announced in the stream, complete or pending, is below 2^63. */
  ghost predicate SmallHeaders(b: Bytes) {
    && (forall p :: p in Parse(b).0 ==> |p| < I63)
    && (|Parse(b).1| >= HEADER ==> DecodeLE(Parse(b).1[..HEADER]) < I63)
  }

  /** The header already taken off the socket, as it arrived. */
  function Pending(d: Decoder): Bytes {
    if d.dataLen == 0 then [] else Header(d.dataLen)
  }

  /** Consumed frames ++ pending header ++ unread bytes are exactly what arrived, and what was emitted
      is the consumed frames without the empty ones, as long as no header read as negative; the first
      one that does leaves an empty payload nobody sent. */
  ghost predicate Inv(d: Decoder) {
    && (d.negative == 0 ==>
          && d.dataLen < I63
          && d.arrived == Frames(d.frames) + (Pending(d) + d.inbox)
          && d.emitted == NonEmpty(d.frames)
          && (forall p :: p in d.frames ==> |p| < I63))
    && ([] in d.emitted <==> d.negative > 0)
    && (d.negative > 0 ==> !SmallHeaders(d.arrived))
  }

  lemma {:induction false} NonEmptyHasNoEmpty(ps: seq<Payload>)
    ensures [] !in NonEmpty(ps)
    ensures (forall p :: p in ps ==> p != []) ==> NonEmpty(ps) == ps
  {
    if ps != [] {
      var front, last := ps[..|ps| - 1], ps[|ps| - 1];
      NonEmptyHasNoEmpty(front);
      assert ps == front + [last];
      assert last in ps && forall p :: p in front ==> p in ps;
    }
  }

  lemma {:induction false} NonEmptyLength(ps: seq<Payload>)
    ensures |NonEmpty(ps)| <= |ps|
    ensures |NonEmpty(ps)| == |ps| <==> [] !in ps
  {
    if ps != [] {
      var front, last := ps[..|ps| - 1], ps[|ps| - 1];
      NonEmptyLength(front);
      assert ps == front + [last];
      assert [] in ps <==> [] in front || last == [];
    }
  }

  lemma NonEmptyPrefix(ps: seq<Payload>, qs: seq<Payload>)
    requires ps <= qs
    ensures NonEmpty(ps) <= NonEmpty(qs)
  {
    assert qs == ps + qs[|ps|..];
    NonEmptyConcat(ps, qs[|ps|..]);
  }

  lemma {:induction false} NonEmptyConcat(ps: seq<Payload>, qs: seq<Payload>)
    ensures NonEmpty(ps + qs) == NonEmpty(ps) + NonEmpty(qs)
    decreases |qs|
  {
    if qs == [] {
      assert ps + qs == ps;
    } else {
      var front, last := qs[..|qs| - 1], qs[|qs| - 1];
      NonEmptyConcat(ps, front);
      assert (ps + qs)[..|ps + qs| - 1] == ps + front;
      assert (ps + qs)[|ps + qs| - 1] == last;
    }
  }

  /** The length an unfinished message announces is still the first one announced when more arrives. */
  lemma AnnouncedStays(r: Bytes, x: Bytes)
    requires |r| >= HEADER
    ensures Parse(r + x).0 == [] ==> |Parse(r + x).1| >= HEADER && Parse(r + x).1[..HEADER] == r[..HEADER]
    ensures Parse(r + x).0 != [] ==> |Parse(r + x).0[0]| == DecodeLE(r[..HEADER])
  {
    assert (r + x)[..HEADER] == r[..HEADER];
  }

  /** A stream with a longer future has had no larger lengths so far. */
  lemma SmallHeadersPrefix(b: Bytes, c: Bytes)
    requires b <= c && SmallHeaders(c)
    ensures SmallHeaders(b)
  {
    hide Frames, Parse;
    ParseReassembles(b);
    var (ps, r) := Parse(b);
    var x := c[|b|..];
    assert c == Frames(ps) + (r + x);
    ParseFrames(ps, r + x);
    var later := Parse(r + x).0;
    assert forall p :: p in ps ==> p in ps + later;
    if |r| >= HEADER {
      AnnouncedStays(r, x);
      assert later != [] ==> later[0] in ps + later;
    }
  }

  lemma SmallFramesHaveSmallHeaders(ps: seq<Payload>)
    requires Short(ps)
    ensures SmallHeaders(Frames(ps))
  {
    ParseUnique(ps, []);
    assert Frames(ps) + [] == Frames(ps);
  }

  /** A header at the front of what is left of the stream is one of the lengths announced. */
  lemma HeaderIsAnnounced(d: Decoder)
    requires Inv(d) && d.negative == 0 && d.dataLen == 0 && |d.inbox| >= HEADER
    ensures DecodeLE(d.inbox[..HEADER]) >= I63 ==> !SmallHeaders(d.arrived)
  {
    assert Pending(d) + d.inbox == d.inbox;
    ParseFrames(d.frames, d.inbox);
    if !Incomplete(d.inbox) {
      var later := Parse(d.inbox).0;
      assert later[0] in d.frames + later;
    }
  }

  lemma HeaderKeepsInv(d: Decoder)
    requires Inv(d) && d.negative == 0 && d.dataLen == 0 && |d.inbox| >= HEADER
    requires DecodeLE(d.inbox[..HEADER]) < I63
    ensures Inv(ReadHeader(d))
    ensures Pending(ReadHeader(d)) + ReadHeader(d).inbox == if ReadHeader(d).dataLen == 0 then d.inbox[HEADER..] else d.inbox
  {
    hide Header, DecodeLE, SmallHeaders, Frames, NonEmpty;
    var d' := ReadHeader(d);
    HeaderValue(d.inbox[..HEADER]);
    assert d.inbox == Header(d'.dataLen) + d'.inbox;
    assert [] + d.inbox == d.inbox;
    if d'.dataLen == 0 {
      assert [] + d'.inbox == d'.inbox;
      EmptyFrame(d.frames, d'.inbox);
    }
  }

  /** A length of zero is a whole frame, of which nothing is emitted. */
  lemma EmptyFrame(ps: seq<Payload>, tail: Bytes)
    ensures Frames(ps) + (Header(0) + tail) == Frames(ps + [[]]) + tail
    ensures NonEmpty(ps + [[]]) == NonEmpty(ps)
  {
    FramesSnoc(ps, []);
    assert Header(0) + [] == Header(0);
    assert (ps + [[]])[..|ps|] == ps;
  }

  lemma PayloadKeepsInv(d: Decoder)
    requires Inv(d) && d.negative == 0 && 0 < d.dataLen <= |d.inbox|
    ensures Inv(ReadPayload(d))
  {
    var n := d.dataLen;
    var p := d.inbox[..n];
    assert d.inbox == p + d.inbox[n..];
    FramesSnoc(d.frames, p);
    assert Frames(d.frames) + (Header(n) + (p + d.inbox[n..])) == (Frames(d.frames) + (Header(n) + p)) + d.inbox[n..];
    assert [] + d.inbox[n..] == d.inbox[n..];
    assert (d.frames + [p])[..|d.frames|] == d.frames;
    NonEmptyHasNoEmpty(d.frames + [p]);
  }

  lemma ReadyReadKeepsInv(d: Decoder)
    requires Inv(d)
    ensures Inv(ReadyRead(d))
  {
    if d.negative == 0 {
      if d.dataLen == 0 && |d.inbox| >= HEADER {
        HeaderIsAnnounced(d);
        if DecodeLE(d.inbox[..HEADER]) < I63 {
          HeaderKeepsInv(d);
        } else {
          HeaderValue(d.inbox[..HEADER]);
        }
      }
      var d' := ReadHeader(d);
      if 0 < d'.dataLen < I63 && d'.dataLen <= |d'.inbox| {
        PayloadKeepsInv(d');
      }
    } else {
      var d' := ReadyRead(d);
      assert d.emitted <= d'.emitted && d'.negative >= d.negative;
    }
  }

  lemma ArriveKeepsInv(d: Decoder, chunk: Bytes)
    requires Inv(d)
    ensures Inv(Arrive(d, chunk))
  {
    if d.negative > 0 {
      if SmallHeaders(d.arrived + chunk) {
        SmallHeadersPrefix(d.arrived, d.arrived + chunk);
      }
    } else {
      assert d.arrived + chunk == Frames(d.frames) + (Pending(d) + (d.inbox + chunk));
    }
  }

  lemma FreshInv()
    ensures Inv(FRESH)
  {
  }

  lemma {:induction false} RunKeepsInv(d: Decoder, evs: seq<Event>)
    requires Inv(d)
    ensures Inv(Run(d, evs))
    decreases |evs|
  {
    hide Inv, ReadyRead;
    if evs != [] {
      if evs[0].Signal? {
        ReadyReadKeepsInv(d);
      } else {
        ArriveKeepsInv(d, evs[0].chunk);
      }
      RunKeepsInv(Apply(d, evs[0]), evs[1..]);
    }
  }

  /** For every byte stream and every chunking of it into `readyRead` events: if no announced length
      reaches 2^63, the payloads emitted so far are the first ones the batch parser finds, empty
      frames dropped, and no byte is lost. */
  lemma DecoderFollowsBatchParser(evs: seq<Event>)
    ensures var d := Run(FRESH, evs);
            SmallHeaders(d.arrived) ==>
              && d.emitted <= NonEmpty(Parse(d.arrived).0)
              && d.emitted == NonEmpty(d.frames)
              && d.arrived == Frames(d.frames) + (Pending(d) + d.inbox)
  {
    FreshInv();
    RunKeepsInv(FRESH, evs);
    var d := Run(FRESH, evs);
    if SmallHeaders(d.arrived) {
      ParseFrames(d.frames, Pending(d) + d.inbox);
      NonEmptyConcat(d.frames, Parse(Pending(d) + d.inbox).0);
    }
  }

  /* ---- one call, one frame ---- */

  /** The complete frames the decoder has but has not consumed. */
  function Buffered(d: Decoder): seq<Payload> {
    Parse(Pending(d) + d.inbox).0
  }

  lemma ReadHeaderPeels(d: Decoder)
    requires Inv(d) && SmallHeaders(d.arrived)
    ensures var d' := ReadHeader(d);
            && Inv(d') && d'.arrived == d.arrived && d'.emitted == d.emitted
            && Buffered(d') == (if d.dataLen == 0 && Buffered(d) != [] && Buffered(d)[0] == []
                                then Buffered(d)[1..] else Buffered(d))
            && (Buffered(d) != [] && !(d.dataLen == 0 && Buffered(d)[0] == []) ==> d'.dataLen == |Buffered(d)[0]| > 0)
            && (d.dataLen == 0 && Buffered(d) != [] && Buffered(d)[0] == [] ==> d'.dataLen == 0)
            && (Buffered(d) == [] ==> d'.dataLen == 0 || |d'.inbox| < d'.dataLen)
  {
    if d.dataLen == 0 {
      assert Pending(d) + d.inbox == d.inbox;
      if |d.inbox| >= HEADER {
        HeaderIsAnnounced(d);
        HeaderKeepsInv(d);
        HeaderValue(d.inbox[..HEADER]);
        if ReadHeader(d).dataLen == 0 {
          assert d.inbox[HEADER..HEADER] == [];
        }
      }
    } else {
      HeaderRoundTrip(d.dataLen);
      assert (Pending(d) + d.inbox)[..HEADER] == Header(d.dataLen);
    }
  }

  lemma ReadPayloadPeels(d: Decoder)
    requires Inv(d) && SmallHeaders(d.arrived)
    requires d.dataLen > 0
    ensures var d' := ReadPayload(d);
            if Buffered(d) == [] then d' == d
            else d'.emitted == d.emitted + [Buffered(d)[0]] && Buffered(d') == Buffered(d)[1..] && Buffered(d)[0] != []
  {
    var b := Pending(d) + d.inbox;
    HeaderRoundTrip(d.dataLen);
    assert b[..HEADER] == Header(d.dataLen);
    assert b[HEADER..] == d.inbox;
    if d.dataLen <= |d.inbox| {
      assert b[HEADER..HEADER + d.dataLen] == d.inbox[..d.dataLen];
      assert b[HEADER + d.dataLen..] == d.inbox[d.dataLen..];
      assert [] + d.inbox[d.dataLen..] == d.inbox[d.dataLen..];
    }
  }

  /** A `readyRead` consumes exactly one complete frame if there is one, and emits it unless it is
      empty. With at most one frame outstanding nothing is therefore ever left waiting; with two, the
      second waits for another `readyRead`. */
  lemma OneCallOneFrame(d: Decoder)
    requires Inv(d) && SmallHeaders(d.arrived)
    ensures var d', fs := ReadyRead(d), Buffered(d);
            && Buffered(d') == (if fs == [] then [] else fs[1..])
            && d'.emitted == d.emitted + (if fs != [] && fs[0] != [] then [fs[0]] else [])
    ensures Buffered(ReadyRead(d)) == [] <==> |Buffered(d)| <= 1
  {
    ReadHeaderPeels(d);
    var d1 := ReadHeader(d);
    if d1.dataLen > 0 {
      ReadPayloadPeels(d1);
    }
  }

  /** A call that leaves one waiting: of two messages that arrive together the second is not emitted. */
  lemma SecondFrameWaits()
    ensures var ps: seq<Payload> := [[1], [2]];
            var d := Run(FRESH, [Arrives(Frames(ps)), Signal]);
            d.emitted == [[1]] && NonEmpty(Parse(d.arrived).0) == ps
  {
    hide Frames, Parse, ReadyRead, Inv, SmallHeaders;
    var ps: seq<Payload> := [[1], [2]];
    var d := Arrive(FRESH, Frames(ps));
    RunAfter(FRESH, Frames(ps), []);
    assert [Arrives(Frames(ps)), Signal] + [] == [Arrives(Frames(ps)), Signal];
    FreshInv();
    ArriveKeepsInv(FRESH, Frames(ps));
    SmallFramesHaveSmallHeaders(ps);
    ParseUnique(ps, []);
    assert [] + Frames(ps) == Frames(ps) == Frames(ps) + [];
    OneCallOneFrame(d);
    ReadyReadArrives(d);
    NonEmptyHasNoEmpty(ps);
  }

  function Calls(d: Decoder, n: nat): Decoder
    decreases n
  {
    if n == 0 then d else Calls(ReadyRead(d), n - 1)
  }

  /** n complete frames are drained by exactly n calls, in order. */
  lemma {:induction false} CallsDrain(d: Decoder, n: nat)
    requires Inv(d) && SmallHeaders(d.arrived) && n <= |Buffered(d)|
    ensures Buffered(Calls(d, n)) == Buffered(d)[n..]
    ensures Calls(d, n).emitted == d.emitted + NonEmpty(Buffered(d)[..n])
    decreases n
  {
    hide Inv, ReadyRead, Buffered, SmallHeaders, NonEmpty;
    var fs := Buffered(d);
    if n == 0 {
      assert fs[..0] == [] && d.emitted + [] == d.emitted;
      NonEmptyHasNoEmpty([]);
    } else {
      OneCallOneFrame(d);
      ReadyReadKeepsInv(d);
      ReadyReadArrives(d);
      CallsDrain(ReadyRead(d), n - 1);
      NonEmptySplits(fs[..n]);
      assert fs[..n][1..] == fs[1..][..n - 1];
    }
  }

  lemma NonEmptySplits(fs: seq<Payload>)
    requires fs != []
    ensures NonEmpty(fs) == (if fs[0] == [] then [] else [fs[0]]) + NonEmpty(fs[1..])
  {
    assert fs == [fs[0]] + fs[1..];
    NonEmptyConcat([fs[0]], fs[1..]);
    assert [fs[0]][..0] == [] && [] + [fs[0]] == [fs[0]];
  }

  lemma ReadyReadArrives(d: Decoder)
    ensures ReadyRead(d).arrived == d.arrived
  {
  }

  /** What is left of the invariant once a side has gone: what it had delivered by then. */
  ghost predicate Delivered(d: Decoder) {
    && (d.negative == 0 ==> Frames(d.frames) <= d.arrived && d.emitted == NonEmpty(d.frames))
    && (d.negative > 0 ==> !SmallHeaders(d.arrived))
  }

  lemma InvDelivers(d: Decoder)
    requires Inv(d)
    ensures Delivered(d)
  {
  }

  /** No length reads as negative. */
  predicate Short(ps: seq<Payload>) {
    forall p :: p in ps ==> |p| < I63
  }

  /** If all that is buffered belongs to at most one frame, complete or not, one `readyRead` leaves
      nothing that another could do: a signal for every arrival is then enough. */
  lemma OneSignalSuffices(d: Decoder, ps: seq<Payload>)
    requires Inv(d) && d.negative == 0
    requires |ps| <= 1 && Short(ps) && Pending(d) + d.inbox <= Frames(ps)
    ensures Quiescent(ReadyRead(d))
  {
    hide Frames, NonEmpty, Digit, DecodeLE, Header;
    if ps == [] {
      FramesNonempty(ps);
      assert Pending(d) + d.inbox == [];
    } else {
      var p := ps[0];
      assert ps == [p] + [];
      FramesCons(p, []);
      FramesNonempty([]);
      assert Frame(p) + [] == Frame(p);
      OneFrameSuffices(d, p);
    }
  }

  lemma OneFrameSuffices(d: Decoder, p: Payload)
    requires |p| < I63 && d.dataLen < U64
    requires Pending(d) + d.inbox <= Frame(p)
    ensures Quiescent(ReadyRead(d))
  {
    hide Digit, DecodeLE, Header;
    var b := Pending(d) + d.inbox;
    HeaderRoundTrip(|p|);
    assert |b| >= HEADER ==> b[..HEADER] == Frame(p)[..HEADER] == Header(|p|);
    if d.dataLen != 0 {
      HeaderRoundTrip(d.dataLen);
      assert b[..HEADER] == Header(d.dataLen);
    } else {
      assert b == d.inbox;
    }
  }

  /** Another `readyRead` would change nothing. */
  predicate Quiescent(d: Decoder) { ReadyRead(d) == d }

  /** Called until quiescent, the decoder has delivered exactly what the batch parser finds if and only
      if no announced length reaches 2^63. */
  lemma QuiescentDecoderIsExactIff(d: Decoder)
    requires Inv(d) && Quiescent(d)
    ensures SmallHeaders(d.arrived) <==> d.emitted == NonEmpty(Parse(d.arrived).0)
  {
    var rest := Pending(d) + d.inbox;
    NonEmptyHasNoEmpty(Parse(d.arrived).0);
    if d.negative == 0 {
      if d.dataLen == 0 {
        assert rest == d.inbox;
        assert |d.inbox| < HEADER;
      } else {
        HeaderRoundTrip(d.dataLen);
        assert rest[..HEADER] == Header(d.dataLen);
      }
      ParseUnique(d.frames, rest);
    }
  }

  /** A stream on which it fails: eight bytes that announce 2^63 make the decoder emit at once an empty
      payload that nobody sent. */
  lemma NegativeLengthIsEmittedAsEmpty()
    ensures var d := Run(FRESH, [Arrives(Header(I63)), Signal]);
            d.emitted == [[]] && NonEmpty(Parse(d.arrived).0) == [] && !SmallHeaders(d.arrived)
  {
    var b := Header(I63);
    HeaderRoundTrip(I63);
    assert [] + b == b && b[..HEADER] == b;
    assert Incomplete(b);
    assert [Arrives(b), Signal][1..] == [Signal] && [Signal][1..] == [];
    assert Run(ReadyRead(Arrive(FRESH, b)), []) == ReadyRead(Arrive(FRESH, b));
  }

  /* ---- a header that is lost ---- */

  /** A chunk arrives and is signalled. */
  function After(d: Decoder, chunk: Bytes): Decoder {
    ReadyRead(Arrive(d, chunk))
  }

  lemma RunAfter(d: Decoder, chunk: Bytes, rest: seq<Event>)
    ensures Run(d, [Arrives(chunk), Signal] + rest) == Run(After(d, chunk), rest)
  {
    var evs := [Arrives(chunk), Signal] + rest;
    assert evs[1..] == [Signal] + rest && ([Signal] + rest)[1..] == rest;
  }

  function Zeros(n: nat): (b: Bytes)
    ensures |b| == n
  {
    seq(n, i => 0)
  }

  /** What a `readyRead` with no header pending emits of the unread bytes, and what it leaves of them. */
  function Emits(w: Bytes): seq<Payload> {
    if |w| < HEADER then [] else
      var m := DecodeLE(w[..HEADER]);
      if m == 0 then []
      else if m >= I63 then [[]]
      else if |w| < HEADER + m then []
      else [w[HEADER..HEADER + m]]
  }

  function Leaves(w: Bytes): Bytes {
    if |w| < HEADER then w else
      var m := DecodeLE(w[..HEADER]);
      if 0 < m < I63 && |w| >= HEADER + m then w[HEADER + m..] else w[HEADER..]
  }

  lemma ReadyReadAtBoundary(d: Decoder)
    requires d.dataLen == 0
    ensures ReadyRead(d).emitted == d.emitted + Emits(d.inbox)
    ensures ReadyRead(d).inbox == Leaves(d.inbox)
    ensures |d.inbox| >= HEADER && (0 < DecodeLE(d.inbox[..HEADER]) < I63 ==> Emits(d.inbox) != []) ==>
              ReadyRead(d).dataLen == 0
  {
    hide DecodeLE;
    var w := d.inbox;
    if |w| >= HEADER {
      HeaderValue(w[..HEADER]);
      var m := DecodeLE(w[..HEADER]);
      if 0 < m < I63 && |w| >= HEADER + m {
        assert w[HEADER..][..m] == w[HEADER..HEADER + m] && w[HEADER..][m..] == w[HEADER + m..];
      }
    }
  }

  lemma SameEmitted(e: seq<Payload>, x: seq<Payload>, y: seq<Payload>)
    ensures e + x == e + y <==> x == y
  {
    assert (e + x)[|e|..] == x && (e + y)[|e|..] == y;
  }

  /** Enough further bytes for whichever of two decoders, 8 bytes apart in one stream, can finish. */
  function Enough(m: nat, v: nat): Bytes {
    if 0 < m < I63 then Zeros(m) else if 0 < v < I63 then Zeros(v) else []
  }

  lemma EightBytesApart(a: Decoder, b: Decoder)
    requires a.dataLen == 0 == b.dataLen && a.emitted == b.emitted
    requires |a.inbox| >= 2 * HEADER && a.inbox[HEADER..] == b.inbox
    ensures var y := Enough(DecodeLE(a.inbox[..HEADER]), DecodeLE(b.inbox[..HEADER]));
            var a', b' := After(a, y), After(b, y);
            a'.emitted == b'.emitted ==>
              && a'.dataLen == 0 == b'.dataLen && |b'.inbox| < |b.inbox|
              && |a'.inbox| >= HEADER && a'.inbox[HEADER..] == b'.inbox
  {
    hide DecodeLE, ReadyRead;
    var m, v := DecodeLE(a.inbox[..HEADER]), DecodeLE(b.inbox[..HEADER]);
    var y := Enough(m, v);
    var u, w := a.inbox + y, b.inbox + y;
    assert u[..HEADER] == a.inbox[..HEADER] && w[..HEADER] == b.inbox[..HEADER] && u[HEADER..] == w;
    ReadyReadAtBoundary(Arrive(a, y));
    ReadyReadAtBoundary(Arrive(b, y));
    SameEmitted(a.emitted, Emits(u), Emits(w));
    if Emits(u) == Emits(w) {
      SameEmissionSameLength(u, w);
      if 0 < m < I63 {
        assert u[HEADER + m..] == w[m..] && w[m..][HEADER..] == w[HEADER + m..];
      }
    }
  }

  /** Two boundaries that emit the same, one able to finish if either is, announced alike. */
  lemma SameEmissionSameLength(u: Bytes, w: Bytes)
    requires |u| >= HEADER && |w| >= HEADER && Emits(u) == Emits(w)
    requires var m, v := DecodeLE(u[..HEADER]), DecodeLE(w[..HEADER]);
             if 0 < m < I63 then |u| >= HEADER + m else 0 < v < I63 ==> |w| >= HEADER + v
    ensures var m, v := DecodeLE(u[..HEADER]), DecodeLE(w[..HEADER]);
            && (0 < m < I63 <==> 0 < v < I63)
            && (0 < m < I63 ==> m == v && |w| >= HEADER + v)
  {
    hide DecodeLE;
    var m, v := DecodeLE(u[..HEADER]), DecodeLE(w[..HEADER]);
    if 0 < m < I63 {
      assert Emits(u)[0] == Emits(w)[0];
      assert |Emits(u)[0]| == m;
    }
  }

  /** Bytes that complete `t`, the start of a header, to one that announces another length than `m`. */
  lemma AnotherLength(t: Bytes, m: nat) returns (y: Bytes)
    requires |t| < HEADER
    ensures |t + y| == HEADER && DecodeLE(t + y) != m
  {
    hide DecodeLE;
    var z := Zeros(HEADER - 1 - |t|);
    if DecodeLE(t + (z + [0])) == m {
      y := z + [1];
      HeaderValue(t + (z + [0]));
      HeaderValue(t + y);
      assert (t + (z + [0]))[HEADER - 1] == 0 && (t + y)[HEADER - 1] == 1;
    } else {
      y := z + [0];
    }
  }

  lemma ShortTailShows(a: Decoder, b: Decoder) returns (y: Bytes)
    requires a.dataLen == 0 == b.dataLen && a.emitted == b.emitted
    requires HEADER <= |a.inbox| < 2 * HEADER && a.inbox[HEADER..] == b.inbox
    ensures After(a, y).emitted != After(b, y).emitted
  {
    hide DecodeLE, ReadyRead;
    var m := DecodeLE(a.inbox[..HEADER]);
    if m >= I63 {
      y := [];
      assert a.inbox + y == a.inbox && b.inbox + y == b.inbox;
    } else {
      var top := AnotherLength(b.inbox, m);
      var v := DecodeLE(b.inbox + top);
      y := top + Enough(m, v);
      assert (a.inbox + y)[..HEADER] == a.inbox[..HEADER];
      assert (b.inbox + y)[..HEADER] == b.inbox + top;
    }
    ReadyReadAtBoundary(Arrive(a, y));
    ReadyReadAtBoundary(Arrive(b, y));
    SameEmitted(a.emitted, Emits(a.inbox + y), Emits(b.inbox + y));
    if m < I63 && Emits(a.inbox + y) == Emits(b.inbox + y) {
      SameEmissionSameLength(a.inbox + y, b.inbox + y);
    }
  }

  /** Two decoders at a frame boundary, one 8 bytes behind the other, can be told apart. */
  lemma {:induction false} ShiftShows(a: Decoder, b: Decoder) returns (evs: seq<Event>)
    requires a.dataLen == 0 == b.dataLen && a.emitted == b.emitted
    requires |a.inbox| >= HEADER && a.inbox[HEADER..] == b.inbox
    ensures Run(a, evs).emitted != Run(b, evs).emitted
    decreases |b.inbox|
  {
    hide DecodeLE, ReadyRead, After, Run;
    var y;
    if |b.inbox| < HEADER {
      y := ShortTailShows(a, b);
    } else {
      y := Enough(DecodeLE(a.inbox[..HEADER]), DecodeLE(b.inbox[..HEADER]));
      EightBytesApart(a, b);
    }
    evs := ShowsLater(a, b, y);
    if After(a, y).emitted == After(b, y).emitted {
      var rest := ShiftShows(After(a, y), After(b, y));
      evs := [Arrives(y), Signal] + rest;
      RunAfter(a, y, rest);
      RunAfter(b, y, rest);
    }
  }

  lemma ShowsLater(a: Decoder, b: Decoder, y: Bytes) returns (evs: seq<Event>)
    ensures After(a, y).emitted != After(b, y).emitted ==> Run(a, evs).emitted != Run(b, evs).emitted
  {
    evs := [Arrives(y), Signal] + [];
    RunAfter(a, y, []);
    RunAfter(b, y, []);
  }

  /** Clearing `m_dataLen` while it holds a pending length always shows in what is emitted later on. */
  lemma ForgottenHeaderShows(d: Decoder) returns (evs: seq<Event>)
    requires 0 < d.dataLen < U64
    ensures Run(d, evs).emitted != Run(d.(dataLen := 0), evs).emitted
  {
    hide DecodeLE, Run;
    var n, b := d.dataLen, d.(dataLen := 0);
    var y := if n < I63 then Zeros(n) else [];
    var w := d.inbox + y;
    ReadyReadAtBoundary(Arrive(b, y));
    var emits := if n < I63 then [w[..n]] else [[]];
    assert After(d, y).emitted == d.emitted + emits;
    SameEmitted(d.emitted, emits, Emits(w));
    evs := ShowsLater(d, b, y);
    if After(d, y).emitted == After(b, y).emitted {
      var rest := ShiftShows(After(d, y), After(b, y));
      evs := [Arrives(y), Signal] + rest;
      RunAfter(d, y, rest);
      RunAfter(b, y, rest);
    }
  }
}
