/** The wire framing every benchmark program speaks: the 8 bytes of a `uint64_t` length in memory
    order, followed by that many payload bytes. Both hosts are taken to be little endian.

    `Parse` is the reference: a batch parser that knows nothing of chunks, phases or buffers. Every
    receiver in the project is measured against it. */
module Framing {
  newtype Byte = x: int | 0 <= x < 256
  type Bytes = seq<Byte>

  const U64: nat := 0x1_0000_0000_0000_0000
  const I63: nat := 0x8000_0000_0000_0000
  const HEADER: nat := 8

  /** Contents of a buffer: its size fits `size_t`. */
  type Payload = b: Bytes | |b| < U64

  function Digit(n: nat, i: nat): Byte {
    if i == 0 then (n % 256) as Byte else Digit(n / 256, i - 1)
  }

  /** The bytes of an integer in memory, least significant first. */
  function EncodeLE(n: nat, width: nat): (b: Bytes)
    ensures |b| == width
  {
    seq(width, i requires 0 <= i => Digit(n, i))
  }

  function DecodeLE(b: Bytes): nat {
    if b == [] then 0 else b[0] as nat + 256 * DecodeLE(b[1..])
  }

  function Pow256(k: nat): nat {
    if k == 0 then 1 else 256 * Pow256(k - 1)
  }

  lemma Pow256Of8()
    ensures Pow256(HEADER) == U64
  {
    assert Pow256(4) == 0x1_0000_0000;
    assert Pow256(8) == 256 * (256 * (256 * (256 * Pow256(4))));
  }

  lemma {:induction false} DecodeEncode(n: nat, width: nat)
    requires n < Pow256(width)
    ensures DecodeLE(EncodeLE(n, width)) == n
  {
    if width > 0 {
      DecodeEncode(n / 256, width - 1);
      assert EncodeLE(n, width)[1..] == EncodeLE(n / 256, width - 1);
    }
  }

  lemma {:induction false} EncodeDecode(b: Bytes)
    ensures DecodeLE(b) < Pow256(|b|)
    ensures EncodeLE(DecodeLE(b), |b|) == b
  {
    if b != [] {
      EncodeDecode(b[1..]);
      assert DecodeLE(b) / 256 == DecodeLE(b[1..]);
    }
  }

  /** `m_dataLen = m_dataBuf.size()` seen as memory. */
  function Header(n: nat): (b: Bytes)
    ensures |b| == HEADER
  {
    EncodeLE(n, HEADER)
  }

  /** `m_dataLen = 0` seen as memory. */
  const ZERO: Bytes := [0, 0, 0, 0, 0, 0, 0, 0]

  function Frame(p: Payload): (b: Bytes)
    ensures |b| == HEADER + |p|
  {
    Header(|p|) + p
  }

  function Frames(ps: seq<Payload>): Bytes {
    if ps == [] then [] else Frames(ps[..|ps| - 1]) + Frame(ps[|ps| - 1])
  }

  /** No complete frame starts `b`. */
  predicate Incomplete(b: Bytes) {
    |b| < HEADER || |b| - HEADER < DecodeLE(b[..HEADER])
  }

  /** The batch parser: all complete frames, and the tail that holds no complete frame. */
  function Parse(b: Bytes): (r: (seq<Payload>, Bytes)) {
    if Incomplete(b) then ([], b)
    else
      HeaderValue(b[..HEADER]);
      var n := DecodeLE(b[..HEADER]);
      var (ps, rest) := Parse(b[HEADER + n..]);
      ([b[HEADER..HEADER + n]] + ps, rest)
  }

  /** Eight bytes in memory and the number they denote determine each other. */
  lemma HeaderValue(b: Bytes)
    requires |b| == HEADER
    ensures DecodeLE(b) < U64
    ensures Header(DecodeLE(b)) == b
  {
    EncodeDecode(b);
    Pow256Of8();
  }

  lemma HeaderRoundTrip(n: nat)
    requires n < U64
    ensures DecodeLE(Header(n)) == n
  {
    DecodeEncode(n, HEADER);
    Pow256Of8();
  }

  /** The first byte of a length is the least significant one. */
  lemma HeaderIsLittleEndian(n: nat)
    requires n < U64
    ensures var b := Header(n);
            n == b[0] as nat + 0x100 * b[1] as nat + 0x1_0000 * b[2] as nat + 0x100_0000 * b[3] as nat
               + 0x1_0000_0000 * b[4] as nat + 0x100_0000_0000 * b[5] as nat
               + 0x1_0000_0000_0000 * b[6] as nat + 0x100_0000_0000_0000 * b[7] as nat
  {
    hide Digit, EncodeLE;
    HeaderRoundTrip(n);
    var b := Header(n);
    FourBytes(b);
    FourBytes(b[4..]);
    assert b[4..][4..] == [];
  }

  lemma FourBytes(b: Bytes)
    requires |b| >= 4
    ensures DecodeLE(b) == b[0] as nat + 0x100 * b[1] as nat + 0x1_0000 * b[2] as nat + 0x100_0000 * b[3] as nat
                         + 0x1_0000_0000 * DecodeLE(b[4..])
  {
    assert b[1..][1..] == b[2..] && b[2..][1..] == b[3..] && b[3..][1..] == b[4..];
  }

  lemma FramesSnoc(ps: seq<Payload>, p: Payload)
    ensures Frames(ps + [p]) == Frames(ps) + Frame(p)
  {
    assert (ps + [p])[..|ps|] == ps;
  }

  lemma Associates(a: Bytes, b: Bytes, c: Bytes)
    ensures (a + b) + c == a + (b + c)
  {
  }

  lemma {:induction false} FramesConcat(ps: seq<Payload>, qs: seq<Payload>)
    ensures Frames(ps + qs) == Frames(ps) + Frames(qs)
    decreases |qs|
  {
    hide Frame;
    if qs == [] {
      assert ps + qs == ps;
    } else {
      var front, last := qs[..|qs| - 1], qs[|qs| - 1];
      FramesConcat(ps, front);
      assert ps + qs == (ps + front) + [last];
      FramesSnoc(ps + front, last);
      assert Frames(qs) == Frames(front) + Frame(last);
      Associates(Frames(ps), Frames(front), Frame(last));
    }
  }

  lemma FramesNonempty(ps: seq<Payload>)
    ensures Frames(ps) == [] <==> ps == []
  {
  }

  lemma FramesCons(p: Payload, ps: seq<Payload>)
    ensures Frames([p] + ps) == Frame(p) + Frames(ps)
  {
    FramesConcat([p], ps);
    assert Frames([p]) == Frame(p) by { FramesSnoc([], p); assert [] + [p] == [p]; }
  }

  lemma ParseCons(p: Payload, later: Bytes)
    ensures Parse(Frame(p) + later) == ([p] + Parse(later).0, Parse(later).1)
  {
    var b := Frame(p) + later;
    HeaderRoundTrip(|p|);
    assert b[..HEADER] == Header(|p|);
    assert b[HEADER..HEADER + |p|] == p && b[HEADER + |p|..] == later;
  }

  /** Parsing a stream that starts with whole frames peels exactly those frames off. */
  lemma {:induction false} ParseFrames(ps: seq<Payload>, tail: Bytes)
    ensures Parse(Frames(ps) + tail) == (ps + Parse(tail).0, Parse(tail).1)
    decreases |ps|
  {
    hide Parse, Frame;
    if ps == [] {
      assert Frames(ps) + tail == tail;
      assert ps + Parse(tail).0 == Parse(tail).0;
    } else {
      hide Frames;
      var p, rest := ps[0], ps[1..];
      assert ps == [p] + rest;
      FramesCons(p, rest);
      Associates(Frame(p), Frames(rest), tail);
      ParseCons(p, Frames(rest) + tail);
      ParseFrames(rest, tail);
      assert [p] + (rest + Parse(tail).0) == ps + Parse(tail).0;
    }
  }

  /** The first complete frame of a stream, and what follows it. */
  lemma FirstFrame(b: Bytes) returns (p: Payload, later: Bytes)
    requires !Incomplete(b)
    ensures b == Frame(p) + later
    ensures Parse(b) == ([p] + Parse(later).0, Parse(later).1)
  {
    HeaderValue(b[..HEADER]);
    var n := DecodeLE(b[..HEADER]);
    p, later := b[HEADER..HEADER + n], b[HEADER + n..];
    assert b == b[..HEADER] + p + later;
  }

  /** Nothing is lost: re-encoding what was parsed and appending the tail gives the input back. */
  lemma {:induction false} ParseReassembles(b: Bytes)
    ensures Frames(Parse(b).0) + Parse(b).1 == b
    ensures Incomplete(Parse(b).1)
    decreases |b|
  {
    hide Frames, Frame, Incomplete;
    if Incomplete(b) {
      NothingParsed(b);
    } else {
      hide Parse;
      var p, later := FirstFrame(b);
      ParseReassembles(later);
      FramesCons(p, Parse(later).0);
      Associates(Frame(p), Frames(Parse(later).0), Parse(later).1);
    }
  }

  lemma NothingParsed(b: Bytes)
    requires Incomplete(b)
    ensures Parse(b) == ([], b) && Frames([]) + b == b
  {
  }

  /** The framing is a prefix code: whole frames at the front of a framed stream are its first frames. */
  lemma FramesPrefix(ps: seq<Payload>, qs: seq<Payload>)
    requires Frames(ps) <= Frames(qs)
    ensures ps <= qs
  {
    var tail := Frames(qs)[|Frames(ps)|..];
    assert Frames(ps) + tail == Frames(qs);
    ParseFrames(ps, tail);
    ParseFrames(qs, []);
    assert Frames(qs) + [] == Frames(qs);
    assert qs + Parse([]).0 == qs;
  }

  /** Frames are longer than nothing, so more frames take strictly more bytes. */
  lemma FramesLonger(ps: seq<Payload>, qs: seq<Payload>)
    requires ps <= qs
    ensures Frames(ps) <= Frames(qs)
    ensures |ps| < |qs| ==> |Frames(ps)| + HEADER <= |Frames(qs)|
  {
    var tail := qs[|ps|..];
    assert qs == ps + tail;
    FramesConcat(ps, tail);
    if tail != [] {
      assert Frames(tail) == Frames(tail[..|tail| - 1]) + Frame(tail[|tail| - 1]);
    }
  }

  /** What a framed stream has beyond its earlier frames is its last frame. */
  lemma LastFrame(ps: seq<Payload>, rest: Bytes)
    requires ps != []
    requires Frames(ps) == Frames(ps[..|ps| - 1]) + rest
    ensures rest == Frame(ps[|ps| - 1])
  {
    var earlier, last := Frames(ps[..|ps| - 1]), Frame(ps[|ps| - 1]);
    assert earlier + rest == earlier + last;
    assert (earlier + rest)[|earlier|..] == rest;
    assert (earlier + last)[|earlier|..] == last;
  }

  /** A stream splits into whole frames and an incomplete tail in one way only. */
  lemma ParseUnique(ps: seq<Payload>, tail: Bytes)
    requires Incomplete(tail)
    ensures Parse(Frames(ps) + tail) == (ps, tail)
  {
    ParseFrames(ps, tail);
    assert ps + [] == ps;
  }

  /* ---- what a server answers ---- */

  /** The limit the Asio server puts on its stream buffer, 1 << 20. */
  const LIMIT: nat := 0x10_0000

  type Message = b: Bytes | |b| <= LIMIT

  /** `onRequest`: replaces the request in the buffer by a response, which has to fit the buffer. */
  type Handler = Payload -> Message

  function Replies(h: Handler, ps: seq<Payload>): (rs: seq<Payload>)
    ensures |rs| == |ps|
  {
    seq(|ps|, i requires 0 <= i < |ps| => h(ps[i]))
  }

  lemma RepliesSnoc(h: Handler, ps: seq<Payload>, p: Payload)
    ensures Replies(h, ps + [p]) == Replies(h, ps) + [h(p)]
  {
  }
}
