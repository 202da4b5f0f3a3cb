/** The part of the Protocol Buffers wire format that `WorkMessage` uses: base 128 varints, the two
    32-bit integer kinds the schemas disagree on, and submessages inside a `oneof`.

    The Asio client and the Qt programs declare `job_id` as `uint32`, the Asio server as `int32`; a
    schema is therefore identified by the kind of `job_id`. */
module WireFormat {
  import opened Framing

  datatype Option<+T> = None | Some(value: T)

  const U32: nat := 0x1_0000_0000
  const I31: int := 0x8000_0000

  /* ---- varints ---- */

  function EncodeVarint(n: nat): (b: Bytes)
    ensures b != []
  {
    if n < 128 then [n as Byte] else [(n % 128 + 128) as Byte] + EncodeVarint(n / 128)
  }

  /** Reads a varint of at most `limit` bytes: its value and what follows it. */
  function DecodeVarint(b: Bytes, limit: nat): (r: Option<(nat, Bytes)>)
    ensures r.Some? ==> |r.value.1| < |b|
  {
    if limit == 0 || b == [] then None
    else if b[0] < 128 then Some((b[0] as nat, b[1..]))
    else match DecodeVarint(b[1..], limit - 1)
      case None => None
      case Some((v, rest)) => Some(((b[0] as nat - 128) + 128 * v, rest))
  }

  /** A varint holds 64 bits in at most ten bytes; bits beyond the 64th are dropped. */
  function ReadVarint(b: Bytes): (r: Option<(nat, Bytes)>)
    ensures r.Some? ==> |r.value.1| < |b| && r.value.0 < U64
  {
    match DecodeVarint(b, 10)
    case None => None
    case Some((v, rest)) => Some((v % U64, rest))
  }

  function Pow128(k: nat): nat {
    if k == 0 then 1 else 128 * Pow128(k - 1)
  }

  lemma {:induction false} VarintRoundTrip(n: nat, limit: nat, rest: Bytes)
    requires 0 < limit && n < Pow128(limit)
    ensures |EncodeVarint(n)| <= limit
    ensures DecodeVarint(EncodeVarint(n) + rest, limit) == Some((n, rest))
  {
    var b := EncodeVarint(n) + rest;
    if n < 128 {
      assert b[1..] == rest;
    } else {
      assert Pow128(limit) == 128 * Pow128(limit - 1) && Pow128(0) == 1;
      VarintRoundTrip(n / 128, limit - 1, rest);
      assert b[1..] == EncodeVarint(n / 128) + rest;
    }
  }

  lemma Pow128Bounds()
    ensures Pow128(5) == 0x8_0000_0000 && U64 <= Pow128(10)
  {
    assert Pow128(10) == 128 * (128 * (128 * (128 * (128 * Pow128(5)))));
  }

  lemma ReadBack(n: nat, rest: Bytes)
    requires n < U64
    ensures ReadVarint(EncodeVarint(n) + rest) == Some((n, rest))
    ensures |EncodeVarint(n)| <= 10
    ensures n < U32 ==> |EncodeVarint(n)| <= 5
  {
    hide EncodeVarint, DecodeVarint;
    Pow128Bounds();
    VarintRoundTrip(n, 10, rest);
    if n < U32 {
      VarintRoundTrip(n, 5, rest);
    }
  }

  /** Every byte but the last is marked, and none is wasted. */
  lemma {:induction false} VarintIsMinimal(n: nat)
    ensures var b := EncodeVarint(n);
            && (forall i :: 0 <= i < |b| - 1 ==> b[i] >= 128) && b[|b| - 1] < 128
            && (n > 0 ==> b[|b| - 1] > 0)
  {
    if n >= 128 {
      VarintIsMinimal(n / 128);
    }
  }

  /** Least significant bits first. */
  lemma VarintOfTwoBytes(low: nat, high: nat)
    requires low < 128 && 0 < high < 128
    ensures EncodeVarint(128 * high + low) == [(128 + low) as Byte, high as Byte]
  {
    assert EncodeVarint(high) == [high as Byte];
  }

  /* ---- the two kinds of 32-bit integers ---- */

  datatype Kind = UInt32 | Int32

  predicate InRange(k: Kind, v: int) {
    match k
    case UInt32 => 0 <= v < U32
    case Int32 => -I31 <= v < I31
  }

  /** A negative int32 is sign-extended to 64 bits on the wire. */
  function ToWire(k: Kind, v: int): (w: nat)
    requires InRange(k, v)
  {
    if v < 0 then v + U64 else v
  }

  /** Either kind keeps the low 32 bits and reads them its own way. */
  function FromWire(k: Kind, w: nat): (v: int)
    ensures InRange(k, v)
  {
    var low := w % U32;
    if k.Int32? && low >= I31 then low - U32 else low
  }

  /** What a value of one kind reads as under another. */
  function Reinterpret(k: Kind, v: int): int {
    FromWire(k, v % U32)
  }

  lemma KindsAgreeModulo(from: Kind, to: Kind, v: int)
    requires InRange(from, v)
    ensures ToWire(from, v) < U64
    ensures FromWire(to, ToWire(from, v)) == Reinterpret(to, v)
    ensures Reinterpret(from, v) == v
    ensures Reinterpret(from, Reinterpret(to, v)) == v
  {
    assert U64 == U32 * U32;
    assert (v + U32 * U32) % U32 == v % U32;
  }

  /** What a reader of 64-bit integers makes of a varint. */
  function AsInt64(w: nat): int { if w < I63 then w else w - U64 }

  /** Values are sign-extended to 64 bits, so such a reader sees the value itself. */
  lemma ToWireIsSignExtended(k: Kind, v: int)
    requires InRange(k, v)
    ensures AsInt64(ToWire(k, v)) == v
  {
  }

  /* ---- fields ---- */

  datatype Field = Varint(num: nat, value: nat) | Len(num: nat, data: Bytes) | Fixed(num: nat)

  /** Splits a message into its fields; None when it is malformed. */
  function Fields(b: Bytes): Option<seq<Field>>
    decreases |b|
  {
    if b == [] then Some([])
    else match ReadVarint(b)
      case None => None
      case Some((tag, rest)) =>
        if tag < 8 || tag >= U32 then None else FieldAfter(tag / 8, tag % 8, rest)
  }

  function FieldAfter(num: nat, wireType: nat, b: Bytes): Option<seq<Field>>
    decreases |b|, 1
  {
    match wireType
    case 0 =>
      (match ReadVarint(b)
       case None => None
       case Some((v, rest)) => Prepend(Varint(num, v), Fields(rest)))
    case 1 => if |b| < 8 then None else Prepend(Fixed(num), Fields(b[8..]))
    case 2 =>
      (match ReadVarint(b)
       case None => None
       case Some((n, rest)) => if |rest| < n then None else Prepend(Len(num, rest[..n]), Fields(rest[n..])))
    case 5 => if |b| < 4 then None else Prepend(Fixed(num), Fields(b[4..]))
    case _ => None
  }

  function Prepend(f: Field, fs: Option<seq<Field>>): Option<seq<Field>> {
    match fs
    case None => None
    case Some(more) => Some([f] + more)
  }

  /* ---- messages ---- */

  datatype WorkMessage =
    | Unset
    | Request(jobId: int, workload: int)
    | Response(jobId: int, isComplete: bool)

  predicate Valid(k: Kind, m: WorkMessage) {
    match m
    case Unset => true
    case Request(id, load) => InRange(k, id) && InRange(Int32, load)
    case Response(id, _) => InRange(k, id)
  }

  /** A scalar with its default value is not written. */
  function Scalar(num: nat, v: nat): Bytes {
    if v == 0 then [] else EncodeVarint(num * 8) + EncodeVarint(v)
  }

  function Submessage(num: nat, body: Bytes): Bytes {
    EncodeVarint(num * 8 + 2) + EncodeVarint(|body|) + body
  }

  function Body(k: Kind, m: WorkMessage): Bytes
    requires Valid(k, m) && !m.Unset?
  {
    Scalar(1, ToWire(k, m.jobId))
    + Scalar(2, if m.Request? then ToWire(Int32, m.workload) else if m.isComplete then 1 else 0)
  }

  /** SerializeToOstream, SerializeToArray. */
  function Encode(k: Kind, m: WorkMessage): Bytes
    requires Valid(k, m)
  {
    match m
    case Unset => []
    case Request(_, _) => Submessage(1, Body(k, m))
    case Response(_, _) => Submessage(2, Body(k, m))
  }

  /** An unknown field changes nothing. */
  function MergeScalar(k: Kind, m: WorkMessage, f: Field): (r: WorkMessage)
    requires !m.Unset?
    ensures !r.Unset? && (Valid(k, m) ==> Valid(k, r))
  {
    match f
    case Varint(num, v) =>
      if num == 1 then m.(jobId := FromWire(k, v))
      else if num == 2 && m.Request? then m.(workload := FromWire(Int32, v))
      else if num == 2 then m.(isComplete := v != 0)
      else m
    case _ => m
  }

  /** Later occurrences of a field win. */
  function MergeScalars(k: Kind, m: WorkMessage, fs: seq<Field>): (r: WorkMessage)
    requires !m.Unset?
    ensures Valid(k, m) ==> Valid(k, r)
    decreases |fs|
  {
    if fs == [] then m else MergeScalars(k, MergeScalar(k, m, fs[0]), fs[1..])
  }

  /** Setting one member of the `oneof` clears the other; setting the same one merges. */
  function MergeMessages(k: Kind, m: WorkMessage, fs: seq<Field>): (r: Option<WorkMessage>)
    ensures Valid(k, m) && r.Some? ==> Valid(k, r.value)
    decreases |fs|
  {
    if fs == [] then Some(m)
    else match fs[0]
      case Len(num, data) =>
        if num == 1 || num == 2 then
          (match Fields(data)
           case None => None
           case Some(inner) =>
             var start := if num == 1 then (if m.Request? then m else Request(0, 0))
                          else (if m.Response? then m else Response(0, false));
             MergeMessages(k, MergeScalars(k, start, inner), fs[1..]))
        else MergeMessages(k, m, fs[1..])
      case _ => MergeMessages(k, m, fs[1..])
  }

  /** ParseFromIstream, ParseFromArray. */
  function Decode(k: Kind, b: Bytes): (r: Option<WorkMessage>)
    ensures r.Some? ==> Valid(k, r.value)
  {
    match Fields(b)
    case None => None
    case Some(fs) => MergeMessages(k, Unset, fs)
  }

  /* ---- round trips ---- */

  lemma FieldsOfScalar(num: nat, v: nat, rest: Bytes)
    requires 1 <= num <= 2 && v < U64
    ensures Fields(Scalar(num, v) + rest) == if v == 0 then Fields(rest) else Prepend(Varint(num, v), Fields(rest))
    ensures |Scalar(num, v)| <= 11
    ensures v < U32 ==> |Scalar(num, v)| <= 6
    ensures v != 0 ==> |Scalar(num, v)| == 1 + |EncodeVarint(v)|
  {
    if v == 0 {
      assert Scalar(num, v) + rest == rest;
    } else {
      var b := Scalar(num, v) + rest;
      assert b == EncodeVarint(num * 8) + (EncodeVarint(v) + rest);
      ReadBack(num * 8, EncodeVarint(v) + rest);
      ReadBack(v, rest);
    }
  }

  lemma FieldsOfSubmessage(num: nat, body: Bytes)
    requires 1 <= num <= 2 && |body| < 128
    ensures Fields(Submessage(num, body)) == Some([Len(num, body)])
    ensures |Submessage(num, body)| == 2 + |body|
  {
    SubmessageFirst(num, body, []);
    assert Submessage(num, body) + [] == Submessage(num, body);
    assert Fields([]) == Some([]);
    assert [Len(num, body)] + [] == [Len(num, body)];
  }

  /** A submessage with any number, in front of whatever follows. */
  lemma SubmessageFirst(num: nat, body: Bytes, rest: Bytes)
    requires 1 <= num < 0x2000_0000 && |body| < U64
    ensures Fields(Submessage(num, body) + rest) == Prepend(Len(num, body), Fields(rest))
  {
    hide EncodeVarint, ReadVarint;
    var b := Submessage(num, body) + rest;
    var tag, size := EncodeVarint(num * 8 + 2), EncodeVarint(|body|);
    ReadBack(num * 8 + 2, size + (body + rest));
    ReadBack(|body|, body + rest);
    assert b == tag + (size + (body + rest));
    assert (body + rest)[..|body|] == body && (body + rest)[|body|..] == rest;
    assert FieldAfter(num, 2, size + (body + rest)) == Prepend(Len(num, body), Fields(rest));
  }

  /** The scalars of a message, as its fields list them. */
  lemma FieldsOfBody(k: Kind, m: WorkMessage)
    requires Valid(k, m) && !m.Unset?
    ensures var id, second := ToWire(k, m.jobId),
                              if m.Request? then ToWire(Int32, m.workload) else if m.isComplete then 1 else 0;
            Fields(Body(k, m)) == Some(ScalarFields(1, id) + ScalarFields(2, second))
    ensures |Body(k, m)| <= 22
  {
    var id := ToWire(k, m.jobId);
    var second := if m.Request? then ToWire(Int32, m.workload) else if m.isComplete then 1 else 0;
    KindsAgreeModulo(k, k, m.jobId);
    if m.Request? {
      KindsAgreeModulo(Int32, Int32, m.workload);
    }
    FieldsOfScalar(1, id, Scalar(2, second));
    FieldsOfLastScalar(2, second);
    assert [] + ScalarFields(2, second) == ScalarFields(2, second);
  }

  function ScalarFields(num: nat, v: nat): seq<Field> {
    if v == 0 then [] else [Varint(num, v)]
  }

  lemma FieldsOfLastScalar(num: nat, v: nat)
    requires 1 <= num <= 2 && v < U64
    ensures Fields(Scalar(num, v)) == Some(ScalarFields(num, v))
    ensures |Scalar(num, v)| <= 11
  {
    hide EncodeVarint;
    FieldsOfScalar(num, v, []);
    assert Scalar(num, v) + [] == Scalar(num, v);
    assert Fields([]) == Some([]);
    assert [Varint(num, v)] + [] == [Varint(num, v)];
  }

  /** The message a schema with another kind of job id reads. */
  function Convert(k: Kind, m: WorkMessage): WorkMessage {
    match m
    case Unset => Unset
    case Request(id, load) => Request(Reinterpret(k, id), load)
    case Response(id, done) => Response(Reinterpret(k, id), done)
  }

  /** Encoding under one schema and decoding under another changes a message exactly by reading its
      job id modulo 2^32; under the same schema it changes nothing. */
  lemma DecodeEncodeAcross(from: Kind, to: Kind, m: WorkMessage)
    requires Valid(from, m)
    ensures Decode(to, Encode(from, m)) == Some(Convert(to, m))
    ensures Convert(from, m) == m
  {
    if !m.Unset? {
      var body := Body(from, m);
      FieldsOfBody(from, m);
      FieldsOfSubmessage(if m.Request? then 1 else 2, body);
      KindsAgreeModulo(from, to, m.jobId);
      if m.Request? {
        KindsAgreeModulo(Int32, Int32, m.workload);
      }
      var start := if m.Request? then Request(0, 0) else Response(0, false);
      MergeRestores(from, to, m, start);
      var f := Len(if m.Request? then 1 else 2, body);
      assert [f][1..] == [];
      assert MergeMessages(to, Convert(to, m), []) == Some(Convert(to, m));
    }
  }

  lemma MergeRestores(from: Kind, to: Kind, m: WorkMessage, start: WorkMessage)
    requires Valid(from, m) && !m.Unset?
    requires start == if m.Request? then Request(0, 0) else Response(0, false)
    ensures Fields(Body(from, m)).Some? && MergeScalars(to, start, Fields(Body(from, m)).value) == Convert(to, m)
  {
    FieldsOfBody(from, m);
    KindsAgreeModulo(from, to, m.jobId);
    if m.Request? {
      KindsAgreeModulo(Int32, Int32, m.workload);
    }
    var id := ToWire(from, m.jobId);
    var second := if m.Request? then ToWire(Int32, m.workload) else if m.isComplete then 1 else 0;
    Merge(to, start, ScalarFields(1, id), ScalarFields(2, second));
  }

  /** Merging field by field. */
  lemma Merge(k: Kind, m: WorkMessage, fs: seq<Field>, gs: seq<Field>)
    requires !m.Unset? && |fs| <= 1 && |gs| <= 1
    ensures var m' := if fs == [] then m else MergeScalar(k, m, fs[0]);
            MergeScalars(k, m, fs + gs) == if gs == [] then m' else MergeScalar(k, m', gs[0])
  {
    var m' := if fs == [] then m else MergeScalar(k, m, fs[0]);
    assert MergeScalars(k, m', gs) == if gs == [] then m' else MergeScalar(k, m', gs[0]) by {
      if gs != [] {
        assert gs[1..] == [];
        assert MergeScalars(k, MergeScalar(k, m', gs[0]), []) == MergeScalar(k, m', gs[0]);
      }
    }
    if fs == [] {
      assert fs + gs == gs;
    } else {
      assert (fs + gs)[1..] == gs;
    }
  }

  /** A response always says something, so it is never empty, and no message comes near the limit. */
  lemma MessageSizes(k: Kind, m: WorkMessage)
    requires Valid(k, m)
    ensures m.Request? && k.UInt32? ==> 2 <= |Encode(k, m)| <= 19
    ensures m.Response? && m.isComplete ==> 4 <= |Encode(k, m)| <= 15
    ensures |Encode(k, m)| <= 24
  {
    if !m.Unset? {
      FieldsOfBody(k, m);
      FieldsOfSubmessage(if m.Request? then 1 else 2, Body(k, m));
      KindsAgreeModulo(k, k, m.jobId);
      FieldsOfScalar(1, ToWire(k, m.jobId), []);
      if m.Request? {
        KindsAgreeModulo(Int32, Int32, m.workload);
        FieldsOfScalar(2, ToWire(Int32, m.workload), []);
      } else {
        FieldsOfScalar(2, 1, []);
      }
    }
  }

  /* ---- what is on the wire ---- */

  /** The last value of a field, read as a 64-bit integer; 0 if there is none. */
  function ReadField(fs: seq<Field>, num: nat): int {
    if fs == [] then 0
    else
      var f := fs[|fs| - 1];
      if f.Varint? && f.num == num then AsInt64(f.value) else ReadField(fs[..|fs| - 1], num)
  }

  /** The bytes of a message: its number in the schema with wire type 2, a length, and a body whose
      fields 1 and 2 hold the values, which even a reader of 64-bit integers sees as they are. */
  lemma EncodedAs(k: Kind, m: WorkMessage)
    requires Valid(k, m) && !m.Unset?
    ensures |Body(k, m)| < 128
    ensures Encode(k, m) == [if m.Request? then 0x0A else 0x12, |Body(k, m)| as Byte] + Body(k, m)
    ensures Fields(Body(k, m)).Some?
    ensures var fs := Fields(Body(k, m)).value;
            ReadField(fs, 1) == m.jobId
            && ReadField(fs, 2) == if m.Request? then m.workload else if m.isComplete then 1 else 0
  {
    hide Body, Fields, ReadField;
    FieldsOfBody(k, m);
    ToWireIsSignExtended(k, m.jobId);
    if m.Request? {
      ToWireIsSignExtended(Int32, m.workload);
    }
    ReadTwoFields(ToWire(k, m.jobId), if m.Request? then ToWire(Int32, m.workload) else if m.isComplete then 1 else 0);
    SubmessageStarts(if m.Request? then 1 else 2, Body(k, m));
  }

  lemma SubmessageStarts(num: nat, body: Bytes)
    requires 1 <= num <= 2 && |body| < 128
    ensures Submessage(num, body) == [if num == 1 then 0x0A else 0x12, |body| as Byte] + body
  {
  }

  lemma ReadTwoFields(v: nat, w: nat)
    ensures ReadField(ScalarFields(1, v) + ScalarFields(2, w), 1) == AsInt64(v)
    ensures ReadField(ScalarFields(1, v) + ScalarFields(2, w), 2) == AsInt64(w)
  {
    var fs := ScalarFields(1, v) + ScalarFields(2, w);
    if w != 0 {
      assert fs[..|fs| - 1] == ScalarFields(1, v);
    } else {
      assert fs == ScalarFields(1, v);
    }
    if v != 0 {
      assert ScalarFields(1, v)[..0] == [];
    }
  }

  /** A body is its two scalars, under tags 8 and 16. */
  lemma BodyBytes(k: Kind, m: WorkMessage)
    requires Valid(k, m) && !m.Unset?
    ensures var id := if m.jobId < 0 then m.jobId + U64 else m.jobId;
            var second := if m.Response? then (if m.isComplete then 1 else 0)
                          else if m.workload < 0 then m.workload + U64 else m.workload;
            Body(k, m) == (if id == 0 then [] else [0x08] + EncodeVarint(id))
                        + (if second == 0 then [] else [0x10] + EncodeVarint(second))
  {
  }

  /** A varint that does not end within ten bytes is malformed. */
  lemma LongVarintIsMalformed(b: Bytes)
    requires |b| >= 10 && forall i :: 0 <= i < 10 ==> b[i] >= 128
    ensures ReadVarint(b) == None
  {
    UnfinishedVarint(b, 10);
  }

  lemma {:induction false} UnfinishedVarint(b: Bytes, limit: nat)
    requires |b| >= limit && forall i :: 0 <= i < limit ==> b[i] >= 128
    ensures DecodeVarint(b, limit) == None
  {
    if limit > 0 {
      UnfinishedVarint(b[1..], limit - 1);
    }
  }

  /** No message parses before its last byte is there. */
  lemma NoProperPrefixParses(from: Kind, to: Kind, m: WorkMessage, n: nat)
    requires Valid(from, m) && 0 < n < |Encode(from, m)|
    ensures Decode(to, Encode(from, m)[..n]) == None
  {
    hide Body, MergeMessages, Submessage;
    EncodedAs(from, m);
    CutShort(Encode(from, m), if m.Request? then 0x0A else 0x12, Body(from, m), n);
  }

  lemma CutShort(b: Bytes, tag: Byte, body: Bytes, n: nat)
    requires (tag == 0x0A || tag == 0x12) && |body| < 128 && b == [tag, |body| as Byte] + body && 0 < n < |b|
    ensures Fields(b[..n]) == None
  {
    var c := b[..n];
    assert DecodeVarint(c, 10) == Some((tag as nat, c[1..]));
    if n > 1 {
      assert c[1] == |body| as Byte && c[1..][0] == c[1];
      assert DecodeVarint(c[1..], 10) == Some((|body|, c[1..][1..]));
    } else {
      assert c[1..] == [];
    }
  }

  /* ---- concatenation ---- */

  /** What a later message changes of an earlier one. */
  function Overlay(m: WorkMessage, later: WorkMessage): WorkMessage {
    match (m, later)
    case (_, Unset) => m
    case (Request(id, load), Request(id', load')) =>
      Request(if id' == 0 then id else id', if load' == 0 then load else load')
    case (Response(id, done), Response(id', done')) => Response(if id' == 0 then id else id', done || done')
    case _ => later
  }

  lemma MergeOverlays(k: Kind, m: WorkMessage, later: WorkMessage)
    requires Valid(k, later) && !later.Unset? && !m.Unset? && (m.Request? <==> later.Request?)
    ensures Fields(Body(k, later)).Some?
    ensures MergeScalars(k, m, Fields(Body(k, later)).value) == Overlay(m, later)
  {
    FieldsOfBody(k, later);
    KindsAgreeModulo(k, k, later.jobId);
    if later.Request? {
      KindsAgreeModulo(Int32, Int32, later.workload);
    }
    var id := ToWire(k, later.jobId);
    var second := if later.Request? then ToWire(Int32, later.workload) else if later.isComplete then 1 else 0;
    Merge(k, m, ScalarFields(1, id), ScalarFields(2, second));
  }

  lemma OneMoreMessage(k: Kind, m: WorkMessage, later: WorkMessage)
    requires Valid(k, m) && Valid(k, later) && !later.Unset?
    ensures MergeMessages(k, m, [Len(if later.Request? then 1 else 2, Body(k, later))]) == Some(Overlay(m, later))
  {
    hide Fields, MergeScalars, Body;
    var f := Len(if later.Request? then 1 else 2, Body(k, later));
    var start := if later.Request? then (if m.Request? then m else Request(0, 0))
                 else (if m.Response? then m else Response(0, false));
    MergeOverlays(k, start, later);
    assert [f][1..] == [];
    assert MergeMessages(k, Overlay(start, later), []) == Some(Overlay(start, later));
  }

  /** Two messages one after the other read as the first with what the second sets, as the format has
      it: the other member of the `oneof` replaces the first, the same one merges into it. */
  lemma DecodeConcatenation(k: Kind, m: WorkMessage, later: WorkMessage)
    requires Valid(k, m) && Valid(k, later)
    ensures Decode(k, Encode(k, m) + Encode(k, later)) == Some(Overlay(m, later))
  {
    hide Fields, MergeMessages, Body, Submessage;
    var b := Encode(k, m) + Encode(k, later);
    if later.Unset? {
      assert b == Encode(k, m);
      DecodeEncodeAcross(k, k, m);
    } else if m.Unset? {
      assert b == Encode(k, later);
      DecodeEncodeAcross(k, k, later);
    } else {
      FieldsOfTwo(k, m, later);
      var f, g := Len(if m.Request? then 1 else 2, Body(k, m)), Len(if later.Request? then 1 else 2, Body(k, later));
      OneMoreMessage(k, Unset, m);
      OneMoreMessage(k, m, later);
      MergeInTwo(k, Unset, [f], [g]);
      assert [f] + [g] == [f, g];
    }
  }

  lemma FieldsOfTwo(k: Kind, m: WorkMessage, later: WorkMessage)
    requires Valid(k, m) && Valid(k, later) && !m.Unset? && !later.Unset?
    ensures Fields(Encode(k, m) + Encode(k, later))
         == Some([Len(if m.Request? then 1 else 2, Body(k, m)), Len(if later.Request? then 1 else 2, Body(k, later))])
  {
    hide Fields, Body, Submessage;
    var f, g := Len(if m.Request? then 1 else 2, Body(k, m)), Len(if later.Request? then 1 else 2, Body(k, later));
    FieldsOfBody(k, m);
    FieldsOfBody(k, later);
    SubmessageFirst(f.num, f.data, Encode(k, later));
    FieldsOfSubmessage(g.num, g.data);
    assert [f] + [g] == [f, g];
  }

  lemma {:induction false} MergeInTwo(k: Kind, m: WorkMessage, fs: seq<Field>, gs: seq<Field>)
    requires MergeMessages(k, m, fs).Some?
    ensures MergeMessages(k, m, fs + gs) == MergeMessages(k, MergeMessages(k, m, fs).value, gs)
    decreases |fs|
  {
    hide Fields, MergeScalars;
    if fs == [] {
      assert fs + gs == gs;
    } else {
      assert (fs + gs)[0] == fs[0] && (fs + gs)[1..] == fs[1..] + gs;
      var f := fs[0];
      if f.Len? && (f.num == 1 || f.num == 2) {
        var start := if f.num == 1 then (if m.Request? then m else Request(0, 0))
                     else (if m.Response? then m else Response(0, false));
        MergeInTwo(k, MergeScalars(k, start, Fields(f.data).value), fs[1..], gs);
      } else {
        MergeInTwo(k, m, fs[1..], gs);
      }
    }
  }

  /** Whatever two varints a body holds: integers keep their low 32 bits, a bool is true unless zero. */
  lemma DecodeScalars(k: Kind, request: bool, v: nat, w: nat)
    requires v < U64 && w < U64
    ensures Decode(k, Submessage(if request then 1 else 2, Scalar(1, v) + Scalar(2, w)))
         == Some(if request then Request(FromWire(k, v), FromWire(Int32, w)) else Response(FromWire(k, v), w != 0))
  {
    hide Fields, Scalar, Submessage;
    var num, body := if request then 1 else 2, Scalar(1, v) + Scalar(2, w);
    var m := if request then Request(0, 0) else Response(0, false);
    FieldsOfScalar(1, v, Scalar(2, w));
    FieldsOfLastScalar(2, w);
    assert [] + ScalarFields(2, w) == ScalarFields(2, w);
    FieldsOfSubmessage(num, body);
    Merge(k, m, ScalarFields(1, v), ScalarFields(2, w));
    var f := Len(num, body);
    assert [f][1..] == [];
    var r := MergeScalars(k, m, Fields(body).value);
    assert MergeMessages(k, r, []) == Some(r);
  }

  /** A field of fixed size is skipped whole. */
  lemma FixedFieldIsIgnored(k: Kind, m: WorkMessage, num: nat, wide: bool, data: Bytes)
    requires Valid(k, m) && 1 <= num < 0x2000_0000 && |data| == if wide then 8 else 4
    ensures Decode(k, (EncodeVarint(num * 8 + (if wide then 1 else 5)) + data) + Encode(k, m)) == Some(m)
  {
    hide EncodeVarint, ReadVarint, Encode, MergeScalars;
    var tag, rest := num * 8 + (if wide then 1 else 5), Encode(k, m);
    var b := (EncodeVarint(tag) + data) + rest;
    assert b == EncodeVarint(tag) + (data + rest);
    ReadBack(tag, data + rest);
    assert (data + rest)[|data|..] == rest;
    DecodeEncodeAcross(k, k, m);
    var fs := Fields(rest).value;
    assert Fields(b) == Some([Fixed(num)] + fs);
    assert ([Fixed(num)] + fs)[1..] == fs;
  }

  /** A field no schema knows changes nothing. */
  lemma UnknownFieldIsIgnored(k: Kind, m: WorkMessage, num: nat, data: Bytes)
    requires Valid(k, m) && 2 < num < 0x2000_0000 && |data| < U64
    ensures Decode(k, Submessage(num, data) + Encode(k, m)) == Some(m)
  {
    hide Body, Submessage, MergeScalars;
    SubmessageFirst(num, data, Encode(k, m));
    DecodeEncodeAcross(k, k, m);
    var fs := Fields(Encode(k, m)).value;
    assert ([Len(num, data)] + fs)[1..] == fs;
  }
}
