/** What the programs exchange: the requests `sendRequest` serialises and the response `onRequest`
    makes of whatever it finds in the buffer. */
module Service {
  import opened Framing
  import opened WireFormat

  /** The serialised request of a client; `load` is a uint32_t stored in an int32 field. */
  function RequestBytes(id: nat, load: nat): (b: Payload)
    requires id < U32
  {
    var m := Request(id, Reinterpret(Int32, load));
    MessageSizes(UInt32, m);
    Encode(UInt32, m)
  }

  /** Requests numbered one after the other from `first`, as the benchmark loops number them. */
  ghost predicate Numbered(ps: seq<Payload>, first: nat) {
    forall i :: 0 <= i < |ps| ==> ps[i] == RequestBytes((first + i) % U32, 0)
  }

  lemma NextIsNumbered(ps: seq<Payload>, first: nat)
    requires Numbered(ps, first)
    ensures Numbered(ps + [RequestBytes((first + |ps|) % U32, 0)], first)
  {
  }

  /** What parsing leaves behind of a message that does not parse, as functions of its bytes: the
      number in the job id's field, and how much of the message stays in a stream. */
  datatype Malformed = Malformed(salvage: Payload -> nat, unread: Payload -> nat)

  /** How much of a stream a parser fetches at a time. */
  const BLOCK: nat := 8192

  /** `requestMsg.work_request().job_id()`. The result of parsing is ignored: a message without a work
      request reads as id 0, and a malformed one as whatever parsing left in the field. */
  function JobId(k: Kind, on: Malformed, b: Payload): (id: int)
    ensures InRange(k, id)
  {
    match Decode(k, b)
    case Some(Request(id, _)) => id
    case Some(_) => 0
    case None => FromWire(k, on.salvage(b))
  }

  /** The response as `onRequest` serialises it. */
  function Reply(k: Kind, on: Malformed, b: Payload): Message {
    var m := Response(JobId(k, on, b), true);
    MessageSizes(k, m);
    Encode(k, m)
  }

  /** Parsing reads a stream to its end, unless it gives up; what it had not fetched then, never
      anything of the first block, is still there. (A request above the buffer limit never gets here.) */
  function Unread(k: Kind, on: Malformed, b: Payload): (u: Bytes)
    ensures |u| <= LIMIT - BLOCK && |u| <= |b| && u == b[|b| - |u|..]
    ensures Decode(k, b).Some? || |b| <= BLOCK ==> u == []
  {
    if Decode(k, b).Some? || |b| <= BLOCK || |b| > LIMIT then []
    else if on.unread(b) <= |b| - BLOCK then b[|b| - on.unread(b)..]
    else b[BLOCK..]
  }

  /** `onRequest` on a stream buffer: the response is appended to what parsing has left there. */
  function OnRequest(k: Kind, on: Malformed, b: Payload): Message {
    MessageSizes(k, Response(JobId(k, on, b), true));
    Unread(k, on, b) + Reply(k, on, b)
  }

  /** A server whose schema declares job ids of kind `k`: the Asio server has a stream buffer, the Qt
      servers overwrite an array. */
  function Serve(k: Kind, on: Malformed): Handler {
    b => OnRequest(k, on, b)
  }

  function ServeArray(k: Kind, on: Malformed): Handler {
    b => Reply(k, on, b)
  }

  /** What a request of the client's schema says, the load being an int32 there. */
  predicate Carries(b: Payload, id: nat, load: nat) {
    Decode(UInt32, b) == Some(Request(id, if load < I31 then load else load - U32))
  }

  /** A request carries the id and the load it was made from. */
  lemma RequestCarriesIdAndLoad(id: nat, load: nat)
    requires id < U32 && load < U32
    ensures Carries(RequestBytes(id, load), id, load)
  {
    hide Decode, Encode;
    DecodeEncodeAcross(UInt32, UInt32, Request(id, Reinterpret(Int32, load)));
  }

  /** A message that parses without a work request is answered with id 0. */
  lemma NoWorkRequestIsIdZero(k: Kind, on: Malformed, b: Payload)
    requires Decode(k, b).Some? && !Decode(k, b).value.Request?
    ensures Decode(UInt32, OnRequest(k, on, b)) == Some(Response(0, true))
    ensures Decode(UInt32, Reply(k, on, b)) == Some(Response(0, true))
  {
    hide Decode, Encode;
    DecodeEncodeAcross(k, UInt32, Response(0, true));
    assert OnRequest(k, on, b) == [] + Reply(k, on, b) == Reply(k, on, b);
  }

  /** Whatever the server's schema, the client reads its own id back: as int32 the id may be negative
      on the server, and travels back sign-extended. */
  lemma JobIdSurvives(k: Kind, on: Malformed, id: nat, load: nat)
    requires id < U32
    ensures JobId(k, on, RequestBytes(id, load)) == if k.Int32? && id >= I31 then id - U32 else id
    ensures OnRequest(k, on, RequestBytes(id, load)) == Reply(k, on, RequestBytes(id, load))
    ensures Decode(UInt32, Reply(k, on, RequestBytes(id, load))) == Some(Response(id, true))
  {
    DecodeEncodeAcross(UInt32, k, Request(id, Reinterpret(Int32, load)));
    var seen := JobId(k, on, RequestBytes(id, load));
    assert seen == Reinterpret(k, id);
    KindsAgreeModulo(UInt32, k, id);
    DecodeEncodeAcross(k, UInt32, Response(seen, true));
    assert Unread(k, on, RequestBytes(id, load)) == [];
  }

  /** Requests are never empty, so a length of zero announces none of them; responses neither, whatever
      bytes came. Only what is left of a malformed message can make a response long. */
  lemma MessagesAreShortAndNonempty(k: Kind, on: Malformed, id: nat, load: nat, b: Payload)
    requires id < U32
    ensures 2 <= |RequestBytes(id, load)| <= 19
    ensures 4 <= |Reply(k, on, b)| <= 15
    ensures |OnRequest(k, on, b)| == |Unread(k, on, b)| + |Reply(k, on, b)|
    ensures Decode(k, b).Some? || |b| <= BLOCK ==> 4 <= |OnRequest(k, on, b)| <= 15
  {
    MessageSizes(UInt32, Request(id, Reinterpret(Int32, load)));
    MessageSizes(k, Response(JobId(k, on, b), true));
  }

  /** The response stands alone in the stream if and only if parsing has left nothing there, as it does
      whenever the message parses or fits one block. */
  lemma ResponseIsAloneIff(k: Kind, on: Malformed, b: Payload)
    ensures OnRequest(k, on, b) == Reply(k, on, b) <==>
            (Decode(k, b).Some? || |b| <= BLOCK || |b| > LIMIT || on.unread(b) == 0)
  {
    hide Decode, Encode, Reply;
    assert OnRequest(k, on, b) == Reply(k, on, b) ==> |Unread(k, on, b)| == 0;
  }

  /** It happens: of a malformed message of 8193 bytes the last can be left in front of the response,
      which the client then cannot read; the array of a Qt server has no such trouble. */
  lemma LeftoverSpoilsResponse(k: Kind, salvage: Payload -> nat)
    ensures var on := Malformed(salvage, b => |b|);
            var b := seq(8193, i => 0);
            && Decode(k, b) == None
            && OnRequest(k, on, b) == [0] + Reply(k, on, b)
            && Decode(UInt32, OnRequest(k, on, b)) == None
  {
    hide Encode;
    var b: Payload := seq(8193, i => 0);
    StartsWithZero(k, b);
    var on := Malformed(salvage, (p: Payload) => |p|);
    assert b[BLOCK..] == [0];
    StartsWithZero(UInt32, [0] + Reply(k, on, b));
  }

  lemma StartsWithZero(k: Kind, b: Bytes)
    requires b != [] && b[0] == 0
    ensures Decode(k, b) == None
  {
    assert DecodeVarint(b, 10) == Some((0, b[1..]));
  }

  /** All four bounds are reached, the largest response because of the schema mismatch. */
  lemma SizesAreTight(on: Malformed)
    ensures |RequestBytes(0, 0)| == 2
    ensures |RequestBytes(U32 - 1, U32 - 1)| == 19
    ensures |Reply(Int32, on, RequestBytes(0, 0))| == 4
    ensures |Reply(Int32, on, RequestBytes(U32 - 1, 0))| == 15
    ensures |Reply(UInt32, on, RequestBytes(U32 - 1, 0))| == 10
  {
    hide Encode, Decode, JobId;
    JobIdSurvives(Int32, on, 0, 0);
    JobIdSurvives(Int32, on, U32 - 1, 0);
    JobIdSurvives(UInt32, on, U32 - 1, 0);
    VarintSizes();
    BodySize(UInt32, Request(0, 0), 0, 0);
    BodySize(UInt32, Request(U32 - 1, -1), 5, 10);
    BodySize(Int32, Response(0, true), 0, 1);
    BodySize(Int32, Response(-1, true), 10, 1);
    BodySize(UInt32, Response(U32 - 1, true), 5, 1);
  }

  lemma VarintSizes()
    ensures VarintSize(0) == 0 && VarintSize(1) == 1
    ensures VarintSize(0xFFFF_FFFF) == 5
    ensures VarintSize(0xFFFF_FFFF_FFFF_FFFF) == 10
  {
    assert VarintSize(0xFFFF_FFFF_FFFF_FFFF) == 1 + (1 + (1 + (1 + (1 + VarintSize(0x1FFF_FFFF)))));
    assert VarintSize(0x1FFF_FFFF) == 5;
  }

  lemma BodySize(k: Kind, m: WorkMessage, first: nat, second: nat)
    requires WireFormat.Valid(k, m) && !m.Unset?
    requires first == VarintSize(ToWire(k, m.jobId))
    requires second == VarintSize(if m.Request? then ToWire(Int32, m.workload) else if m.isComplete then 1 else 0)
    ensures |Encode(k, m)| == 2 + (if first == 0 then 0 else 1 + first) + (if second == 0 then 0 else 1 + second)
  {
    var v, w := ToWire(k, m.jobId), if m.Request? then ToWire(Int32, m.workload) else if m.isComplete then 1 else 0;
    KindsAgreeModulo(k, k, m.jobId);
    if m.Request? {
      KindsAgreeModulo(Int32, Int32, m.workload);
    }
    FieldsOfBody(k, m);
    FieldsOfSubmessage(if m.Request? then 1 else 2, Body(k, m));
    FieldsOfScalar(1, v, []);
    FieldsOfScalar(2, w, []);
    VarintSizeIsSize(v);
    VarintSizeIsSize(w);
  }

  /** Bytes of a varint, counting a zero as the nothing it is in a scalar field. */
  function VarintSize(n: nat): nat {
    if n == 0 then 0 else 1 + VarintSize(n / 128)
  }

  lemma {:induction false} VarintSizeIsSize(n: nat)
    ensures n > 0 ==> |EncodeVarint(n)| == VarintSize(n)
  {
    if n >= 128 {
      VarintSizeIsSize(n / 128);
    }
  }

  /* ---- in place ---- */

  /** A buffer handed to `onRequest` by reference: a streambuf or a QByteArray. */
  class Buffer {
    var data: Payload

    constructor (data: Payload)
      ensures this.data == data
    {
      this.data := data;
    }

    /** Asio: serialising appends to what parsing left of the stream, which is nothing if the message
        parsed or came in one block. */
    method OnRequestInStream(k: Kind, on: Malformed)
      modifies this
      ensures data == OnRequest(k, on, old(data))
      ensures Decode(k, old(data)).Some? || |old(data)| <= BLOCK ==> data == Reply(k, on, old(data))
    {
      var id := JobId(k, on, data);
      data := Unread(k, on, data);
      MessageSizes(k, Response(id, true));
      data := data + Encode(k, Response(id, true));
    }

    /** Qt: the array is resized to the size of the response and overwritten. */
    method OnRequestInArray(k: Kind, on: Malformed)
      modifies this
      ensures data == Reply(k, on, old(data))
    {
      var response := Response(JobId(k, on, data), true);
      MessageSizes(k, response);
      var bytes := Encode(k, response);
      data := if |bytes| <= |data| then data[..|bytes|] else data + seq(|bytes| - |data|, i => 0);
      data := bytes + data[|bytes|..];
    }
  }
}
