/** The benchmark loop: the response handler sends the next request, numbered one higher. The client
    never looks at the id a response carries; that it is the right one follows from the loop, the
    protocol and the codec together. */
module ClosedLoop {
  import opened Framing
  import opened WireFormat
  import opened Service
  import opened Connection
  import opened Progress
  import ServerTable

  /** `id + 1` on uint32_t. */
  function NextId(id: nat): nat { (id + 1) % U32 }

  /** The requests of a run are what the loop sends, starting from `id`. */
  ghost predicate FollowsLoop(ls: seq<Label>, id: nat)
    requires id < U32
  {
    ls == [] ||
    if ls[0].Request? then ls[0].p == RequestBytes(id, 0) && FollowsLoop(ls[1..], NextId(id))
    else FollowsLoop(ls[1..], id)
  }

  lemma {:induction false} LoopNumbersRequests(ls: seq<Label>, id: nat)
    requires id < U32 && FollowsLoop(ls, id)
    ensures forall i :: 0 <= i < |Requests(ls)| ==> Requests(ls)[i] == RequestBytes((id + i) % U32, 0)
  {
    hide RequestBytes;
    if ls != [] {
      var rest := Requests(ls[1..]);
      if ls[0].Request? {
        LoopNumbersRequests(ls[1..], NextId(id));
        forall i | 0 <= i < |Requests(ls)|
          ensures Requests(ls)[i] == RequestBytes((id + i) % U32, 0)
        {
          if i > 0 {
            assert Requests(ls)[i] == rest[i - 1];
            WrapsAround(id, i);
          }
        }
      } else {
        LoopNumbersRequests(ls[1..], id);
        assert Requests(ls) == [] + rest == rest;
      }
    }
  }

  lemma WrapsAround(id: nat, i: nat)
    requires i > 0
    ensures (NextId(id) + (i - 1)) % U32 == (id + i) % U32
  {
  }

  /** A run's requests are the ones its labels start, whatever else happens. */
  lemma {:induction false} RequestsRecorded(h: Handler, c: Conn, ls: seq<Label>)
    requires Legal(h, c, ls)
    ensures Run(h, c, ls).client.requests == c.client.requests + Requests(ls)
    decreases |ls|
  {
    hide Enabled, Apply;
    if ls == [] {
      assert c.client.requests + [] == c.client.requests;
    } else {
      var c' := Apply(h, c, ls[0]);
      StepRecords(h, c, ls[0]);
      RequestsRecorded(h, c', ls[1..]);
      Reassociate(c.client.requests, Requested(ls[0]), Requests(ls[1..]));
    }
  }

  lemma StepRecords(h: Handler, c: Conn, l: Label)
    requires Enabled(c, l)
    ensures Apply(h, c, l).client.requests == c.client.requests + Requested(l)
  {
    if l.ClientCompletes? {
      Client.CompletionAdvances(c.client, l.ec);
    }
  }

  ghost predicate JustAccepted(c: Conn) { c == ACCEPTED || c == STRANDED }

  lemma JustAcceptedFacts(h: Handler, c: Conn)
    requires JustAccepted(c)
    ensures Inv(h, c) && c.client.requests == []
  {
    hide Inv;
    AcceptedInv(h);
  }

  lemma RunFacts(h: Handler, c: Conn, ls: seq<Label>)
    requires JustAccepted(c) && Legal(h, c, ls)
    ensures CallLoop(h, Run(h, c, ls)) && Run(h, c, ls).client.requests == Requests(ls)
  {
    hide JustAccepted, Legal, Run, Inv, CallLoop;
    JustAcceptedFacts(h, c);
    RunKeepsInv(h, c, ls);
    InvImpliesCallLoop(h, Run(h, c, ls));
    RequestsRecorded(h, c, ls);
    assert [] + Requests(ls) == Requests(ls);
  }

  /** From a connection's start, in every run under any chunking, interleaving and failures: the i-th
      response the client handles carries the i-th id of the loop, modulo 2^32. */
  lemma ResponsesCarryTheLoopsIds(k: Kind, on: Malformed, c: Conn, ls: seq<Label>, first: nat)
    requires JustAccepted(c)
    requires Legal(Serve(k, on), c, ls) && first < U32 && FollowsLoop(ls, first)
    ensures var responses := Run(Serve(k, on), c, ls).client.responses;
            forall i :: 0 <= i < |responses| ==>
              Decode(UInt32, responses[i]) == Some(Response((first + i) % U32, true))
  {
    hide JustAccepted, Legal, Run, Decode, RequestBytes, OnRequest;
    var h := Serve(k, on);
    RunFacts(h, c, ls);
    LoopNumbersRequests(ls, first);
    var requests, responses := Requests(ls), Run(h, c, ls).client.responses;
    forall i | 0 <= i < |responses|
      ensures Decode(UInt32, responses[i]) == Some(Response((first + i) % U32, true))
    {
      assert responses[i] == h(requests[i]) == OnRequest(k, on, RequestBytes((first + i) % U32, 0));
      JobIdSurvives(k, on, (first + i) % U32, 0);
    }
  }

  /** The same with any number of other clients on the server, whatever they send. The Asio client
      counts from 1. */
  lemma EveryClientGetsItsOwnIds(k: Kind, on: Malformed, steps: seq<ServerTable.Step>, id: nat)
    requires ServerTable.Legal(Serve(k, on), ServerTable.START, steps)
    requires id in ServerTable.Run(Serve(k, on), ServerTable.START, steps).conns
    requires FollowsLoop(ServerTable.Project(steps, id), 1)
    ensures var responses := ServerTable.Run(Serve(k, on), ServerTable.START, steps).conns[id].client.responses;
            forall i :: 0 <= i < |responses| ==>
              Decode(UInt32, responses[i]) == Some(Response((1 + i) % U32, true))
  {
    hide Inv, Run, Legal, ServerTable.Run, ServerTable.Legal, FollowsLoop, Decode, Serve;
    var h := Serve(k, on);
    ServerTable.EveryClientRunsAlone(h, steps, id);
    var ls := ServerTable.Project(steps, id);
    if Legal(h, ACCEPTED, ls) && ServerTable.Run(h, ServerTable.START, steps).conns[id] == Run(h, ACCEPTED, ls) {
      ResponsesCarryTheLoopsIds(k, on, ACCEPTED, ls, 1);
      assert ServerTable.Run(Serve(k, on), ServerTable.START, steps).conns[id] == Run(h, ACCEPTED, ls);
    } else {
      ResponsesCarryTheLoopsIds(k, on, STRANDED, ls, 1);
    }
  }

  /** A failure-free loop never gets stuck: its requests are always small enough to be sound. */
  lemma LoopRequestsAreSound(ls: seq<Label>, id: nat)
    requires id < U32 && FollowsLoop(ls, id)
    ensures forall l :: l in ls && l.Request? ==> Sound(l)
  {
    hide RequestBytes;
    if ls != [] {
      if ls[0].Request? {
        MessagesAreShortAndNonempty(UInt32, Malformed(b => 0, b => 0), id, 0, []);
        LoopRequestsAreSound(ls[1..], NextId(id));
      } else {
        LoopRequestsAreSound(ls[1..], id);
      }
      assert forall l :: l in ls ==> l == ls[0] || l in ls[1..];
    }
  }
}

/** The loop as the program runs it, on the client object. */
module ClosedLoopObject {
  import opened Framing
  import opened WireFormat
  import opened Service
  import opened AsioEndpoint
  import opened AsioClientObject
  import opened ClosedLoop

  class Loop {
    const client: Client
    var isDisconnected: bool
    var newId: nat           // captured by the response callback

    /** The requests sent are numbered from one without a gap, and the callback holds the number that
        comes next. */
    ghost predicate Valid()
      reads this, client
    {
      && client.Valid()
      && Numbered(client.requests, 1)
      && newId == (1 + |client.requests|) % U32
    }

    /** The first request is sent at once. */
    constructor (client: Client)
      requires client.Valid() && client.phase.Idle? && client.requests == []
      modifies client
      ensures Valid() && this.client == client && !isDisconnected
      ensures client.requests == [RequestBytes(1, 0)] && client.State().ep.Busy()
      ensures ToSend(client.State().ep) == Frame(RequestBytes(1, 0))
    {
      this.client := client;
      isDisconnected := false;
      newId := 0;
      new;
      SendRequest(1, 0);
      FirstIsValid();
    }

    lemma FirstIsValid()
      requires client.Valid() && client.requests == [RequestBytes(1, 0)] && newId == 2
      ensures Valid()
    {
    }

    /** Starts an exchange with the serialised request, whose frame is what goes on the wire next, and
        captures the next id. */
    method SendRequest(id: nat, load: nat)
      requires id < U32 && load < U32 && client.Valid() && client.phase.Idle?
      modifies this`newId, client
      ensures Carries(RequestBytes(id, load), id, load)
      ensures client.Valid() && client.State().ep.Busy()
      ensures client.requests == old(client.requests) + [RequestBytes(id, load)]
      ensures client.responses == old(client.responses) && client.sent == old(client.sent)
      ensures ToSend(client.State().ep) == Frame(RequestBytes(id, load))
      ensures newId == NextId(id)
    {
      hide RequestBytes, Carries;
      RequestCarriesIdAndLoad(id, load);
      newId := (id + 1) % U32;
      client.InitiateCommunication(RequestBytes(id, load));
    }

    /** The communicate handler, after it has parsed the response: the next request is sent, numbered
        one higher, exactly if the program has not been told to stop. */
    method OnResponse()
      requires Valid() && client.phase.Idle?
      modifies this`newId, client
      ensures Valid() && client.responses == old(client.responses)
      ensures isDisconnected ==> client.requests == old(client.requests) && client.phase.Idle?
      ensures !isDisconnected ==>
                && client.requests == old(client.requests) + [RequestBytes((1 + |old(client.requests)|) % U32, 0)]
                && client.State().ep.Busy()
    {
      hide RequestBytes;
      if !isDisconnected {
        NextIsNumbered(client.requests, 1);
        NextAfter(|client.requests|);
        SendRequest(newId, 0);
      }
    }
  }

  lemma NextAfter(n: nat)
    ensures NextId((1 + n) % U32) == (1 + (n + 1)) % U32
  {
  }
}
