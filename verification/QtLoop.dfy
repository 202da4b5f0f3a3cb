/** The Qt benchmark loop: `responseReceived` is emitted from inside the decoder, and the slot connected
    to it sends the next request through the same `m_dataLen` and the same buffer before the decoder's
    call returns. */
module QtLoop {
  import opened Framing
  import opened WireFormat
  import opened Service
  import E = QtEndpoints
  import opened QtObjects

  class Loop {
    const client: Client
    var id: nat

    /** The requests sent are numbered from zero without a gap; all but the last have been answered, and
        the timer runs for that one; re-entering the decoder's fields has lost no byte of the stream. */
    ghost predicate Valid()
      reads this, client, client.socket
    {
      && E.ClientInv(client.State())
      && |client.requests| == |client.emitted| + 1
      && client.timerActive
      && Numbered(client.requests, 0)
      && id == (|client.requests| - 1) % U32
    }

    constructor ()
      ensures Valid() && client.requests == [RequestBytes(0, 0)] && fresh(client) && fresh(client.socket)
    {
      client := new Client();
      id := 0;
      new;
      E.D.FreshInv();
      SendRequest();
    }

    method SendRequest()
      requires id < U32 && client.dataLen == 0 && E.ClientInv(client.State())
      modifies client, client.socket`outbox
      ensures E.ClientInv(client.State())
      ensures client.requests == old(client.requests) + [RequestBytes(id, 0)]
      ensures client.emitted == old(client.emitted) && client.timerActive
    {
      client.dataBuf := RequestBytes(id, 0);
      client.SendRequest(false, false);
      FramesSnoc(old(client.requests), RequestBytes(id, 0));
    }

    /** `readyRead`: at most one response is emitted, and exactly then one request is sent. */
    method OnReadyRead() returns (emits: bool)
      requires Valid()
      modifies this, client, client.socket
      ensures Valid()
      ensures |client.emitted| == |old(client.emitted)| + (if emits then 1 else 0)
      ensures |client.requests| == |old(client.requests)| + (if emits then 1 else 0)
    {
      hide E.D.Inv, E.D.ReadyRead, Frames, RequestBytes, Numbered;
      E.ReceiveKeepsClientInv(client.State());
      E.AtMostOneRequest(client.State().d);
      emits := client.ReceiveResponse();
      if emits {
        NextIsNumbered(client.requests, 0);
        id := (id + 1) % U32;
        SendRequest();
      }
    }
  }
}
