# Length-prefixed request/response programs: a verified model

The benchmark programs of this repository speak one protocol: an 8-byte length, then that many bytes of
a Protocol Buffers message, request and response in turn. This project models the Asio client and
server, the Qt client and the two Qt servers, the `WorkMessage` codec and the bookkeeping around them,
and proves what every run of them keeps.

How it is built:

- `Framing` is the reference: frames, and a batch parser that knows nothing of chunks or phases.
- `AsioEndpoint`, `AsioClient`, `AsioSession`, `QtDecoder`, `QtEndpoints` give each member function as a
  state transformer, with what every run of them keeps; the modules ending in `Object`, `QtObjects` and
  `QtLoop` do the same to the fields of classes, whose `Valid()` is that invariant.
- `Connection` joins an Asio client and a session by two FIFO byte channels. A label is one atomic step
  (a completion handler, a partial write of any size, a partial read of any size, an error, a timer
  event), so a statement about all legal label sequences covers every interleaving and every chunking.
- `AsioEventLoop` runs any sequence of such labels on the client object and the session object.
- `Progress` has deadlock freedom and termination, `ServerTable` and `ServerTotal` any number of clients
  on the Asio server, `ThreadServer` on the Qt server with threads, `PoolDrain` the shutdown of the pool
  server, `Interop` and `PairProgress` every client with every server, `ClosedLoop` and `QtLoop` the
  benchmark loops that number requests.

The central argument: each side alone keeps a stream invariant (`AsioEndpoint.Streams`, `QtDecoder.Inv`)
that says which bytes of which frames it has sent and taken, whatever the peer does. A channel holds
exactly the difference between what one side sent and the other took. Because the framing is a prefix
code, that already makes the two sides agree on the messages, without a joint case analysis of the
phases, however far a side's completion handlers lag.

A Qt side needs more: its handler runs once per arrival and never by itself, takes at most one message,
and forgets a pending length when it sends. That no message is left lying in a socket rests on the
exchanges following one another: at most one frame is ever outstanding, and one `readyRead` is enough
for one frame (`QtDecoder.OneSignalSuffices`, `Interop.AnsweredLeavesNothing`).

What the environment is assumed to do: a handler body is atomic and two handlers of one session never
overlap; every started operation completes once, a write of a stream buffer consuming what it wrote and
a read stopping at the buffer's limit; a new exchange starts only when the previous one is over;
`readyRead` comes once after an arrival, or once after several; a Qt write fails only on a socket that
is going away; both hosts are little endian; parsing a stream fetches it in blocks of 8192 bytes and
reads to the end unless it gives up; a handler leaves a reply of at most 2^20 bytes in the buffer, and
the client's response handler nothing, as is so of responses that parse or fit a block; a Qt array
resized to, or a Qt socket read with, a negative size is left empty and reads nothing. Counters and ids
are mathematical integers, except job ids and lengths.

Where the code does not do what one would expect, the exact condition is proved:

- the total the Asio server prints is right exactly when no live session has counted anything
  (`ServerTable.PrintedTotalIsExactIff`), that of the Qt server with threads exactly when no running
  thread has (`ThreadServer.PrintedTotalIsExactIff`); both are wrong after a single exchange
  (`ServerTotal.ServedButNotPrinted`, `ThreadServer.ServedButNotPrinted`);
- the pool server counts `readyRead` events, although it prints "requests handled". As long as no
  announced length reaches 2^63 its total is right exactly when every chunk a worker got completed the
  next frame of its stream, a non-empty one (`QtEndpoints.PoolCountIsExactIff` for a worker,
  `PoolDrain.DrainedTotal` for the server); it is wrong for a request in two pieces
  (`QtEndpoints.SplitRequestCountsTwice`);
- one tick of the pool's stop timer ends a shutdown exactly when no runnable is waiting for a thread as
  it comes (`PoolDrain.OneTickSufficesIff`); with two clients and one thread it does not
  (`PoolDrain.OneTickIsNotEnough`);
- the Qt decoder agrees with the batch parser exactly when no announced length reaches 2^63
  (`QtDecoder.QuiescentDecoderIsExactIff`, with an input on which it does not in
  `QtDecoder.NegativeLengthIsEmittedAsEmpty`), and a `readyRead` leaves no complete frame waiting
  exactly when at most one was there (`QtDecoder.OneCallOneFrame`, with two in
  `QtDecoder.SecondFrameWaits`);
- what a Qt client receives after sending a request is what it would have received without sending
  exactly when no length was pending (`QtEndpoints.SendKeepsDecoderIff`, with a response lost in
  `QtEndpoints.SendLosesResponse`);
- a pairing with a Qt side that has come to rest has answered every request exactly when no Qt server
  was sent an empty request and no Qt client an empty reply (`PairProgress.RestMeansAnsweredIff`, with a
  request never answered in `PairProgress.EmptyRequestIsNeverAnswered`); a request of 2^63 bytes makes a
  Qt server handle one nobody sent (`Interop.UnreadableIsInvented`);
- a timeout of an earlier exchange can close the Asio client's socket while it is still sending the next
  request exactly when a wait is left over at its start (`AsioClient.SendingIsUndisturbedIff`, with a
  run on which it happens in `AsioClient.StaleTimeoutClosesNext`);
- the Asio server's response stands alone in the stream exactly when parsing has left nothing there,
  which only a malformed request above 8192 bytes can make it do (`Service.ResponseIsAloneIff`, with a
  response no client can read in `Service.LeftoverSpoilsResponse`);
- an arrived request is handled exactly when it fits the Asio server's buffer
  (`AsioSession.ReadDataCheck`).

benchmark/README.md:183-190 shows the pool's `incomingConnection` passing a stop flag; the code passes
the stop timer, and the model follows the code.

## Model

| member | source | states |
|---|---|---|
| `Framing.HeaderRoundTrip` | benchmark/bm_asio_client/client.cpp:47-49 | a size below 2^64 written to the memory of `m_dataLen` reads back as itself |
| `Framing.HeaderValue` | benchmark/bm_asio_client/client.cpp:72-82 | any eight bytes read into that memory are a 64-bit length, and determine it |
| `Framing.HeaderIsLittleEndian` | benchmark/bm_asio_client/client.cpp:47-49 | the first byte of a length is its least significant one: the eight bytes sum up to it with the powers of 256 |
| `Framing.ParseFrames` | benchmark/bm_asio_server/client.cpp:21-42 | parsing a stream that begins with whole frames peels off exactly those, for every continuation |
| `Framing.ParseReassembles` | benchmark/bm_asio_server/client.cpp:21-42 | frames found, re-encoded, and the unparsed tail are the input; the tail holds no complete frame |
| `Framing.FramesPrefix` | benchmark/bm_asio_server/client.cpp:21-42 | the framing is a prefix code: one side's frames on the wire are the other side's first messages |
| `AsioEndpoint.PutKeepsStreams` | src/asio11_server/main.cpp:35-43 | a partial write of any size keeps sent ++ still-to-send equal to the frames of all messages |
| `AsioEndpoint.TakeKeepsStreams` | src/asio12_client/main.cpp:25-31 | a partial read of any size keeps received equal to the frames delivered ++ the message under way |
| `AsioEndpoint.WriteStarts` | benchmark/bm_asio_client/client.cpp:47-58 | announcing the buffer's size adds exactly one frame, of the buffer's contents, to what is to be sent |
| `AsioEndpoint.LenSent` | benchmark/bm_asio_client/client.cpp:60-68 | after the length, exactly the payload is left to send |
| `AsioEndpoint.DataSent` | benchmark/bm_asio_client/client.cpp:60-75 | `m_dataLen` is untouched until the last check of a send, and the buffer is empty when the next receive begins |
| `AsioEndpoint.LenReceived` | benchmark/bm_asio_client/client.cpp:88-97 | a complete length starts a payload read of that length, with nothing taken of it yet |
| `AsioEndpoint.DataReceived` | benchmark/bm_asio_client/client.cpp:88-99 | a payload read that passes its check has taken exactly one more frame off the wire |
| `AsioEndpoint.ReplyStarts` | benchmark/bm_asio_server/client.cpp:44-60 | replacing the request in the buffer by the reply adds one frame to each direction's history |
| `AsioEndpoint.ShortReadIff` | benchmark/bm_asio_server/client.cpp:34-42 | a finished payload read fails its check exactly when the announced length exceeds the buffer limit |
| `AsioEndpoint.FailureKeepsPrefixes` | benchmark/bm_asio_client/client.cpp:23-31 | a failure leaves the sent bytes a prefix of the request frames and the delivered frames a prefix of the received bytes |
| `AsioEndpoint.StreamPrefixes` | benchmark/bm_asio_client/client.cpp:47-97 | the same two prefixes in every phase |
| `AsioEndpoint.WaitingMeansParsed` | benchmark/bm_asio_server/client.cpp:21-42 | while a read waits for bytes, what was delivered is exactly what the batch parser finds in the bytes taken |
| `AsioClient.CompletionAdvances` | benchmark/bm_asio_client/client.cpp:51-97 | a completion moves to the next of four operations or is the outcome, one response or one disconnect |
| `AsioClient.OneOutcomeKept` | benchmark/bm_asio_client/client.cpp:23-99 | every event keeps: exchanges started are responses plus disconnects plus the one under way; four completions a response, one to four a disconnect |
| `AsioClient.ExactlyOneOutcome` | benchmark/bm_asio_client/client.cpp:23-99 | the same after every sequence of errors, short transfers, timeouts and reconnects |
| `AsioClient.OutcomeWithinFourCompletions` | benchmark/bm_asio_client/client.cpp:41-99 | an exchange is over once the operations it has left have completed, whatever happens in between, and none completes after it |
| `AsioClient.AlwaysGuarded` | benchmark/bm_asio_client/client.cpp:72-97 | in every run a client waiting for a response has its timer armed, expired or acted on, and before any failure the timer is armed at no other time |
| `AsioClient.TimerAfterCompletion` | benchmark/bm_asio_client/client.cpp:72-97 | sending the last of a request arms the timer, a finished payload read cancels it whether or not it failed, a length read leaves it alone even if it fails |
| `AsioClient.ArmedOutsideAWait` | benchmark/bm_asio_client/client.cpp:72-97 | in every run a timer armed outside a wait was left so by a length read that failed, since when it has not expired |
| `AsioClient.EachWaitEndsOnce` | benchmark/bm_asio_client/client.cpp:33-39 | in every run each expired wait's handler runs at most once, and the timer expires at most once for each completion that can have armed it |
| `AsioClient.BufferAfterCompletion` | benchmark/bm_asio_client/client.cpp:60-99 | a payload write consumes what it wrote, failed or not; a payload read empties the buffer exactly if it succeeds |
| `AsioClient.ReconnectedClientWrites` | benchmark/bm_asio_client/client.cpp:5-21 | after a reconnect the socket is open and the header of the next frame can be written, whatever failed before |
| `AsioClient.TimeoutEndsExchange` | benchmark/bm_asio_client/client.cpp:33-39 | once a timeout has closed the socket no byte moves, and an unfinished exchange ends at its next completion in exactly one disconnect, whatever else happens before a reconnect |
| `AsioClient.SendingIsUndisturbedIff` | benchmark/bm_asio_client/client.cpp:33-39 | an exchange cannot have its socket closed before two of its operations are complete if and only if no wait is armed or expired when it starts |
| `AsioClient.StaleTimeoutClosesNext` | benchmark/bm_asio_client/client.cpp:88-97 | from every valid client about to handle a response: the timer expires first, the response is handled, and the stale wait closes the next exchange's socket while its length is being sent, with no timer armed |
| `AsioClient.BeforeTheLastHandler` | benchmark/bm_asio_client/client.cpp:41-97 | a client in that situation is reached from a fresh one |
| `AsioClient.StepKeepsInv` | benchmark/bm_asio_client/client.cpp:41-99 | every step keeps the client's stream invariant and its being at most one response behind |
| `AsioClientObject.Client.InitiateCommunication` | benchmark/bm_asio_client/client.cpp:41-45 | an exchange starts only on a valid idle or failed client, keeps it valid, puts nothing on the wire and leaves exactly the frame of the request to be sent |
| `AsioClientObject.Client.Completed` | benchmark/bm_asio_client/client.cpp:51-97 | a completion keeps the client valid (streams, one outcome per exchange, never unguarded), moves no byte, sets the timer exactly as its stage has it, and leaves the exchange under way or is its one response or one disconnect; until the first disconnect a response means every request sent has been answered by a whole frame |
| `AsioClientObject.Client.Transmit` | benchmark/bm_asio_client/client.cpp:51-67 | any part of a write puts exactly the next bytes of the frame on the wire and keeps the client valid |
| `AsioClientObject.Client.Receive` | benchmark/bm_asio_client/client.cpp:79-97 | any part of a read keeps the client valid, and overwrites the length's memory or extends the buffer by exactly what came |
| `AsioSession.BeginKeepsInv` | benchmark/bm_asio_server/client.cpp:15-32 | a session that begins to receive has the session invariant |
| `AsioSession.TakeKeepsInv` | benchmark/bm_asio_server/client.cpp:21-42 | the session invariant survives any bytes a peer may send |
| `AsioSession.ReadDataCheck` | benchmark/bm_asio_server/client.cpp:34-47 | `onRequest` runs exactly when the announced length is at most 2^20, and then on exactly that many bytes; otherwise the session ends |
| `AsioSession.WriteDataKeepsInv` | benchmark/bm_asio_server/client.cpp:62-75 | a response is counted exactly when its write completed |
| `AsioSession.CompletedKeepsInv` | benchmark/bm_asio_server/client.cpp:5-75 | every completion keeps: requests taken in order, each answered once by the handler's reply, answers counted; it ends the session exactly on an error or an oversize request |
| `AsioServerObject.Session.CheckOperation` | benchmark/bm_asio_server/client.cpp:5-13 | exactly a failed check adds the session's count to the total and erases its entry, and nothing else of the server changes |
| `AsioServerObject.Session.InitiateCommunication` | benchmark/bm_asio_server/client.cpp:15-19 | an idle valid session becomes a valid one waiting for the eight bytes of a length |
| `AsioServerObject.Session.Completed` | benchmark/bm_asio_server/client.cpp:25-70 | a completion keeps the session valid, ends it exactly on an error or an oversize request, hands its count to the server exactly then, leaves the frame of the handler's reply to be sent after a request, and counts a response exactly when its write completed |
| `AsioServerObject.Session.Transmit` | benchmark/bm_asio_server/client.cpp:53-69 | any part of a write puts exactly the next bytes of the reply's frame on the wire and keeps the session valid |
| `AsioServerObject.Session.Receive` | benchmark/bm_asio_server/client.cpp:25-41 | any bytes a peer sends keep the session valid |
| `AsioServerObject.Server.InitiateAccept` | benchmark/bm_asio_server/server.cpp:20-26 | `try_emplace` always inserts: one fresh session under an id not in the table, no other entry touched |
| `AsioServerObject.Server.AcceptCompleted` | benchmark/bm_asio_server/server.cpp:27-37 | an accept error adds nothing and ends accepting; otherwise the next accept is started first, and the session begins exactly if its socket option can be set |
| `AsioEventLoop.EventLoop.constructor` | benchmark/bm_asio_client/main.cpp:49-72 | a fresh client and a session that has begun to receive are a valid pair with empty channels |
| `AsioEventLoop.EventLoop.Dispatch` | benchmark/bm_asio_client/main.cpp:64-72 | one event run on the objects is one label of the connection, and keeps both objects and the channels valid |
| `AsioEventLoop.EventLoop.Run` | benchmark/bm_asio_client/main.cpp:64-72 | after any legal events the objects' fields are those of the run, and the responses the client object handled are the session object's replies to its requests, in order |
| `Connection.StepKeepsInv` | benchmark/bm_asio_server/client.cpp:21-75 | every step of either side keeps both stream invariants and the channels equal to sent minus taken |
| `Connection.EveryRunRefinesCallLoop` | benchmark/bm_asio_client/client.cpp:41-99 | in every run with any interleaving, chunking, error or timeout, the k-th response handled is what `onRequest` made of the k-th request, and requests are handled in order, at most once |
| `Connection.OneDirection` | benchmark/bm_asio_client/client.cpp:47-97 | in every reachable state at most one channel holds bytes |
| `Connection.RequestInTransit` | benchmark/bm_asio_client/client.cpp:47-70 | until a request is handled, its bytes taken ++ in flight ++ unsent are exactly its frame, and nothing is on the way back |
| `Connection.ResponseInTransit` | benchmark/bm_asio_server/client.cpp:49-75 | once it is handled, the same holds of its response, even if the client's write handlers still lag |
| `Connection.CountsWithinOne` | benchmark/bm_asio_server/client.cpp:62-75 | `m_requestCount` and the responses handled by the client differ by at most one, in either direction |
| `Connection.OversizeIsNeverHandled` | benchmark/bm_asio_server/include/bm_asio_server/client.h:12 | a request above 2^20 bytes is never handled, nor any later one |
| `Connection.EitherSideCanFail` | benchmark/bm_asio_server/client.cpp:5-13 | an operation under way can fail at any time, which ends its side; an armed timer can expire and its handler closes the socket |
| `Progress.AnnouncedLength` | benchmark/bm_asio_server/client.cpp:34-42 | the length a session has read is that of the client's next unhandled request |
| `Progress.NeverStuck` | benchmark/bm_asio_client/client.cpp:47-99 | in every failure-free state with an unanswered request some step is enabled |
| `Progress.StepIsWork` | benchmark/bm_asio_client/client.cpp:47-99 | every step but a new request increases bytes moved plus handlers run |
| `Progress.WorkIsBounded` | benchmark/bm_asio_server/client.cpp:21-75 | that work never exceeds two moves per byte of every frame and eight completions per exchange |
| `Progress.EveryRunAnswers` | benchmark/bm_asio_client/client.cpp:47-99 | a failure-free run has a bounded number of steps, and one that cannot go on has answered every request |
| `Progress.CanAlwaysFinish` | benchmark/bm_asio_client/client.cpp:47-99 | from every failure-free state the open request can be answered without a new one |
| `ServerTable.StepKeepsInv` | benchmark/bm_asio_server/server.cpp:15-38 | ids below the counter; only the newest entry awaits accept, exactly while an accept is outstanding; an entry is served exactly when its session has its one operation outstanding; an ended session has no entry |
| `ServerTable.EveryTableIsValid` | benchmark/bm_asio_server/server.cpp:15-38 | the same in every run of any number of clients |
| `ServerTable.ErasedStaysErased` | benchmark/bm_asio_server/server.cpp:15-26 | an id that left the table never returns, and no handler of its session ever runs again |
| `ServerTable.AcceptErrorEndsAccepting` | benchmark/bm_asio_server/server.cpp:27-34 | after an accept error nobody is accepted any more, and the entry made for that client stays, unserved |
| `ServerTable.OptionErrorStrandsOne` | benchmark/bm_asio_server/server.cpp:31-37 | after a failed socket option the next accept is outstanding, and that client's entry stays, unserved |
| `ServerTable.StepConserves` | benchmark/bm_asio_server/client.cpp:5-13 | a step changes total plus live counts exactly by the response write it completes |
| `ServerTable.TotalPlusLiveIsWritten` | benchmark/bm_asio_server/client.cpp:72-75 | total plus the counts of live sessions is the number of responses whose write completed, over every run |
| `ServerTable.PrintedTotalIsExactIff` | benchmark/bm_asio_server/main.cpp:70-79 | the printed total never exceeds the responses written, and equals them exactly when every live session has counted none |
| `ServerTotal.ServedButNotPrinted` | benchmark/bm_asio_server/main.cpp:70-79 | for every handler and every request of at most 2^20 bytes there is a run with one client that has been answered, one response written, and a total of zero |
| `ServerTable.Projection` | benchmark/bm_asio_server/server.cpp:15-38 | the steps of one client in a run with any others form a legal run of its connection alone, ending in the same state |
| `ServerTable.EveryClientRunsAlone` | benchmark/bm_asio_server/server.cpp:20-38 | the same from the start of the server, through the client's accept |
| `ServerTable.EveryClientRefinesCallLoop` | benchmark/bm_asio_server/server.cpp:20-38 | every client of a busy server sees its own call loop |
| `WireFormat.ReadBack` | benchmark/bm_asio_client/WorkLoad.proto:5-8 | a varint below 2^64 reads back as itself, in at most ten bytes, five if below 2^32 |
| `WireFormat.VarintIsMinimal` | benchmark/bm_asio_server/WorkLoad.proto:5-8 | every byte of a varint but the last is marked, and none is wasted |
| `WireFormat.VarintOfTwoBytes` | benchmark/bm_asio_server/WorkLoad.proto:5-8 | the low seven bits come first |
| `WireFormat.LongVarintIsMalformed` | benchmark/bm_asio_server/WorkLoad.proto:5-8 | a varint that does not end within ten bytes is malformed |
| `WireFormat.KindsAgreeModulo` | benchmark/bm_asio_server/WorkLoad.proto:5-8 | an integer written as either kind takes at most 64 bits and reads, under either kind, as the value with the same low 32 bits |
| `WireFormat.ToWireIsSignExtended` | benchmark/bm_asio_server/WorkLoad.proto:5-13 | a negative int32 is sign-extended: a reader of 64-bit integers sees the value itself |
| `WireFormat.EncodedAs` | benchmark/bm_asio_server/WorkLoad.proto:5-20 | a message is 0x0A or 0x12, the length of its body and the body, whose fields 1 and 2 hold its values even for a reader of 64-bit integers |
| `WireFormat.BodyBytes` | benchmark/bm_asio_server/WorkLoad.proto:5-13 | a body is its two scalars under tags 8 and 16, zeros left out |
| `WireFormat.DecodeScalars` | benchmark/bm_asio_server/WorkLoad.proto:5-13 | whatever two varints a body holds, its integers are their low 32 bits and its bool is whether the second is not zero |
| `WireFormat.DecodeConcatenation` | benchmark/bm_asio_server/WorkLoad.proto:15-20 | two messages one after the other read as the first overlaid by what the second sets, the other member of the `oneof` replacing it |
| `WireFormat.UnknownFieldIsIgnored` | benchmark/bm_asio_server/WorkLoad.proto:15-20 | a length-delimited field of another number changes nothing |
| `WireFormat.FixedFieldIsIgnored` | benchmark/bm_asio_server/WorkLoad.proto:15-20 | a field of four or eight bytes is skipped whole |
| `WireFormat.NoProperPrefixParses` | benchmark/bm_asio_server/WorkLoad.proto:15-20 | no message parses under either schema before its last byte is there |
| `WireFormat.DecodeEncodeAcross` | benchmark/bm_asio_server/WorkLoad.proto:5-20 | decoding under one schema what the other encoded changes only the reading of the job id modulo 2^32; under the same schema nothing |
| `WireFormat.MessageSizes` | benchmark/bm_asio_client/WorkLoad.proto:5-20 | requests take 2 to 19 bytes, completed responses 4 to 15 |
| `Service.RequestCarriesIdAndLoad` | benchmark/bm_asio_client/main.cpp:29-36 | for every uint32 id and load the request decodes to that id and to the load as an int32 |
| `Service.JobIdSurvives` | benchmark/bm_asio_server/main.cpp:30-45 | for every uint32 id, the id echoed by a server of either schema decodes at the client as the id it sent, though the int32 server may see a negative one |
| `Service.NoWorkRequestIsIdZero` | benchmark/bm_asio_server/main.cpp:40-44 | a message that parses without a work request is answered with id 0 |
| `Service.MessagesAreShortAndNonempty` | benchmark/bm_asio_client/main.cpp:29-36 | requests take 2 to 19 bytes and serialised responses 4 to 15, whatever bytes the server was given; what the Asio server sends is that, after what parsing left of a malformed request above 8192 bytes |
| `Service.ResponseIsAloneIff` | benchmark/bm_asio_server/main.cpp:30-45 | the reply is the serialised response alone if and only if parsing left nothing in the stream, as it does whenever the request parses or fits one block |
| `Service.LeftoverSpoilsResponse` | benchmark/bm_asio_server/main.cpp:30-45 | a malformed request of 8193 bytes can leave its last byte in front of the response, which then does not parse |
| `Service.SizesAreTight` | benchmark/bm_asio_server/main.cpp:41-44 | all four size bounds are reached; the largest response needs the int32 schema |
| `Service.Buffer.OnRequestInStream` | benchmark/bm_asio_server/main.cpp:30-45 | the response is appended to what parsing left, so a request that parses or fits one block leaves exactly the response |
| `Service.Buffer.OnRequestInArray` | benchmark/bm_qt_server_pool/main.cpp:31-52 | resizing the array and overwriting it leaves exactly the response |
| `ClosedLoop.LoopNumbersRequests` | benchmark/bm_asio_client/main.cpp:29-47 | the i-th request of the loop carries the first id plus i, modulo 2^32 |
| `ClosedLoop.ResponsesCarryTheLoopsIds` | benchmark/bm_asio_client/main.cpp:38-46 | in every run, the i-th response handled carries the i-th id, though the client never looks |
| `ClosedLoop.EveryClientGetsItsOwnIds` | benchmark/bm_asio_client/main.cpp:74 | the same, counting from 1, with any number of other clients on the server, whatever they send |
| `ClosedLoop.LoopRequestsAreSound` | benchmark/bm_asio_client/main.cpp:29-36 | the loop's requests always fit the server's buffer |
| `ClosedLoopObject.Loop.constructor` | benchmark/bm_asio_client/main.cpp:49-74 | the first request carries id 1, and its frame is what is to be sent |
| `ClosedLoopObject.Loop.SendRequest` | benchmark/bm_asio_client/main.cpp:29-38 | the client object is left valid with exactly the frame of a request to send that carries the id and load given, and the next number captured |
| `ClosedLoopObject.Loop.OnResponse` | benchmark/bm_asio_client/main.cpp:38-46 | the requests of the loop stay numbered from 1 without a gap: one more, numbered next, exactly if not told to stop |
| `QtDecoder.ReadyReadKeepsInv` | benchmark/bm_qt_client/client.cpp:54-67 | a `readyRead` keeps: consumed frames ++ pending header ++ unread bytes are what arrived; emitted are the consumed non-empty frames |
| `QtDecoder.DecoderFollowsBatchParser` | benchmark/bm_qt_client/client.cpp:54-67 | for every stream and chunking without a length of 2^63 or more, the emitted payloads are a prefix of the batch parse without empty frames, and no byte is lost |
| `QtDecoder.OneCallOneFrame` | benchmark/bm_qt_server_pool/client.cpp:51-72 | one call consumes exactly one complete frame if there is one, and emits it unless empty; it leaves none waiting exactly when there was at most one |
| `QtDecoder.SecondFrameWaits` | benchmark/bm_qt_server_pool/client.cpp:51-57 | of two messages that arrive together one `readyRead` emits the first only |
| `QtDecoder.OneSignalSuffices` | benchmark/bm_qt_server_pool/client.cpp:51-57 | if all that is unread belongs to one frame, complete or not, a second `readyRead` after the first would change nothing |
| `QtDecoder.CallsDrain` | benchmark/bm_qt_client/client.cpp:54-67 | n complete frames are drained by exactly n calls, in order |
| `QtDecoder.QuiescentDecoderIsExactIff` | benchmark/bm_qt_server_threads/client.cpp:51-64 | a quiescent decoder has delivered exactly the batch parse if and only if no announced length reaches 2^63 |
| `QtDecoder.NegativeLengthIsEmittedAsEmpty` | benchmark/bm_qt_client/client.cpp:58-66 | a header of 2^63 is emitted at once as an empty payload nobody sent |
| `QtDecoder.ForgottenHeaderShows` | benchmark/bm_qt_client/client.cpp:43-58 | for every decoder with a length pending there are arrivals after which clearing `m_dataLen` has changed what was emitted |
| `QtEndpoints.SendKeepsDecoderIff` | benchmark/bm_qt_client/client.cpp:40-52 | sending leaves what the decoder will emit, for every future of arrivals and signals, unchanged if and only if no length is pending |
| `QtEndpoints.SendLosesResponse` | benchmark/bm_qt_client/client.cpp:40-58 | a request sent between a response's header and its one byte loses the response, which the batch parser finds |
| `QtEndpoints.ServeKeepsInv` | benchmark/bm_qt_server_pool/client.cpp:51-72 | the bytes written are exactly the frames of the replies to the requests handled, in order |
| `QtEndpoints.LoopCounts` | benchmark/bm_qt_server_threads/client.cpp:39-47 | over any chunks the pool counts events and the threaded server exactly its responses; both handle the same requests and write the same bytes |
| `QtEndpoints.LivesAgree` | benchmark/bm_qt_server_threads/client.cpp:39-47 | the same counts over a whole life in which any writes fail: the pool's is the events, the thread's exactly the requests handled |
| `QtEndpoints.LifeWithinReplies` | benchmark/bm_qt_server_threads/client.cpp:66-78 | whatever writes fail, what a worker ever wrote is the beginning of the frames of its replies, in order |
| `QtEndpoints.PoolCountIsExactIff` | benchmark/bm_qt_server_pool/client.cpp:37-45 | without a length of 2^63 or more, a pool worker's count is the requests handled if and only if its i-th chunk completed the stream's i-th frame, a non-empty one, for every i |
| `QtEndpoints.SplitRequestCountsTwice` | benchmark/bm_qt_server_pool/client.cpp:37-40 | one request in two pieces is counted as two |
| `QtObjects.Client.SendRequest` | benchmark/bm_qt_client/client.cpp:40-52 | writes exactly the frame, or a part of it that is not the whole unless the payload was empty; a failed write leaves the length behind in `m_dataLen` |
| `QtObjects.Client.ReceiveResponse` | benchmark/bm_qt_client/client.cpp:54-67 | the decoder's step on the fields; the signal is emitted exactly when a payload came out, which is then in the buffer with the timer stopped |
| `QtObjects.Worker.ReceiveRequest` | benchmark/bm_qt_server_threads/client.cpp:51-64 | the decoder's step on the fields, and whether `requestReceived` is emitted |
| `QtObjects.Worker.SendResponse` | benchmark/bm_qt_server_threads/client.cpp:66-78 | the reply replaces the request in the buffer and exactly its frame is written; a failed write leaves the length behind |
| `QtObjects.Worker.OnReadyRead` | benchmark/bm_qt_server_pool/client.cpp:51-72 | decode, handle and reply in one step, writes that fail included |
| `QtObjects.Worker.RunInPool` | benchmark/bm_qt_server_pool/client.cpp:8-49 | the total grows by the number of `readyRead` events, by nothing if the socket cannot be set up; what was written is the beginning of the replies' frames, and all of them if no write failed |
| `QtObjects.Worker.RunInThread` | benchmark/bm_qt_server_threads/client.cpp:21-49 | the total grows by exactly the requests handled, whatever writes fail; what was written is the beginning of the replies' frames, and all of them if no write failed |
| `ThreadServer.TallyConserved` | benchmark/bm_qt_server_threads/client.cpp:39-48 | total plus the running threads' counts is the number of requests handled, over every run of any number of clients |
| `ThreadServer.PrintedTotalIsExactIff` | benchmark/bm_qt_server_threads/main.cpp:64-74 | the printed total never exceeds the requests handled, and equals them if and only if every thread still running has handled none |
| `ThreadServer.ServedButNotPrinted` | benchmark/bm_qt_server_threads/main.cpp:64-74 | for every handler and every non-empty request shorter than 2^63, a connected client has been answered and the total is zero |
| `ThreadServer.ClientLeaves` | benchmark/bm_qt_server_threads/client.cpp:27-48 | when a client leaves its thread can end at once, which removes it, no other, and adds exactly its count to the total |
| `ThreadServer.EveryTotalCanBecomeExact` | benchmark/bm_qt_server_threads/client.cpp:27-48 | after any history all clients can leave, and the total is then the requests handled |
| `ThreadServer.ServesUntilItsClientLeaves` | benchmark/bm_qt_server_threads/client.cpp:27-46 | no thread ends before its own client has left |
| `QtLoop.Loop.constructor` | benchmark/bm_qt_client/main.cpp:41-54 | the first request carries id 0 |
| `QtLoop.Loop.SendRequest` | benchmark/bm_qt_client/main.cpp:15-25 | sends the request with the current id and keeps the stream invariant |
| `QtLoop.Loop.OnReadyRead` | benchmark/bm_qt_client/main.cpp:43-53 | at most one response a call, exactly then one request, numbered next; one exchange at a time and the timer running for it, although the slot re-enters the decoder's fields |
| `Interop.StepKeepsInv` | benchmark/bm_qt_server_pool/client.cpp:27-72 | whichever client is joined to whichever server, every step, failed writes, timeouts and disconnects included, keeps both sides' stream invariants, the channels equal to sent minus taken, and no open Qt side with anything left to do and no `readyRead` due |
| `Interop.EveryPairingRefinesCallLoop` | benchmark/README.md:293-311 | in every run of every client with every server, whatever fails on either side: requests handled in order, responses exactly the handler's replies, a Qt side passing over empty messages, at most one request unanswered |
| `Interop.UnreadableIsInvented` | benchmark/bm_qt_server_pool/client.cpp:51-61 | a request of 2^63 bytes or more makes a Qt server handle an empty one as soon as the length is there |
| `Interop.AnsweredLeavesNothing` | benchmark/bm_qt_client/client.cpp:40-58 | once every request is answered no length is pending, so sending the next one loses nothing |
| `Interop.QtClientIsGuarded` | benchmark/bm_qt_client/client.cpp:12-41 | in every run the timer of a Qt client with an open socket runs exactly while a response is awaited |
| `Interop.QtClientStep` | benchmark/bm_qt_client/client.cpp:12-38 | each step's effect on a Qt client's socket and timer: a failed write, a timeout or a disconnect closes the one, and the latter two stop the other |
| `Interop.EveryGoneClientsTimer` | benchmark/bm_qt_client/client.cpp:12-15 | in every run the timer of a Qt client whose socket has gone is stopped, unless a failed write gave it up |
| `Interop.GoneClientStays` | benchmark/bm_qt_client/client.cpp:12-38 | a Qt client whose socket has gone does nothing more |
| `Interop.GoneServerStays` | benchmark/bm_qt_server_threads/client.cpp:27-38 | nor does a Qt worker |
| `Interop.EveryQtServerCounts` | benchmark/bm_qt_server_threads/client.cpp:39-44 | in every run of every pairing a thread has counted the requests it handled and a pool worker its `readyRead` events |
| `Interop.AnythingCanFail` | benchmark/bm_qt_client/client.cpp:12-52 | errors, disconnects, failed writes and timeouts are possible exactly where the programs allow them |
| `PairProgress.RestMeansDelivered` | benchmark/README.md:289 | with nothing in flight and no handler due on either side, each side has seen all the other has sent, although no Qt side looks at its socket again by itself |
| `PairProgress.RestMeansAnsweredIff` | benchmark/README.md:289 | every request has then been answered if and only if no message was an empty one to a Qt side |
| `PairProgress.EveryRestingPairHasAnsweredIff` | benchmark/README.md:289-311 | the same in every run of every pairing |
| `PairProgress.EmptyRequestIsNeverAnswered` | benchmark/bm_qt_server_pool/client.cpp:51-57 | after an empty request to a Qt server both sides rest, with only the client's timer left |
| `PairProgress.NeverStuck` | benchmark/README.md:289-311 | in every failure-free state of every pairing with an unanswered request some step is enabled |
| `PairProgress.WorkIsBounded` | benchmark/bm_qt_client/client.cpp:54-67 | bytes moved and handlers run never exceed three per byte of every frame and eight per exchange |
| `PairProgress.EveryPairingAnswers` | benchmark/README.md:289-311 | whichever client with whichever server: a failure-free run has a bounded number of steps, and one that cannot go on has answered every request |
| `PairProgress.CanAlwaysFinish` | benchmark/README.md:289-311 | from every failure-free state of every pairing a run without failures or new requests answers every request |
| `Interop.EveryPairingCarriesTheLoopsIds` | benchmark/bm_qt_client/main.cpp:52-54 | the i-th response carries the i-th id in every run of every pairing, for either schema |
| `Interop.ReceiversAgree` | benchmark/bm_qt_server_threads/client.cpp:51-64 | on the same stream of non-empty frames, a waiting Asio session and a quiescent Qt decoder have delivered the same payloads, those of the batch parser |
| `PoolDrain.StepKeepsInv` | benchmark/bm_qt_server_pool/server.cpp:11-15 | every runnable is queued or running once, never more loops than threads, every worker has answered what it handled |
| `PoolDrain.ServedInOrder` | benchmark/bm_qt_server_pool/server.cpp:11-15 | in every run runnables are taken in the order their connections came, none twice |
| `PoolDrain.FailedSetupNeverRuns` | benchmark/bm_qt_server_pool/client.cpp:13-19 | a runnable whose socket cannot be set up is done without a loop, and never gets one |
| `PoolDrain.RunsUntilShutdown` | benchmark/bm_qt_server_pool/client.cpp:27-44 | until the timer is started only its own client's leaving ends a loop |
| `PoolDrain.ClientLeaves` | benchmark/bm_qt_server_pool/client.cpp:27-45 | when a client leaves its loop can end at once, which removes it, no other, and adds exactly its count to the total |
| `PoolDrain.TallyConserved` | benchmark/bm_qt_server_pool/client.cpp:37-45 | total plus the running workers' counts is the number of `readyRead` events, over every run |
| `PoolDrain.DrainedTotal` | benchmark/bm_qt_server_pool/main.cpp:66-82 | the total printed after the drain is the `readyRead` events of all workers, never fewer than the requests handled; without a length of 2^63 or more, as many if and only if every chunk of every worker completed the next frame of its stream, a non-empty one |
| `PoolDrain.DrainNeverStuck` | benchmark/bm_qt_server_pool/main.cpp:70-75 | after listening stops and the timer runs, some step brings the end closer until queue and threads are empty |
| `PoolDrain.DrainIsBounded` | benchmark/bm_qt_server_pool/main.cpp:70-75 | at most three such steps per client left, whatever the clients do in between |
| `PoolDrain.CanDrain` | benchmark/bm_qt_server_pool/main.cpp:70-82 | from every state of a shutdown the pool can be brought to its end without another `readyRead`, the total then including every running worker's count |
| `PoolDrain.EveryShutdownCanFinish` | benchmark/bm_qt_server_pool/main.cpp:66-82 | after any history of the server a shutdown can finish, printing the number of `readyRead` events there were |
| `PoolDrain.OneTickSufficesIff` | benchmark/bm_qt_server_pool/main.cpp:70-75 | after one tick every continuation without another or a client leaving that comes to rest has ended the shutdown, if and only if no runnable was waiting for a thread at the tick |
| `PoolDrain.OneTickIsNotEnough` | benchmark/bm_qt_server_pool/include/bm_qt_server_pool/server.h:19-21 | a run from the start, two clients and one thread, after which a shutdown whose timer has fired once never ends without another tick or the second client's leaving |
| `PoolServerObject.Server.IncomingConnection` | benchmark/bm_qt_server_pool/server.cpp:11-15 | the new runnable waits last, under an id no queued or running one has, and the pool stays valid |
| `PoolServerObject.Server.DisconnectClients` | benchmark/bm_qt_server_pool/include/bm_qt_server_pool/server.h:19-21 | the stop timer runs, nothing else changes, and a server that no longer listens is then draining |
| `PoolServerObject.Server.Shutdown` | benchmark/bm_qt_server_pool/main.cpp:66-77 | the pool is left valid and draining with every client still in it |

## Left out

- Sockets, name resolution, certificates, socket options other than their failing, console and JSON output, timings: I/O.
- Overlapping exchanges typed on standard input (benchmark/bm_asio_client/main.cpp:76-91): they break the one-exchange-at-a-time rule the model requires.
- `Connection` stops at the first failure of a client; only the outcome count of `AsioClient.ExactlyOneOutcome` covers a client used again after one.
- JobId: what protobuf leaves in the message when parsing fails midway is an arbitrary function of the bytes; every lemma holds for all of them. Groups count as malformed.
- QtEndpoints.PoolCountIsExactIff: for streams that announce a length of 2^63 or more only the bound holds, since the worker then handles payloads that no frame carries.
- Interop.EveryPairingRefinesCallLoop: nothing is claimed once a Qt server has been sent a request of 2^63 bytes or more, since it then handles requests nobody sent (`Interop.UnreadableIsInvented`).
- Qt sides in `Interop` are used up to their first disconnect; reconnecting from standard input is not modelled.
- Writes that fail are in `QtEndpoints`, `QtObjects`, `Interop` and `ThreadServer`, not in the runs of `PoolDrain`, whose total counts events and does not depend on them.
- The threads of the Asio server sharing the table without a lock: handlers are atomic steps.
- Overflow of `m_requestCount`, `m_totalRequests` and `m_clientIdCounter`.
- The stack of Qt's threads and event queues; a quit request is a mark that the loop acts on later.
- The tutorial programs under src/: near-copies of the same machines, or straight-line library calls.
