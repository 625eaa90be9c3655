# Verified model of the block-proxy tunnel transport

This project models the xhttp tunnel transport of block-proxy and the byte-level components around it, and proves
what they promise on every input and every run. `dafny verify dfyconfig.toml` checks all of it.

Every component follows one pattern. A `...Spec` module (or the functions at the top of a module) says what the state
is and what one step does. A class or a method with loops is the code as written, proved to take exactly these steps.
The theorems are about every run of the steps, in any interleaving: JavaScript and asyncio handlers are atomic between
their awaits, Go goroutines between their critical sections.

| files | component |
|---|---|
| `ReorderSpec`, `UploadQueue`, `ReorderRuns` | the upload reorder queue: an array min-heap that refines a bag of posts |
| `Protocol`, `ProtocolTheorems`, `ProtocolReading`, `PythonCodec` | the frame codec of the server, what it makes of any bytes, and the codec of the client |
| `UploadSession` | the consume loop, and the theorem from the client's frame list to `onFrame` |
| `SessionSpec`, `SessionHistory`, `SessionProbes`, `XhttpHandler` | sessions: two tables, one owner per token, the active stream, timers and probes |
| `Server`, `ServerHistory` | the session table together with the upload side of every session |
| `ManagerSpec`, `TunnelManager`, `ManagerRuns` | the request table: cyclic ids, two bounded counters, cleanup closures, chunked sending |
| `Service` | the session server joined with the request table |
| `WebSocketFrames`, `WebSocketMessages` | WebSocket frames and fragmented messages, sections 5.2 to 5.5 of RFC 6455 |
| `WriterSpec`, `WriterQueue` | the bounded writer queue shared by goroutines |
| `Sums`, `Admission` | connection admission: total ceiling, limits per target, setup slots |
| `ProtoParser`, `ProtoEndings` | the Protocol Buffers wire parser |
| `AccessLogSpec`, `AccessLog` | the sliding-window access log with exemptions, pruning, deletion and eviction |
| `UdpFraming` | UDP over TCP, with the datagrams of section 7 of RFC 1928 |

Text is kept as its UTF-8 bytes, identifiers (session ids, tokens, client ids, addresses, hosts) are opaque numbers,
clocks are numbers that do not run backwards, and a socket or response is a flag or an opening number. Mask keys are
universally quantified. The random id of a new session is a parameter that is not in use.

## What the code does not do

Each of these is stated with a concrete input or with the exact condition under which the property holds.

- A number pushed again while it is still buffered stops the upload queue for good: the second copy becomes stale and
  stays at the root of the heap (tunnel/uploadQueue.js:136). `DrainsFullyIff` is the exact condition of one drain,
  `NextIsLeastNeverPushedIff` and `OnFrameSeesEverythingIff` the exact condition on whole runs, `StuckForGood` the
  consequence, `RepeatedNumberStallsTheQueue` a run.
- The codec loses an empty client id and truncates fields that are too wide (`FrameRoundTripIff`). The client's AUTH
  frame carries no capability list, and the server then reads from offset zero (tunnel/protocol.js:44):
  `LegacyAuthIsMisread` says exactly when such a frame is accepted, and as what; `AuthReadIff` says it of all bytes.
  The client's CONNECT to an IPv6 address omits the address (`ClientToServerIff`).
- `pingAttempts` survives the loss of a stream (tunnel/xhttpHandler.js:472), so the session of a silent client whose
  stream came back can be given up if and only if it had no attempts (`ReconnectProbesIff`, with the exact condition
  for any opened stream in `OpenedStreamGivesUpIff`); otherwise probing never ends it (`LeftoverAttemptsStopProbing`,
  with a run in `LostStreamIsNotProbed`). A stream that starts with none is given up after exactly ten pings
  (`TenPingsThenGiveUp`). This is about probing only: the liveness sweep (tunnel/xhttpHandler.js:703-711) still ends
  every online session that stays silent past the liveness timeout, and `IsWatch` leaves the steps that do so out.
- A closed session can have requests again. Its consume loop still handles what was delivered before the close
  (tunnel/xhttpHandler.js:612-642), and a CONNECT in it makes a request without a look at the session
  (tunnel/manager.js:253-279), although the session was already disconnected (proxy/proxy.js:1380-1382). On the request
  table, `NamedLaterIff` says exactly when a request names the session again, and `ForgottenForGoodIff` exactly when
  none ever does. In the whole service every request belongs to a listed session if and only if no step so far was a
  stray one: the loop of a closed session handling a payload that leaves a live request (`StraysIff`,
  `AlwaysCleanIff`). `LateConnectNamesClosedSession` is a run of five events that ends in such a step.
- `_allocateReqid` does not check that an id is free (tunnel/manager.js:159): the reverse counter equals the live
  reverse requests if and only if no live one was ever overwritten (`ReverseCountIsLiveIff`). `WrapAroundOverwrites`
  is a run in which the counter comes round, `ForeignIdOverwrites` one in which a client uses the server's ids.
- The cleanup of a forward connect clears its id without asking who has it (tunnel/manager.js:289-296). It ends another
  request if and only if one was stored under that id since (`CleanupEndsAnotherIff`): a client that sends CLOSE and
  CONNECT with one id in one payload loses the new request when the old socket closes (`LateCleanupEndsSuccessor`).
- A new binary frame in the middle of a fragmented WebSocket message is not rejected
  (android-client/native/utlsws/websocket.go:262): `AcceptedConformsIff`, `RestartLosesFragments`.
- A setup slot is held through the relay (client/proxy_core.py:1836), although the comment at
  client/proxy_core.py:1489 says that it is held only while connecting. The model follows the code.
- The size cap of the access log can drop accesses that are still in the window (proxy/attacker.js:120):
  `CountIsWindowIff` and `EvictionLosesAnAccess`. A clean-up also forgets that an idle address was bad
  (`BadIffFlagged`, through `Forgives`).
- A protobuf value cut off by the end of the input is returned shortened instead of reported (`CutValueIsShortened`),
  and the parser stops without a word at an unknown wire type. What follows an input is parsed as if it stood alone if
  and only if the input is complete (`ConcatenatesIffComplete`); the fields returned are final if and only if the input
  does not end inside a field (`FinalIffNotCut`).
- The consume loop closes the session when a read is answered with null (tunnel/xhttpHandler.js:614). That close never
  does anything: a session is in the table exactly as long as its queue is open (`SawNullChangesNothing`).
- A UDP datagram to a short host name with little data is dropped by the ten-byte test of socks5/server.js:309
  (`ShortNameIsDropped`), and an empty UDP payload ends the whole association (`EmptyPayloadEndsIt`).

## Model

| member | source | states |
|---|---|---|
| UploadQueues.SwapDown | tunnel/uploadQueue.js:184-186 | swapping a cell with its lesser child moves the only possible disorder to that child and permutes the cells |
| UploadQueues.SwapUp | tunnel/uploadQueue.js:163-165 | swapping a cell with its greater parent moves the only possible disorder to that parent and permutes the cells |
| UploadQueues.RootIsLeast | tunnel/uploadQueue.js:143-151 | in a heap the root is a minimum |
| UploadQueues.RootDecides | tunnel/uploadQueue.js:136 | the test on the root decides whether the expected number is buffered and nothing stale is |
| UploadQueues.UploadQueue.constructor | tunnel/uploadQueue.js:19-32 | the new queue is empty and open |
| UploadQueues.UploadQueue.Push | tunnel/uploadQueue.js:42-68 | the array queue takes exactly one push step of the bag of posts: closed, old, in order with its drain, overflow or buffered; false exactly when the queue is closed afterwards |
| UploadQueues.UploadQueue.Read | tunnel/uploadQueue.js:76-88 | read number k is answered with payload k, with null after a close, and otherwise waits |
| UploadQueues.UploadQueue.CloseAll | tunnel/uploadQueue.js:93-105 | every waiting read is answered with null, the heap is emptied, what is ready stays |
| UploadQueues.UploadQueue.DeliverOne | tunnel/uploadQueue.js:123-130 | one delivery goes to the first waiting read or becomes ready; never both lists are non-empty |
| UploadQueues.UploadQueue.DrainHeap | tunnel/uploadQueue.js:135-141 | the loop stops in a state in which a drain of the bag may stop |
| UploadQueues.UploadQueue.HeapPush | tunnel/uploadQueue.js:145-148 | keeps heap order and adds exactly the item |
| UploadQueues.UploadQueue.HeapShift | tunnel/uploadQueue.js:150-158 | returns the root, keeps heap order and removes exactly that item |
| UploadQueues.UploadQueue.HeapBubbleUp | tunnel/uploadQueue.js:160-170 | restores heap order over the same multiset, and terminates |
| UploadQueues.UploadQueue.HeapBubbleDown | tunnel/uploadQueue.js:172-191 | restores heap order over the same multiset, and terminates |
| ReorderRuns.DrainFacts | tunnel/uploadQueue.js:135-141 | what a drain delivers was buffered under its own number, nothing else leaves the buffer, and it stops only when it must |
| ReorderRuns.DrainsFullyIff | tunnel/uploadQueue.js:135-141 | a drain leaves nothing deliverable if and only if nothing stale is buffered when it starts and no number inside the consecutive stretch is repeated |
| ReorderRuns.PushDrainsFullyIff | tunnel/uploadQueue.js:50-56 | the same for the drain of an in-order push, decided before the push |
| ReorderRuns.DeliveredInOrder | tunnel/uploadQueue.js:42-141 | on every run the k-th delivered payload was pushed with number k |
| ReorderRuns.AnswersAreFinal | tunnel/uploadQueue.js:76-105 | on every run deliveries only grow, a closed queue delivers no more, and an answered read keeps its answer |
| ReorderRuns.BufferIsBounded | tunnel/uploadQueue.js:59-63 | on every run the buffer stays within its limit |
| ReorderRuns.ClosedIsEmpty | tunnel/uploadQueue.js:93-105 | on every run a closed queue buffers nothing |
| ReorderRuns.StepTidy | tunnel/uploadQueue.js:42-68 | without repeats every step keeps only future numbers buffered, each once, and loses no post |
| ReorderRuns.NextIsLeastNeverPushed | tunnel/uploadQueue.js:42-68 | on every open run without repeats of a buffered number the expected number is the least never pushed |
| ReorderRuns.RunLosesNothing | tunnel/uploadQueue.js:42-68 | on every run, repeats or not, every number pushed to a queue that is still open is delivered or buffered |
| ReorderRuns.NextIsLeastNeverPushedIff | tunnel/uploadQueue.js:42-141 | on every open run the expected number is the least never pushed if and only if the drain of the last in-order push was unblocked |
| ReorderRuns.OrderDoesNotMatter | tunnel/uploadQueue.js:2-11 | two open runs that never repeat a buffered number and carry the same posts deliver the same sequence, whatever the arrival orders |
| ReorderRuns.StuckForGood | tunnel/uploadQueue.js:136 | once something stale is buffered in an open queue nothing leaves the buffer again; each push delivers itself at most |
| ReorderRuns.RepeatGoesStale | tunnel/uploadQueue.js:50-64 | every drain that reaches a number buffered twice stops there and leaves a stale copy |
| ReorderRuns.RepeatedNumberStallsTheQueue | tunnel/uploadQueue.js:136 | a run in which number 1 comes twice early and number 3, pushed and expected, is not delivered |
| Protocol.EncodeCapabilitiesLoop | tunnel/protocol.js:30-41 | the loop computes the length-prefixed capability list, or the error for one that is too long |
| Protocol.DecodeCapabilitiesLoop | tunnel/protocol.js:43-55 | the loop computes the list and the end offset, zero when no byte is left, or the first error |
| Protocol.DecodeFramesLoop | tunnel/protocol.js:277-297 | the loop computes the frames of a batch; one bad frame rejects it |
| ProtocolTheorems.CapabilitiesRoundTrip | tunnel/protocol.js:30-55 | an encoded capability list is read back wherever it stands in a payload, with the offset behind it |
| ProtocolTheorems.AddressRoundTrip | tunnel/protocol.js:57-89 | every well-formed address is read back wherever it stands, with the offset behind it |
| ProtocolTheorems.AuthRoundTrip | tunnel/protocol.js:143-162 | an AUTH frame with capabilities is read back, but for an empty client id, which is lost |
| ProtocolTheorems.PayloadRoundTrip | tunnel/protocol.js:194-275 | decoding inverts encoding on every frame type |
| ProtocolTheorems.DecodedFieldsFit | tunnel/protocol.js:194-275 | whatever the decoder accepts has fields that fit their bytes |
| ProtocolTheorems.FrameRoundTripIff | tunnel/protocol.js:91-275 | for every frame the encoder accepts, decoding gives it back and consumes exactly its bytes, whatever follows, if and only if its fields fit and it has no empty client id |
| ProtocolTheorems.BatchRoundTripIff | tunnel/protocol.js:277-297 | concatenated encodings decode to exactly the encoded list, if and only if all fields fit |
| ProtocolReading.KnownFrames | tunnel/protocol.js:91-192 | the bytes of one frame of each type |
| ProtocolReading.ServerEncodesIff | tunnel/protocol.js:91-192 | which frames the encoder rejects: an unknown type, a port, capability or client id that is too large, a payload above 65535 bytes |
| ProtocolReading.NeverRejected | tunnel/protocol.js:194-275 | only CONNECT, AUTH and CAPABILITIES can be rejected; an unknown type is kept with its bytes |
| ProtocolReading.PlainReadIff | tunnel/protocol.js:194-275 | the other types are read as exactly the frame whose encoding the bytes are or start with |
| ProtocolReading.ConnectReadIff | tunnel/protocol.js:194-220 | a CONNECT is read if and only if the bytes start with its encoding |
| ProtocolReading.CapabilitiesReadIff | tunnel/protocol.js:43-55 | a CAPABILITIES frame is read if and only if it is empty or the bytes start with its encoding |
| ProtocolReading.AuthReadIff | tunnel/protocol.js:241-259 | an AUTH frame is read if and only if the bytes are its encoding, or that with an empty client id behind it, or 33 bytes that are misread |
| ProtocolReading.BatchReadIff | tunnel/protocol.js:277-297 | for every byte string: it is read as a list of frames if and only if it is made of payloads that are read as these, each behind its length |
| PythonCodec.DecodePayloadPy | client/tunnel_client.py:131-185 | the offset-advancing decoder of the client computes the function `DecodePy`, error cases included |
| PythonCodec.ClientReadsAsServer | client/tunnel_client.py:131-185 | whatever the client reads out of a payload of a shared type, the server reads too |
| PythonCodec.ClientReadsIff | client/tunnel_client.py:131-185 | for every payload of a shared type both sides read the same, but that the client rejects one without its id or length byte |
| PythonCodec.ClientEncodesIff | client/tunnel_client.py:64-110 | exactly which frames the client can encode |
| PythonCodec.ClientAuthRoundTrip | client/tunnel_client.py:64-75 | the client reads its own AUTH frame back |
| PythonCodec.ServerToClient | client/tunnel_client.py:131-185 | every frame of a shared type that the server encodes with fitting fields is read back by the client |
| PythonCodec.ClientToServerIff | client/tunnel_client.py:64-110 | a frame of a shared type that the client encodes is read back by the server if and only if it is not a CONNECT to an IPv6 address or to a dotted address without four parts |
| PythonCodec.ClientBatchIsServerBatch | client/tunnel_client.py:64-110 | a post body the client encodes is the very batch the server would encode, with fields that fit |
| PythonCodec.LegacyAuthIsMisread | tunnel/protocol.js:241-259 | the client's AUTH frame is accepted exactly when it has 33 bytes, and then with the rest of the frame as client id |
| UploadSessions.UploadSession.HandleUpload | tunnel/xhttpHandler.js:366-387 | the queue's part of a post and the status code: 400 too large, 503 exactly when the queue is closed, or the post is early and the buffer full, else 200 |
| UploadSessions.UploadSession.HandOn | tunnel/xhttpHandler.js:633-645 | the frame is handed on; a PONG with the last nonce clears it, and no other frame does |
| UploadSessions.UploadSession.Answered | tunnel/xhttpHandler.js:612-621 | the awaited read of number k has the payload delivered as number k |
| EndToEnd.LoopFollowsDeliveries | tunnel/xhttpHandler.js:605-658 | on every run the frames handed on are exactly those of the deliveries handled so far |
| EndToEnd.OnFrameSeesAPrefix | tunnel/xhttpHandler.js:605-647 | in every interleaving of posts, duplicates, reads and closes, `onFrame` has seen a prefix of the client's frame list |
| EndToEnd.OnFrameSeesEverything | tunnel/xhttpHandler.js:605-647 | when every post has arrived, in any order, none repeating a waiting number and nothing closed, the loop comes to rest having passed on exactly the client's frame list |
| EndToEnd.OnFrameSeesEverythingIff | tunnel/xhttpHandler.js:605-647 | repeats allowed: with every post arrived, nothing closed and the loop at rest, `onFrame` has seen the whole frame list if and only if the drain of the last in-order post of the run was unblocked |
| EndToEnd.ServerHearsPythonClient | client/tunnel_client.py:64-110 | from the client's own encoder to `onFrame`: always a prefix of what the client said, and all of it once every post has arrived without repeats or a close |
| XhttpHandlers.XhttpHandler.CloseSession | tunnel/xhttpHandler.js:663-701 | exactly that session leaves both tables, and a token without sessions disappears |
| XhttpHandlers.XhttpHandler.HandleCreate | tunnel/xhttpHandler.js:195-311 | 400 without a client id, 200 when every other client of the token is past its grace period, else 409; the session is listed exactly on 200; own zombies and stale foreign sessions are closed |
| XhttpHandlers.XhttpHandler.InsertSession | tunnel/xhttpHandler.js:261-286 | the new session in both tables, all others untouched |
| XhttpHandlers.XhttpHandler.VisitExisting | tunnel/xhttpHandler.js:209-226 | the loop closes exactly the own sessions without a stream and collects exactly the foreign ones |
| XhttpHandlers.XhttpHandler.HandleStream | tunnel/xhttpHandler.js:392-465 | 400, 401, 403, 404 or 200, each under its exact condition, and the new tables: the stream gets the next number, the cleanup timer is cancelled |
| XhttpHandlers.XhttpHandler.HandleSseClose | tunnel/xhttpHandler.js:468-490 | only the current response takes the stream down; a replaced one is ignored |
| XhttpHandlers.XhttpHandler.HandleClose | tunnel/xhttpHandler.js:316-339 | 401, 404, 403 or 200, each under its exact condition, and the session closed exactly on 200 |
| XhttpHandlers.XhttpHandler.SetCredentials | tunnel/xhttpHandler.js:93-95 | the current token changes and nothing else |
| XhttpHandlers.XhttpHandler.HandleUpload | tunnel/xhttpHandler.js:366-387 | one post on the session object found earlier: the queue steps, and exactly on 503 the session leaves the table |
| XhttpHandlers.XhttpHandler.HandleFrame | tunnel/xhttpHandler.js:629-645 | every frame is handed on; a session still listed then has no attempt, no armed probe and its activity at this time |
| XhttpHandlers.XhttpHandler.HandleBatch | tunnel/xhttpHandler.js:621-646 | exactly the frames of a payload are handed on, none of a payload that does not decode; activity exactly if there is a frame |
| XhttpHandlers.XhttpHandler.HandleAnswer | tunnel/xhttpHandler.js:612-646 | the loop body handles the next delivery in order; it counts as activity of its session exactly if it held a frame |
| XhttpHandlers.XhttpHandler.Turn | tunnel/xhttpHandler.js:605-647 | one turn of the loop is a read or the handling of an answered payload, and it stops exactly when neither is possible |
| XhttpHandlers.XhttpHandler.Pump | tunnel/xhttpHandler.js:605-658 | the loop runs until its read has no answer, and with an open queue has then handled every delivery; exactly on a null answer it closes the session |
| XhttpHandlers.XhttpHandler.HandleNull | tunnel/xhttpHandler.js:613-619 | the session, if still listed, leaves the table |
| XhttpHandlers.XhttpHandler.CleanupTimeout | tunnel/xhttpHandler.js:480-485 | closes a session that still has no stream |
| XhttpHandlers.XhttpHandler.KeepaliveTimeout | tunnel/xhttpHandler.js:803-812 | pings when no ping is out, else only waits again |
| XhttpHandlers.XhttpHandler.ProbeTimeout | tunnel/xhttpHandler.js:744-751 | gives the session up after ten pings, else pings again |
| XhttpHandlers.XhttpHandler.SweepStaleSessions | tunnel/xhttpHandler.js:703-711 | closes exactly the streams that were silent too long |
| XhttpHandlers.XhttpHandler.CloseAll | tunnel/xhttpHandler.js:588-597 | both tables end empty |
| XhttpHandlers.XhttpHandler.GetActiveSessionId | tunnel/xhttpHandler.js:534-544 | the loop finds the open stream with the greatest number, or none if none is open |
| XhttpHandlers.XhttpHandler.GetConnectionCounts | tunnel/xhttpHandler.js:567-583 | one active stream if any is open, and active plus draining is the number of open streams |
| SessionTheorems.CreateKeepsInv | tunnel/xhttpHandler.js:207-286 | a create keeps both tables consistent and one owner per token |
| SessionTheorems.RefusedCreateChangesNothing | tunnel/xhttpHandler.js:228-245 | a 409 or 400 leaves the tables unchanged |
| SessionTheorems.CreateAnswers | tunnel/xhttpHandler.js:228-245 | the three answers to a create, and that it lists the session if and only if there is a client id and every other client with a session of the token is past its grace period |
| SessionTheorems.CreateCloses | tunnel/xhttpHandler.js:207-246 | exactly which sessions an accepted create closes; a foreign one only past the grace period |
| SessionTheorems.CreateTakesOver | tunnel/xhttpHandler.js:261-286 | after an accepted create the token belongs to the new client alone |
| SessionTheorems.StepKeepsInv | tunnel/xhttpHandler.js:164-491 | every handler, timer and close of an upload queue keeps: tables agree, one owner per token, numbered streams, timers that fit |
| SessionTheorems.RunKeepsInv | tunnel/xhttpHandler.js:164-814 | the same on every run; in particular the cleanup timer is armed exactly when there is no stream, and an armed probe has a stream and one to ten attempts |
| SessionTheorems.ClosedForAReason | tunnel/xhttpHandler.js:663-751 | a step ends a session if and only if it is: an accepted create that finds it a zombie of the same client or a session of another client past the grace period, a close request with its token, the cleanup timeout without a stream, the probe after ten pings, the close of its upload queue, the liveness sweep, or shutdown |
| SessionTheorems.OnlyTheOwnerOpens | tunnel/xhttpHandler.js:397-446 | owner and token of a session never change; its stream opens exactly on a request with the current token and its owner's client id, and then has the greatest number; only its own close takes it down; only a frame counts as activity |
| SessionTheorems.OldTokenIsLockedOut | tunnel/xhttpHandler.js:93-95 | new credentials close no session, and both a stream and a close request with the old token get 401 |
| SessionTheorems.OpenedIsActive | tunnel/xhttpHandler.js:534-544 | a stream that opens makes its session the active one |
| SessionTheorems.ActiveIsUnique | tunnel/xhttpHandler.js:534-544 | at most one session is the active one |
| SessionHistory.FrameIsHeard | tunnel/xhttpHandler.js:629-632 | a frame leaves its session with no attempts, no armed probe and its time as activity, and every other session untouched |
| SessionHistory.TimersAfter | tunnel/xhttpHandler.js:729-814 | exactly when the keepalive and the probe timer of a session are armed after a step |
| SessionHistory.RecordIsHistory | tunnel/xhttpHandler.js:629-632 | on every run a listed session was last active when it was last heard, and its attempts are the pings written and not answered since |
| SessionHistory.ProbeEndsIff | tunnel/xhttpHandler.js:744-751 | on every run the probe timer ends a session if and only if ten pings were written since its client was last heard |
| SessionHistory.AnsweredProbesKeepTheSession | tunnel/xhttpHandler.js:744-751 | a client that is heard between any two firings of its probe never loses its session to the probe |
| SessionHistory.SweepEndsIff | tunnel/xhttpHandler.js:703-711 | on every run the sweep ends exactly the open streams whose client was not heard within the timeout |
| SessionHistory.CreateSucceedsIff | tunnel/xhttpHandler.js:228-236 | on every run a create succeeds if and only if every other client with a session of the token was last heard longer ago than the grace period |
| SessionProbes.TenPingsThenGiveUp | tunnel/xhttpHandler.js:729-751 | on every stretch of a table run in which only its two timers touch a probed session and writes succeed: it leaves the table exactly at the probe firing that finds ten attempts; starting with none, after ten pings and at the tenth firing |
| SessionProbes.LeftoverAttemptsStopProbing | tunnel/xhttpHandler.js:805-810 | on such a stretch a session with attempts left over and no probe is never pinged and never leaves the table |
| SessionProbes.GivesUpIffProbed | tunnel/xhttpHandler.js:744-812 | some silent stretch ends without the session if and only if it has no attempts or an armed probe |
| SessionProbes.OpenedStreamGivesUpIff | tunnel/xhttpHandler.js:421-465 | the record of a session whose stream was just opened, and when probing can end it from then on: no attempt was left over, or the probe of the replaced stream is still armed |
| SessionProbes.ReconnectProbesIff | tunnel/xhttpHandler.js:468-490 | a stream that is lost and reopened keeps its attempts and loses its probe; probing can end the session again if and only if it had no attempts |
| SessionProbes.LostStreamIsNotProbed | tunnel/xhttpHandler.js:471-477 | a run of five events from the empty table to an online session that can no longer be given up |
| ServerTheorems.StepKeepsInv | tunnel/xhttpHandler.js:366-387 | every step of table and uploads keeps: a session is listed exactly as long as its upload queue is open |
| ServerTheorems.RunKeepsInv | tunnel/xhttpHandler.js:261-286 | the same on every run of the server, for every session ever created |
| ServerTheorems.SessionEndsIff | tunnel/xhttpHandler.js:378-382 | a step of the server ends a listed session if and only if it is one of the reasons of the table, or a post that comes early while its buffer is full |
| ServerTheorems.SawNullChangesNothing | tunnel/xhttpHandler.js:613-619 | the close at a null answer never finds the session still listed |
| ServerTheorems.EverySessionIsHeardInOrder | tunnel/xhttpHandler.js:605-647 | in the whole server, with any number of sessions, takeovers, timeouts and overflows, `onFrame` has seen of each session a prefix of what its client said: exactly the posts its loop has handled |
| ServerTheorems.EverySessionIsHeardIff | tunnel/xhttpHandler.js:605-647 | of a listed session with every post arrived and its loop at rest, `onFrame` has seen everything its client said if and only if the drain of its last in-order post was unblocked |
| ServerHistory.TableRun | tunnel/xhttpHandler.js:605-658 | every run of the server makes a run of the session table, in which a client is heard exactly when a payload with a frame is handled |
| ServerHistory.ServerRecordIsHistory | tunnel/xhttpHandler.js:605-658 | on every run of the server activity and attempts of a listed session are what its handled payloads and timers say |
| ServerHistory.ServerProbeEndsIff | tunnel/xhttpHandler.js:744-751 | in the whole server the probe ends a session if and only if ten pings were written since a frame of it was handled |
| TunnelManagers.TunnelManager.AllocateReqid | tunnel/manager.js:159-163 | the cyclic counter hands out the id of its call number |
| TunnelManagers.ForwardIds.AllocateForwardReqid | client/tunnel_client.py:922-928 | the client's counter hands out the id of its call number |
| TunnelManagers.TunnelManager.OpenReverseStream | tunnel/manager.js:91-109 | refused at the limit, else one counted entry under a new id |
| TunnelManagers.TunnelManager.HandleForwardConnect | tunnel/manager.js:253-287 | refused for a tunnel domain or at the limit, else one entry and one more forward connect |
| TunnelManagers.TunnelManager.ClearActiveRequest | tunnel/manager.js:391-401 | the entry leaves the table and a counted reverse entry is uncounted once |
| TunnelManagers.TunnelManager.RunCleanup | tunnel/manager.js:289-296 | only the first cleanup of a forward connect counts it down and clears its id |
| TunnelManagers.TunnelManager.HandleFrame | tunnel/manager.js:171-251 | CLOSE and CONNECT_FAILED take the id off the table and count a counted reverse request down once; an accepted CONNECT makes one forward entry; every other frame leaves the table as it is; a PING is answered with its payload, a refused CONNECT with CONNECT_FAILED |
| TunnelManagers.FrameEffect | tunnel/manager.js:171-251 | the whole new table after each type of frame, said without the events of the table |
| TunnelManagers.TunnelManager.ClearNamed | tunnel/manager.js:484-494 | the loop clears exactly the requests of the session |
| TunnelManagers.TunnelManager.SetDisconnected | tunnel/manager.js:480-501 | a disconnect clears every request of the session |
| TunnelManagers.ClearOneMore | tunnel/manager.js:484-494 | clearing ids one after the other is clearing them together, counters included |
| TunnelManagers.ChunksAreTheData | tunnel/manager.js:410-415 | the chunks put together are the data; each is non-empty and fits one frame, and all but the last are full |
| TunnelManagers.SendData | tunnel/manager.js:403-419 | what the loop writes decodes to one DATA frame per chunk, in order |
| ManagerTheorems.IdsAreDistinct | tunnel/manager.js:159-163 | ids stay in 1 to 0x7FFF, and two equal ones are at least 0x7FFF calls apart |
| ManagerTheorems.ForwardIdsAreDistinct | client/tunnel_client.py:922-928 | the client's ids stay in 0x8000 to 0xFFFE, never equal a server id, and repeat only after 0x7FFF calls |
| ManagerTheorems.StepKeepsInv | tunnel/manager.js:76-502 | every event keeps the counters exact, and a leak appears exactly when it overwrites a live reverse entry |
| ManagerTheorems.CountersAreExact | tunnel/manager.js:264-369 | on every run the forward counter is the number of connects not yet cleaned up, the reverse counter the number of counted entries, and both stay within their limits |
| ManagerTheorems.ReverseCountIsLiveIff | tunnel/manager.js:91-109 | on every run the reverse counter is the number of live reverse requests if and only if no live one was overwritten |
| ManagerTheorems.YoungIsSafe | tunnel/manager.js:159-163 | no event overwrites a live reverse entry when fewer than 0x7FFF ids were issued since each was born and the client keeps to its ids |
| ManagerTheorems.ReverseCountIsLive | tunnel/manager.js:91-109 | under that condition the reverse counter is exact on every run |
| ManagerTheorems.CleanupEndsAnotherIff | tunnel/manager.js:289-296 | the first cleanup counts down and clears its id, a second does nothing; it ends another request if and only if one was stored under the id since |
| ManagerTheorems.DisconnectForgets | tunnel/manager.js:480-501 | right after a disconnect no request names the session, exactly its requests have left the table, and the entries of other sessions are untouched |
| ManagerTheorems.NamedNextIff | tunnel/manager.js:91-109 | a session that no request names is named after one event if and only if that event is an accepted reverse request or CONNECT of it |
| ManagerTheorems.NamedLaterIff | tunnel/manager.js:253-287 | on every run, a session that no request names at one point is named at a later one if and only if an event in between made a request of it that is still live |
| ManagerTheorems.ForgottenForGoodIff | tunnel/manager.js:480-501 | on every run, after a disconnect no request ever names the session again if and only if no later event makes one of it |
| ManagerRuns.ForeignIdOverwrites | tunnel/manager.js:274-279 | a run of two events after which the reverse counter is one and no reverse request is live |
| ManagerRuns.WrapAroundOverwrites | tunnel/manager.js:159-163 | a run without any CONNECT of the client in which the counter comes round and overwrites a live request |
| ManagerRuns.LateCleanupEndsSuccessor | tunnel/manager.js:289-296 | a run of four events in which the late cleanup of a closed connect ends the request that has its id now |
| ServiceTheorems.NamedByFramesIff | tunnel/manager.js:171-251 | handling a payload of a session without requests leaves it with one if and only if some CONNECT in it is accepted and still live at its end |
| ServiceTheorems.OnFrameEffect | tunnel/manager.js:253-261 | which frames of a session change the table; a CONNECT to a tunnel domain makes no entry |
| ServiceTheorems.ForwardNamesActive | tunnel/manager.js:91-109 | a reverse request below the limit makes one live entry, for the open stream with the greatest number |
| ServiceTheorems.DisconnectOneMore | proxy/proxy.js:1380-1382 | disconnecting the sessions that one step closes one after the other is disconnecting them together, counters included |
| ServiceTheorems.StepKeepsInv | tunnel/xhttpHandler.js:605-658 | every step of the service keeps: listed sessions are those with an open queue, and both request counters are exact and bounded |
| ServiceTheorems.StraysIff | tunnel/xhttpHandler.js:612-642 | when every request belongs to a listed session, a step changes that if and only if it is the loop of a closed session handling a payload with a CONNECT that is accepted and still live at its end |
| ServiceTheorems.AlwaysCleanIff | tunnel/xhttpHandler.js:605-658 | on every run every request belongs to a listed session at every point if and only if no step so far was such a stray one |
| ServiceRuns.LateConnectNamesClosedSession | tunnel/xhttpHandler.js:612-642 | a run of five events after which a request names a session that was closed and disconnected before |
| WebSocketFrames.WriteFrame | android-client/native/utlsws/websocket.go:187-235 | the header array and the body are laid out as section 5.2 of RFC 6455 says, body byte by body byte the exclusive or of payload and key, or the error for a long control frame |
| WebSocketFrames.PutLength | android-client/native/utlsws/websocket.go:203-214 | fills the header with the shortest of the three length forms |
| WebSocketFrames.PutBigEndian | android-client/native/utlsws/websocket.go:206-213 | writes a number big-endian in place and touches nothing else |
| WebSocketFrames.XorLoop | android-client/native/utlsws/websocket.go:224-227 | every byte of the body is, bit by bit, the exclusive or of its payload byte and key byte number i mod 4 |
| WebSocketFrames.UnmaskMask | android-client/native/utlsws/websocket.go:333-337 | masking twice with one key restores the payload (section 5.3 of RFC 6455) |
| WebSocketFrames.XorBit | android-client/native/utlsws/websocket.go:226-227 | a bit of the result is one exactly when the two bits differ |
| WebSocketFrames.FrameLayout | android-client/native/utlsws/websocket.go:187-235 | every frame is written as the standard lays it out: FIN bit and opcode, mask bit, shortest length form spelled big-endian, key, masked body |
| WebSocketFrames.ReadFrameIff | android-client/native/utlsws/websocket.go:287-339 | for every byte string: a frame and a rest are returned if and only if they stand there under a whole header, masked as expected and within the limits, with any of the three length forms |
| WebSocketFrames.LengthRoundTrip | android-client/native/utlsws/websocket.go:301-315 | each length form is read back with the bytes it takes |
| WebSocketFrames.FrameRoundTripIff | android-client/native/utlsws/websocket.go:287-339 | for every frame that can be written, masked or not, reading gives it back and leaves exactly what followed, if and only if the opcode has four bits and the payload is within the limit |
| WebSocketMessages.ReadWebSocketMessage | android-client/native/utlsws/websocket.go:241-285 | the loop with its fragment buffer and flag computes `ReadMessage`; pongs are written only with a control writer, and every one is a legal control frame |
| WebSocketMessages.ReadingIsFeeding | android-client/native/utlsws/websocket.go:241-285 | reading the bytes of a list of frames is feeding it the frames |
| WebSocketMessages.ReadsConforming | android-client/native/utlsws/websocket.go:241-285 | every conforming split of a binary message, pings and pongs anywhere, reads back whole with one pong per ping in order and nothing more of the stream, exactly when it is within the limits; otherwise the read fails |
| WebSocketMessages.AcceptedIff | android-client/native/utlsws/websocket.go:250-283 | the read ends in a message exactly at the end of the frames if and only if the frame sequence is accepted and every size is within the limits; the message is the last frame alone if that is a binary one, else all data put together, with one pong per ping |
| WebSocketMessages.AcceptedConformsIff | android-client/native/utlsws/websocket.go:262-270 | an accepted sequence conforms to section 5.4 of RFC 6455 if and only if no message restarts in the middle and every control frame is final |
| WebSocketMessages.ConformingFitsIff | android-client/native/utlsws/websocket.go:262-283 | a conforming split is within the message limit at every frame if and only if the whole message is |
| WebSocketMessages.RefusedWith | android-client/native/utlsws/websocket.go:250-283 | a close, text or unknown frame, or a continuation of nothing, ends the read with its own error, after the pongs for the pings before it |
| WebSocketMessages.OnlyCloseCloses | android-client/native/utlsws/websocket.go:271-272 | a read ends as closed only if the last frame read was a close frame |
| WebSocketMessages.RestartLosesFragments | android-client/native/utlsws/websocket.go:266-268 | a final binary frame in the middle of a message is returned alone |
| WriterQueues.WriterQueue.Reserve | android-client/native/utlsws/client.go:160-170 | the bytes are counted exactly when the connection is open and both limits allow |
| WriterQueues.WriterQueue.Offer | android-client/native/utlsws/client.go:172-174 | the send succeeds exactly when the channel has room |
| WriterQueues.WriterQueue.GiveBack | android-client/native/utlsws/client.go:175-180 | the bytes of a rejected call are given back |
| WriterQueues.WriterQueue.SendBinary | android-client/native/utlsws/client.go:155-181 | an uninterrupted call is accepted exactly when the queue admits it, and then counted and enqueued once |
| WriterQueues.WriterQueue.TakeNext | android-client/native/utlsws/client.go:205-206 | the writer takes the oldest queued payload |
| WriterQueues.WriterQueue.FinishWrite | android-client/native/utlsws/client.go:206-210 | the bytes of the finished write are given back |
| WriterQueues.WriterQueue.CloseAfterFailure | android-client/native/utlsws/client.go:211-217 | after a failed write the writer closes the connection, in a critical section of its own |
| WriterTheorems.StepKeepsInv | android-client/native/utlsws/client.go:155-220 | every critical section keeps the accounting exact and the order |
| WriterTheorems.AccountingIsExact | android-client/native/utlsws/client.go:155-220 | in every interleaving pending bytes are those reserved, queued and being written, within the limit; the channel stays within its own; what is taken is a prefix of what was accepted, each once |
| WriterTheorems.NothingLeaks | android-client/native/utlsws/client.go:155-220 | with all calls returned and nothing queued or in flight no byte is still counted |
| WriterTheorems.OrderIsStable | android-client/native/utlsws/client.go:172-206 | the order of acceptance and of taking never changes later |
| WriterTheorems.LetInIff | android-client/native/utlsws/client.go:160-170 | a new call is let in if and only if the connection is open, the channel has room and the bytes of all unfinished calls and messages leave room for its own |
| WriterTheorems.ClosedAcceptsNothingNew | android-client/native/utlsws/client.go:161-163 | in every interleaving a closed connection stays closed and accepts only calls that had passed their first critical section |
| WriterTheorems.FailedWriteIsTheLast | android-client/native/utlsws/client.go:206-217 | after a failed write nothing more is taken, and the connection is about to be closed or is |
| WriterTheorems.StoppedTakesNothing | android-client/native/utlsws/client.go:201-204 | a writer that has stopped takes nothing, though payloads may still be queued |
| WriterTheorems.TakesIfItCan | android-client/native/utlsws/client.go:205-217 | with no close and no failed write so far the writer can take exactly when a message is queued and it is not writing |
| Admissions.LocalProxy.Arrived | client/proxy_core.py:1710-1715 | refused at the ceiling, else counted |
| Admissions.LocalProxy.TryAcquireTarget | client/proxy_core.py:654-665 | admitted exactly below 8 for port 53 and 64 for others, and then counted |
| Admissions.LocalProxy.GrantSlot | client/proxy_core.py:1790-1793 | one free slot goes to the handler |
| Admissions.LocalProxy.ReleaseAll | client/proxy_core.py:1835-1838 | the slot, if held, and the place of the target are given back |
| Admissions.LocalProxy.Finished | client/proxy_core.py:1430-1432 | the counter goes down by exactly one: the clamp at zero never acts |
| AdmissionTheorems.StepKeepsInv | client/proxy_core.py:1778-1838 | every step of every handler keeps all three totals exact |
| AdmissionTheorems.CountsAreExact | client/proxy_core.py:625-673 | in every interleaving active connections are those started and not finished, at most 2048; each target has its holders as count, at most 8 on port 53 and 64 on others; free and held slots are 256 together |
| AdmissionTheorems.AllReturned | client/proxy_core.py:667-673 | when all handlers have ended every counter is back at its start and no target has an entry |
| ProtoParser.ReadVarintLoop | client/proto_parser.py:7-21 | the shifting loop computes the value and the bytes of a varint of any length |
| ProtoParser.ParseValueAt | client/proto_parser.py:40-55 | the value of each wire type, or none for an unknown one |
| ProtoParser.ParseMessage | client/proto_parser.py:24-57 | the loop terminates on every byte string with the fields of `Parse` |
| ProtoParser.VarintRoundTrip | client/proto_parser.py:7-21 | every number of any size is read back from its varint |
| ProtoParser.FieldRoundTrip | client/proto_parser.py:35-56 | every well-formed field of wire types 0, 1, 2 and 5 is read back |
| ProtoParser.ParseConcatenation | client/proto_parser.py:34-57 | parsing is a homomorphism: what follows a complete message is parsed as if it stood alone |
| ProtoParser.CompleteConcatenation | client/proto_parser.py:34-57 | complete messages in a row are a complete message |
| ProtoParser.MessageRoundTrip | client/proto_parser.py:24-57 | every list of well-formed fields is parsed back from its encoding |
| ProtoParser.CutValueIsShortened | client/proto_parser.py:43-47 | a length-delimited value cut off by the end of the input is returned with the bytes there are |
| ProtoParser.KnownTypes | client/proto_parser.py:40-55 | wire types 0, 1, 2 and 5 are parsed and no other |
| ProtoParser.KnownMessages | client/proto_parser.py:7-57 | the fields of given messages, byte by byte |
| ProtoEndings.ThreeEndings | client/proto_parser.py:34-57 | every input is complete, or ends inside a field, or stops at an unknown wire type, and only one of them |
| ProtoEndings.ConcatenatesIffComplete | client/proto_parser.py:34-57 | whatever follows an input is parsed as if it stood alone, if and only if the input is complete |
| ProtoEndings.FinalIffNotCut | client/proto_parser.py:34-57 | the fields returned stay the same whatever else arrives, if and only if the input does not end inside a field |
| AccessLogs.AccessLog.CountIPAccess | proxy/attacker.js:15-50 | the count is the number of remembered accesses in the window of the whole history; it is the true number if and only if the size cap lost none of them |
| AccessLogs.AccessLog.IsBadGuy | proxy/attacker.js:58-67 | true exactly when some offence of the address was never forgiven |
| AccessLogs.AccessLog.SetGoodGuy | proxy/attacker.js:74-93 | the address is not bad, and exempt exactly for the next ten minutes |
| AccessLogs.AccessLog.CleanupInactiveIPs | proxy/attacker.js:100-128 | keeps exactly the addresses seen in the last ten minutes or exempt, each with its accesses of the last two minutes; evicts nothing up to ten thousand records, else the thousand seen longest ago |
| AccessLogs.AccessLog.SweepEntries | proxy/attacker.js:104-117 | the loop deletes exactly the idle, not exempt records and prunes the others |
| AccessLogs.AccessLog.EvictOldest | proxy/attacker.js:120-127 | removes exactly the records seen longest ago |
| AccessLogTheorems.LogKnows | proxy/attacker.js:15-128 | after every history the record of each address, present or not, agrees with the history on counts, exemption and badness |
| AccessLogTheorems.CountIsWindowIff | proxy/attacker.js:15-50 | despite pruning and deletion a count is the number of accesses in the last two minutes of the full history, if and only if the size cap evicted none of them |
| AccessLogTheorems.NoCapNoLoss | proxy/attacker.js:119-128 | with the size cap never reached every count is the true one |
| AccessLogTheorems.BadIffFlagged | proxy/attacker.js:58-67 | bad exactly when some access outside any exemption reached twenty and was never forgiven |
| AccessLogTheorems.BadCameTwentyTimes | proxy/attacker.js:36-41 | a bad address came at least twenty times within two minutes, outside any exemption and after its last praise |
| AccessLogTheorems.TwentiethAccessMarks | proxy/attacker.js:36-41 | an access marks its address if and only if no exemption holds and it is at least the twentieth remembered in two minutes |
| AccessLogTheorems.BadUntilForgiven | proxy/attacker.js:74-128 | a bad address stops being bad exactly by praise, by eviction, or by a clean-up more than ten minutes after it was seen |
| AccessLogTheorems.FlaggedIsNotExempt | proxy/attacker.js:63-66 | an address whose offence stands is not exempt |
| AccessLogOverflow.EvictionLosesAnAccess | proxy/attacker.js:120-127 | a legal history in which an address came twice within the window and is counted once |
| UdpFraming.UdpAssociation.OnData | socks5/server.js:294-352 | one chunk extracts exactly the frames now complete, hands their datagrams to the socket, and keeps the rest; a zero length destroys the connection |
| UdpFramingTheorems.BatchAppend | socks5/server.js:298-307 | more bytes never change the frames already complete |
| UdpFramingTheorems.ChunksDoNotMatter | socks5/server.js:294-307 | for every way of cutting the stream the frames are those of the whole stream and the buffer is its tail |
| UdpFramingTheorems.NothingIsDropped | socks5/server.js:298-307 | every byte of the stream is in a frame or in the tail |
| UdpFramingTheorems.FramesRoundTripIff | client/proxy_core.py:100-103 | reading inverts writing exactly for lists without an empty payload |
| UdpFramingTheorems.EmptyPayloadEndsIt | socks5/server.js:299-303 | an empty payload ends the association there |
| UdpFramingTheorems.TcpToUdp | client/proxy_core.py:1897-1909 | the client's read loop takes the same frames, tail and verdict off a stream as the server's buffer loop |
| UdpFramingTheorems.DatagramRoundTrip | socks5/server.js:309-341 | a datagram of any address type is read back exactly when it has data and ten bytes with its header, and is ignored otherwise (section 7 of RFC 1928) |
| UdpFramingTheorems.ParseDatagramIff | socks5/server.js:309-343 | for every byte string: it is handed to the socket as a datagram if and only if it is the encoding of that datagram, which has data and ten bytes |
| UdpFramingTheorems.FragmentsAreSkipped | socks5/server.js:310-333 | a payload with a fragment number, reserved bytes or an unknown address type is skipped |
| UdpFramingTheorems.KnownDatagrams | socks5/server.js:309-341 | the bytes of given datagrams (section 7 of RFC 1928) |
| UdpFramingTheorems.ShortNameIsDropped | socks5/server.js:309 | a valid datagram that is dropped |
| UdpFramingTheorems.DatagramsArrive | socks5/server.js:294-343 | however the framed datagrams are cut into chunks, exactly the deliverable ones are handed to the UDP socket, in order, and nothing is kept back |

## Left out

- UdpFraming: replies from the UDP socket use the same frame writer and are not modelled separately; the textual form
  of an address is left out, and "sent" means handed to the socket: the socket is a `udp4` one and refuses port 0 and
  the bracketed text of an IPv6 address (socks5/server.js:333).
- ReorderRuns.NextIsLeastNeverPushed: one direction; NextIsLeastNeverPushedIff is the exact condition.
- PythonCodec.ServerToClient: text is bytes on both sides, so a decoding error of the client on bytes that are not
  UTF-8 is not modelled.
- AccessLogs.AccessLog.EvictOldest: the sort by `lastSeen` is modelled as taking the least remaining record again and
  again; which of several equally old records goes first is left open.
- WebSocketMessages.ReadWebSocketMessage: the rest of the stream after a failed read is not what the code has consumed;
  write errors of a pong are ignored, as the code ignores them.
- Admission: one start of the proxy. `_start_servers` (client/proxy_core.py:1272-1277) replaces the admission table, the
  semaphore and the counter, so a handler that outlives a restart is outside the model.
- WriterSpec: memory visibility is that of the mutex and the channel; the listener callbacks and the socket are left out.
- Sessions, requests and handlers are values in their tables, so a detached session or entry object that a callback
  still holds is modelled only by the steps it can still take (in `Server` for the upload side), not as a shared object.
- UploadSessions.UploadSession.HandleUpload: closing the session on 503 is XhttpHandlers.XhttpHandler.HandleUpload;
  the 400 and 404 answers given before the body is read are left out.
- The flags `counted` and `cleaned` of a request are kept with a numbered entry, as entries are values too.
- Fields the source does not have: the count of issued ids and the birth of each request in `TunnelManager`, the phase
  of each handler in `LocalProxy`, and the frames handed on in `UploadSession` are ordinary fields kept beside the code;
  the count in `ForwardIds` and the histories of payloads, calls, frames and accesses elsewhere are ghost.
- The bytes of DATA frames and the `confirmed` flag of a request are not kept in the request table, nor is what is
  sent to a client besides the answers to PING and CONNECT.
- JavaScript numbers beyond 2^53, and what non-numeric or negative arguments do where the source does not check them.
- Delays: which timer fires first is open, and keepalive jitter, padding and the `resetKeepalive` postponement only
  change when a timer fires.
- Of the callbacks to the manager, `Service` models `onFrame` and `onSessionClosed`; `onSessionCreated`, which makes no
  request, is left out, and so are capability negotiation, headers, base64 and the text of error messages.
- The POST retry of the client, its choice of chunks and its numbering beyond "each post under its own number".
- The setup timeout of `_acquire_setup_slot` is a handler that releases without a slot; fairness of the semaphore is
  left out. `UpstreamPool` and the statistics counters are not modelled.
- createLRUCache, prewarmCerts, ensureCert and CfIpSelector: short single-owner data structures that would add easier
  members than those here.
- fetchRemoteResponse and the half-close relay of the HTTP proxy: dominated by sockets and timers.
- Tunnel rotation in client/tunnel_client.py, chunked decoding in proxy/http.js, MITM rules, DNS, geodata, all user
  interfaces and the Android service.
