# WarpApi connection core, verified

A Dafny model of the part of WarpApi that turns one connection's chopped-up byte
stream into messages and messages back into a chopped-up byte stream, and proofs
about it. `dafny verify dfyconfig.toml` checks everything.

| file | what it models |
|---|---|
| `Bytes.dfy` | bytes, 64-bit sizes, exclusive or, big-endian numbers, sequence facts |
| `RingBuffer.dfy` | `ink::RingBuffer` as a bounded FIFO, and `HttpResponse::writeAll` over it |
| `Wire.dfy` | `ws::sendFrame`, and a decoder written from RFC 6455, section 5.2 |
| `Engine.dfy` | `dispatchFrame`, `processFrames`, `WebSocketContext`, and the functions they are proved against |
| `Streams.dfy` | the engine on whole streams: chunking, accepted language, round trip, replies, echo |
| `Spelled.dfy` | what single frames do, written out in literal bytes and bits |
| `Closes.dfy` | how many Closes an answer holds, and which routes can make it two |
| `Epoll.dfy` | the epoll session in WebSocket mode, over a nondeterministic socket |
| `ZeroCopy.dfy` | the io_uring session with the kernel's books as a state machine, and its runs |
| `Aftermath.dfy` | what can still happen after a close by the engine, or after sends overlap |
| `Progress.dfy` | what such a session goes on doing: listening, sending, and when it must end |
| `IoUring.dfy` | the io_uring session and worker loop, each turn of which is a step of that machine |
| `Scan.dfy`, `Decimal.dfy` | `find_crlf`, `fast_atoi`, `fast_itoa` |
| `Http.dfy` | `parseRequest` and the drain loop around it |
| `HttpRuns.dfy`, `HttpCutShort.dfy` | printed requests: one, many pipelined, and cut short |
| `HttpLanguage.dfy` | exactly which bytes are accepted as a request |
| `HttpChunks.dfy` | printed requests arriving in chunks |
| `Base64.dfy` | `base64Encode`, and a decoder written from RFC 4648, section 4 |

How the pieces meet: every method is proved equal to a function of the old state
(`Engine.Drain`, `Http.Parse`, `ZeroCopy.Next`, ...); the laws are lemmas about
those functions; and the two session classes carry the laws to whole runs. On
either backend, whatever the sizes and outcomes of receives and sends, what the
peer has been sent is a prefix of the answer one run of the engine gives to
everything the peer will ever write, up to the first byte that overflowed the
write buffer if one did (and, on io_uring, as long as no send overlaps another).

## Conventions and assumptions

- A byte is a number below 256. Masks, shifts and "or" on bytes and on `u64` are
  written as the division, remainder and sum they amount to, with reduction modulo
  2^64 where the source could wrap; exclusive or is defined bit by bit. The io
  flags are a `bv8` with the source's own bit operations.
- `ink::RingBuffer` is not part of this model. It is taken to be a bounded FIFO whose
  `write` may accept only part of its input but something whenever there is room,
  whose write side offers some nonempty contiguous prefix when nonempty, and whose
  `getReadBuffer` on the read side offers all unread bytes, which both parsers rely on.
  Told to drop more than it holds, as only overlapping sends can make a session do, it
  is taken to be left empty.
- Route callbacks are functions from the callbacks fired before, and the payload, to
  the calls made on the context. An absent callback makes no calls.
- The kernel is nondeterministic. On io_uring a successful send result announces a
  notification, which comes exactly once and after the result; the kernel reports
  only on operations it holds, and goes on doing so after a session was given back.
  Such a late report is taken to find the closed session; in the source the object has
  been destroyed, and its place in the pool may hold another session by then.
  The timer wheel may expire a session at any time, and again, until it is unlinked.
  What a turn of the worker loop wakes up for, and the outcome and size of each
  operation, are any; full submission queues and would-blocks are counted in ghost fields.
- `max_body_size` is at most 2^64 - 15, and for HTTP its sum with the read buffer's
  size is below 2^64; then no length computation wraps.
- WebSocket runs start just after the upgrade, with an empty read buffer and the
  handshake in the write buffer (`prelude`).

## Where the code falls short of its own intention

Each is a theorem, with the exact condition where there is one.

- A receive handled between a send's result and its notification starts a second send
  of bytes the kernel already has, because the guard at src/Server/Session.cpp:260
  looks at IO_WRITING only (`ZeroCopy.OverlapExactly`, `ZeroCopy.SingleSendExactly`).
  From there the kernel's stream can stop being what was appended, always unless that
  receive also closed the session (`Aftermath.OverlapDuplicates`); and the session can
  be given back to the pool under a send the kernel still holds, exactly unless that
  receive closed it (`Aftermath.OverlapFreesEarly`). `Aftermath.Mishap` is one run of a
  session just accepted in which both happen.
- On epoll a Close of the engine, be it the answer to the client's or a protocol error,
  is never sent: the call that wrote it closes the socket before anything is flushed,
  and with it goes whatever else that call answered (`Epoll.EngineCloseNeverSent`).
- On io_uring such a Close can reach the peer exactly if no send was outstanding, a queue
  entry was at hand, and the whole write buffer lay in the region it offered for sending
  (`Aftermath.EngineCloseDelivery`, `IoUring.Session.CloseFate`).
- A closing io_uring session with any flag set is never released, because completions
  are ignored once it is closing. So a connection that ends with a Close of the engine,
  the ordinary way to end one, is not released, except when no send is outstanding and
  there is no queue entry to start one (`ZeroCopy.ClosingFate`,
  `Aftermath.EngineCloseFate`, `IoUring.WebSocketCloseLeaks`, `IoUring.EmptyCloseLeaks`).
- As long as sends do not overlap, the branch that releases a session on a completion
  is dead: only the timer releases one (`ZeroCopy.OnlyTheTimerFrees`). After an overlap
  it is not dead, and releases too early (`Aftermath.Mishap`).
- A client's Close with a one-byte body, which section 5.5.1 of RFC 6455 forbids, is put
  into the write buffer again as it is. That is the only way the engine's own frames can
  break sections 5.5 and 5.5.1, leaving aside which codes mean something and whether a
  reason is UTF-8 (`Streams.OutputLegal`, `Streams.OutputLegalForClient`,
  `Streams.OneByteCloseEchoed`).
- A Close written by a callback is not remembered in `closeSent`, so the client's Close is
  answered with another one: the answer put into the write buffer can hold two Closes
  exactly if the route asks for one after some messages (`Closes.CallbackCloseForgotten`,
  `Closes.AtMostOneCloseExactly`). On epoll the peer sees only those the route asked for
  before the engine refused to go on (`Epoll.ClosesSeenByPeer`).
- A read buffer can fill up, which closes the connection and on io_uring queues an
  operation the worker loop cannot handle, exactly if its size is below the body limit
  plus 14 bytes (`Streams.ReadBufferExactly`, `IoUring.Serve`).
- The header loop takes the end of the buffer for the end of the headers, so some
  incomplete requests are accepted (`HttpCutShort.TakenTooEarlyExactly`,
  `HttpLanguage.AcceptedRequests`), and requests that arrive in chunks are handed over as
  printed exactly if no chunk ends in such a place (`HttpChunks.ChunksExactly`).
- Content-Length is read modulo 2^64 before it is compared with the limit, so a request
  that prints a length of 2^64 or more can be accepted (`HttpRuns.LengthLimitExactly`,
  `HttpRuns.OverstatedIsTaken`).
- Keep-alive is set afresh by every attempt that gets past a request line, also by the
  failing one that ends the drain loop. So a request that asks for a close is kept alive
  after all as soon as the next one's line is behind it in the buffer
  (`HttpRuns.KeptAfterDrain`, `HttpRuns.CloseForgotten`).

## Model

| member | source | states |
|---|---|---|
| RingBuffers.WriteAll | src/Response/HttpResponse.h:34-44 | however the ring splits writes, exactly the longest prefix that fits is appended, and the result says whether that was everything |
| Wire.FillHeader | src/Server/WebSocket.cpp:17-37 | the scratch array holds the frame header, with the 8-step big-endian loop for long payloads |
| Wire.SendFrame | src/Server/WebSocket.cpp:15-44 | appends the longest prefix of the encoded frame that fits, so the whole frame whenever header plus payload fit |
| Wire.ServerStreamDecodes | src/Server/WebSocket.cpp:15-44 | an independent decoder that insists on minimal lengths returns exactly the frames sent, for any sequence of frames and any bytes after them |
| Wire.ServerStreamInjective | src/Server/WebSocket.cpp:15-44 | different frame sequences have different bytes |
| Wire.PrefixDecodes | src/Server/WebSocket.cpp:15-44 | from any part of the output seen so far, a receiver decodes the first of the frames sent |
| Wire.ControlHeader | src/Server/WebSocket.cpp:19-25 | a final control frame of at most 125 bytes has a two-byte header spelling FIN, opcode and length |
| Engine.WebSocketContext.SendText | src/Server/WebSocketContext.cpp:4-7 | appends one text frame |
| Engine.WebSocketContext.SendBinary | src/Server/WebSocketContext.cpp:9-12 | appends one binary frame |
| Engine.WebSocketContext.Close | src/Server/WebSocketContext.cpp:14-26 | appends one Close frame with the code's two bytes and the first 123 bytes of the reason, or all of it if that is shorter |
| Engine.DispatchFrame | src/Server/WebSocket.cpp:46-95 | new state, result and appended bytes are those of the one-frame function, clipped to the room left |
| Engine.ReadLength | src/Server/WebSocket.cpp:121-132 | the shift loop reads the big-endian number, never leaving `u64` |
| Engine.Unmask | src/Server/WebSocket.cpp:150-153 | bit by bit: bit n of payload byte k, filled in place, is the parity of bit n of masked byte k and bit n of key byte k mod 4 |
| Engine.TakenIsClear | src/Server/WebSocket.cpp:142-153 | the payload of any frame taken is related in that way to the bytes in the buffer |
| Bytes.XorIsBitwise | src/Server/WebSocket.cpp:150-153 | the exclusive or of two bytes is the one byte each of whose eight bits is the parity of theirs |
| Engine.ReadBody | src/Server/WebSocket.cpp:135-153 | limits first, then sizes; no sum wraps for any limit up to 2^64 - 15 |
| Engine.ReadFront | src/Server/WebSocket.cpp:102-133 | the verdict on the front of the buffer: wait, refuse, or take a frame, its payload unmasked bit by bit from where it stands in the buffer |
| Engine.TakeFrame | src/Server/WebSocket.cpp:155-158 | a frame taken leaves the buffer and its answers are appended behind those of earlier frames, clipped to the room there was |
| Engine.ProcessFrames | src/Server/WebSocket.cpp:97-160 | the loop terminates; result, state, leftover bytes and appended output are those of one drain of the buffer |
| Streams.ParseStable | src/Server/WebSocket.cpp:100-155 | later bytes never change a verdict already reached |
| Streams.DrainSplit | src/Server/WebSocket.cpp:97-160 | draining a, then the leftover with b, is draining a + b; after a refusal b is only added to the leftover |
| Streams.ChunkingIndependence | src/Server/WebSocket.cpp:97-160 | any list of chunks gives the same frames, output, leftover, state and result as one run |
| Streams.AnswersGrow | src/Server/WebSocket.cpp:97-160 | the output for part of a stream is a prefix of the output for all of it |
| Streams.FramesBounded | src/Server/WebSocket.cpp:100-159 | each dispatched frame consumes at least six bytes, the leftover is a suffix of the input, and while the connection stays open it is shorter than 14 bytes plus the body limit |
| Streams.AcceptedLanguage | src/Server/WebSocket.cpp:102-155 | a frame is taken if and only if the buffer starts with one of its masked encodings and it is within the limits |
| Streams.RefusedLanguage | src/Server/WebSocket.cpp:115-140 | a buffer is refused if and only if its second byte lacks the mask bit or it starts with the head of a masked frame over a limit, whether or not the payload has arrived |
| Streams.PlainIsSendFrameHeader | src/Server/WebSocket.cpp:19-37 | the client encoding used in the round trip is sendFrame's header with mask bit, key and masked payload |
| Streams.ClientRoundTrip | src/Server/WebSocket.cpp:97-159 | any sequence of client frames, under any keys and length forms, is dispatched as it was, in order, consuming exactly its bytes |
| Streams.UpToFirstClose | src/Server/WebSocket.cpp:60-94 | of known final frames exactly those up to and including the first Close are dispatched |
| Streams.ReplyDiscipline | src/Server/WebSocket.cpp:46-160 | the engine's own frames are one Pong per Ping in order, then at most one Close; closeSent is set exactly with that Close, in a call that returns false |
| Streams.RunDiscipline | src/Server/WebSocket.cpp:46-160 | the same over a whole run of calls, however the stream is cut into receives |
| Streams.CallbackDiscipline | src/Server/WebSocket.cpp:60-94 | the route is called once for every message and for a Close, with its payload and in order, and what goes out on its account is what it asked for, call by call |
| Streams.CloseIsLastCall | src/Server/WebSocket.cpp:75-84 | after it is told of a Close the route is never called again, and that call returns false |
| Streams.OnlyFramesMatter | src/Server/WebSocket.cpp:97-160 | what is sent and remembered depends on the stream only through the frames taken from it |
| Streams.CallbackCloseLegal | src/Server/WebSocketContext.cpp:14-26 | for any code and reason the frame is a legal control frame, the code reads back, and behind it stand the first 123 bytes of the reason |
| Streams.OutputShape | src/Server/WebSocket.cpp:51-94 | every frame sent can be expressed, and the engine's own are final control frames of at most 125 bytes |
| Streams.OutputLegal | src/Server/WebSocket.cpp:51-94 | the engine's own frames meet sections 5.5 and 5.5.1, Close bodies included, if and only if the client did not end with a Close of one byte |
| Streams.OutputLegalForClient | src/Server/WebSocket.cpp:51-94 | for any client frames of the known kinds: if and only if the first Close among them has no one-byte body |
| Streams.OneByteCloseEchoed | src/Server/WebSocket.cpp:75-80 | such a Close is put into the engine's answer as it was, whatever its byte and key |
| Streams.ReadBufferExactly | src/Server/WebSocket.cpp:100-148 | what is left to wait for never fills the read buffer if and only if that is at least 14 bytes longer than the body limit |
| Streams.CloseReadsBack | src/Server/WebSocket.cpp:51-94 | a Close of the engine's repeats the client's payload, code included, or carries code 1002 |
| Streams.DispatchedAdmitted | src/Server/WebSocket.cpp:135-140 | only frames within both limits are ever dispatched |
| Streams.OutputDecodes | src/Server/WebSocket.cpp:97-160 | a receiver decodes the output to exactly the frames sent, and any part of it to the first of them |
| Streams.EchoCorrect | src/Services/GeneralServices.cpp:87-98 | for any keys, length forms and chopping, the echo route answers one text frame per data frame and one Pong per Ping, same payloads, same order |
| Spelled.CallsSpelled | src/Server/WebSocketContext.cpp:4-26 | sendText makes an 0x81 frame, sendBinary an 0x82 frame and close an 0x88 frame with code and first 123 bytes of the reason, for every payload length in the form that length needs |
| Spelled.PingAnswered | src/Server/WebSocket.cpp:68-71 | a final 0x89 frame of up to 125 bytes, under any key, makes the output exactly 0x8A, the length and the unmasked payload |
| Spelled.PongIgnored | src/Server/WebSocket.cpp:72-73 | a final 0x8A frame makes none, and the connection goes on |
| Spelled.CloseAnswered | src/Server/WebSocket.cpp:75-84 | a final 0x88 frame makes 0x88, the length and the same payload, unless a Close was sent, and only then what onClose asks for; then the connection ends |
| Spelled.MessageDelivered | src/Server/WebSocket.cpp:60-67 | a final 0x81 or 0x82 frame calls the route with the unmasked payload, and what it asks for is all that goes out |
| Spelled.ProtocolErrorAnswered | src/Server/WebSocket.cpp:51-94 | a fragment, or an opcode other than 1, 2, 8, 9 and 10, makes 0x88 0x02 0x03 0xEA and ends the connection |
| Spelled.UnmaskedRefused | src/Server/WebSocket.cpp:115-118 | a second byte below 0x80 is refused, with nothing taken or sent |
| Spelled.LongControlRefused | src/Server/WebSocket.cpp:135-137 | so is the head of a control frame that spells more than 125 bytes in a two-byte length |
| Spelled.MessageEchoed | src/Services/GeneralServices.cpp:87-98 | on the echo route a 0x81 or 0x82 frame of any length, spelled in any of the three forms, makes an 0x81 frame of the unmasked payload |
| Spelled.OneFrame | src/Services/GeneralServices.cpp:87-98 | 81 81 37 00 00 00 7F is the text 48 (hex), and 81 01 48 its echo |
| Closes.ClosesAnswered | src/Server/WebSocket.cpp:75-94 | over any stream the Closes put into the write buffer are the engine's, at most one, and those the route asked for |
| Closes.CallbackCloseForgotten | src/Server/WebSocketContext.cpp:14-26 | for every route that asks for a Close after some messages, the answer to those messages and a client's Close holds at least two |
| Closes.AtMostOneCloseExactly | src/Server/WebSocketContext.cpp:14-26 | no stream has an answer with two Closes if and only if the route asks for none after any messages a client can send |
| Closes.NeverClosesSafe | src/Server/WebSocketContext.cpp:14-26 | in particular with a route none of whose calls closes |
| Closes.CloserAsks | src/Server/WebSocketContext.cpp:14-26 | a route that closes on every message is one that asks, after any single message |
| Epoll.Session.constructor | src/Server/Session.cpp:516-519 | an upgraded session meets the conservation invariant |
| Epoll.Session.Close | src/Server/Session.cpp:48-54 | closes the socket and loses nothing |
| Epoll.Session.HandleReceived | src/Server/Session.cpp:94-106 | after each receive the session is where one run over everything received would be |
| Epoll.Session.SendOnce | src/Server/Session.cpp:149-160 | bytes move from the front of the write buffer to the socket, none lost or repeated |
| Epoll.Session.OnWriteReady | src/Server/Session.cpp:140-174 | sends until the buffer is empty or the kernel blocks; closes only when a send failed; the result says whether anything was sent or the socket is closed |
| Epoll.Session.OnWriteComplete | src/Server/Session.cpp:176-187 | in WebSocket mode the connection ends exactly when keep-alive is off |
| Epoll.Session.Absorb | src/Server/Session.cpp:103-121 | a refused stream closes at once, with nothing sent in that turn; otherwise output is flushed, reading goes on only with an empty write buffer, and stops only if the kernel took no more |
| Epoll.Session.ReadOnce | src/Server/Session.cpp:82-136 | one turn of the receive loop: what it received, why it stops or closes |
| Epoll.Session.OnReadReady | src/Server/Session.cpp:78-138 | sent plus buffered bytes stay the one-shot answer, up to the first byte lost if something overflowed, which is never within the first write buffer's worth; an open session has read until would-block or backed up, and has flushed what it answered or met a would-block doing so; it closes only for a cause, a full read buffer among them only if its size is below the body limit plus 14 bytes |
| Epoll.HandleReport | src/EventLoop/EventLoop.cpp:186-203 | told it can read, a session still open afterwards has read until would-block or met one sending; told it can write, it has an empty write buffer or met one; it was closed by a hangup or for a cause only, and by every hangup; told neither, it moved nothing |
| Epoll.HandleReports | src/EventLoop/EventLoop.cpp:182-203 | exactly the reports up to the first hangup are handled, each in that way, one after the other |
| Epoll.FlushedOrBlocked | src/EventLoop/EventLoop.cpp:193-196 | after a last report that is writable an open session has an empty write buffer or met a would-block in that report |
| Epoll.Serve | src/EventLoop/EventLoop.cpp:182-203 | over any reports, sizes and outcomes the peer has been sent a prefix of the answer to what was received before the engine refused to go on, hence of the one-shot answer to all it will ever write, up to the first byte lost if any was; once all is received, all of that answer if and only if the write buffer is empty, which it never is if the engine ended with a Close; and every report up to the first hangup did what HandleReport says |
| Epoll.Session.SentIsAnswered | src/Server/Session.cpp:103-116 | at any moment what was sent is a prefix of the answer to what was received before the engine refused to go on |
| Epoll.SeenSoFar | src/Server/Session.cpp:78-174 | at any moment the same against the one-shot answer to all the peer will ever write, with the condition for having sent all of it |
| Epoll.EngineCloseNeverSent | src/Server/Session.cpp:105-116 | whenever the engine has answered with a Close, the socket is closed and that Close, with everything else answered in its receive, is still in the write buffer |
| Epoll.ClosesSeenByPeer | src/Server/Session.cpp:105-116 | the peer decodes only frames answered before the refusing receive: the engine's own among them are Pongs, and the Closes are at most those the route asked for by then |
| Epoll.EchoSeenByPeer | src/Services/GeneralServices.cpp:87-98 | from any part of the echo route's answer to its messages a client decodes the first of them, and from all of it all |
| Epoll.EchoSession | src/Services/GeneralServices.cpp:87-98 | at any moment the peer of an echo session has decoded, from what was sent, the first of its own messages; in the end all of them |
| ZeroCopy.RecvInvKept | src/Server/Session.cpp:191-273 | without restriction: at most one receive in the ring, IO_READING set with it, none under a freed session |
| ZeroCopy.ReceiveSafety | src/EventLoop/EventLoop.cpp:299-429 | the same at every point of every run, overlapping sends and late completions included; and one release at most |
| ZeroCopy.InvKept | src/Server/Session.cpp:209-315 | every step but an overlapping one keeps one send at most, exact flags, pinned bytes in front and the stream intact |
| ZeroCopy.OverlapExactly | src/Server/Session.cpp:260-264 | a second send joins exactly when a positive receive is handled, with a queue entry, while IO_WAITING_ZC is set |
| ZeroCopy.PinnedStay | src/Server/Session.cpp:279-312 | an outstanding send keeps its bytes, unchanged and in front, until its notification |
| ZeroCopy.SingleSendExactly | src/Server/Session.cpp:260-264 | a run never has two sends if and only if no step of it overlaps |
| ZeroCopy.Conservation | src/Server/Session.cpp:209-315 | over every run without overlap the bytes accepted are a prefix of the bytes appended, and all of them when an active session is idle |
| ZeroCopy.ReleaseSafety | src/EventLoop/EventLoop.cpp:258-270 | over such runs, which go on after a release: one send and one receive at most, flags covering both, one release at most and none while anything is outstanding |
| ZeroCopy.StatusMonotone | src/EventLoop/EventLoop.cpp:370-424 | status moves only from Active to Closing to Closed, over every run |
| ZeroCopy.BothStart | src/EventLoop/EventLoop.cpp:325-341 | an accepted session and one dropped for lack of a queue entry both start within the invariant |
| ZeroCopy.OnlyTheTimerFrees | src/EventLoop/EventLoop.cpp:370-374 | over every run without overlap, only an expiry releases a session |
| ZeroCopy.ClosingFate | src/EventLoop/EventLoop.cpp:370-424 | a closing session is released, by the next expiry, if no flag is set, and never if one is |
| Progress.ListensExactly | src/Server/Session.cpp:266-270 | over every run, overlaps included, an active session has no receive armed if and only if an earlier positive receive found no queue entry or a full read buffer; its flag says which |
| Progress.AlwaysListens | src/Server/Session.cpp:266-270 | so from acceptance on, if every positive receive found space, an active session always has exactly one receive armed |
| Progress.SendsExactly | src/Server/Session.cpp:260-290 | over every run, overlaps included, an active session has something buffered and nothing being sent if and only if the last step had something to send and found no queue entry |
| Progress.AttentiveKept | src/Server/Session.cpp:228-315 | a step that was refused nothing keeps an active session listening and sending what is buffered |
| Progress.EndsExactly | src/Server/Session.cpp:228-315 | an active session starts closing if and only if a receive ended or was refused by the engine, a send failed, a notification left nothing buffered without keep-alive, or it expired; its socket is closed, and keep-alive changed, in exactly the cases given |
| Progress.ExpiryExactly | src/EventLoop/EventLoop.cpp:412-425 | an expiry closes the socket of any session; with a flag set it is left closing, otherwise closed, unlinked and given back; nothing else changes |
| Aftermath.EngineCloseFate | src/Server/Session.cpp:249-264 | some run releases a session the protocol layer closed if and only if no send was outstanding and none was started for what was buffered |
| Aftermath.EngineCloseDelivery | src/Server/Session.cpp:249-264 | some run delivers everything appended, the closing receive's output included, if and only if no send was outstanding, there was a queue entry, and the region it offered held the whole buffer |
| Aftermath.OverlapDuplicates | src/Server/Session.cpp:260-264 | after an overlapping step the accepted stream can stop being a prefix of the appended one: always if the session stays active, otherwise unless the two sends in a row spell the buffer's front |
| Aftermath.OverlapFreesEarly | src/EventLoop/EventLoop.cpp:370-425 | after an overlapping step some run releases the session under a send the kernel holds if and only if that step did not close it |
| Aftermath.Mishap | src/EventLoop/EventLoop.cpp:370-374 | a run from a session just accepted, with one overlap, in which bytes are accepted twice and a completion releases the session under a send |
| IoUring.BitUpdates | src/Server/Session.h:139-144 | setting or clearing a bit touches that flag only |
| IoUring.PendingBits | src/Server/Session.h:133-133 | the byte is nonzero exactly when a flag is set |
| IoUring.Session.UpdateIoState | src/Server/Session.h:139-144 | is the machine's flag update |
| IoUring.Session.HasPendingIo | src/Server/Session.h:133-133 | true exactly when a flag is set |
| IoUring.Session.SetStatus | src/Server/Session.h:137-137 | changes the status and nothing else |
| IoUring.Session.constructor | src/Server/Session.cpp:516-519 | an upgraded session, its handshake being sent, meets every invariant, and listens and sends |
| IoUring.Session.OnReadReady | src/Server/Session.cpp:191-207 | arms one receive, or closes the socket and queues an empty operation when the read buffer is full |
| IoUring.Session.OnWriteReady | src/Server/Session.cpp:209-226 | arms one send that pins a nonempty front of the write buffer, or closes the socket and queues an empty operation when it is empty, which no caller lets happen |
| IoUring.Session.RunAndRecord | src/Server/Session.cpp:243-257 | what is appended is the one-shot answer so far, up to the first byte lost if something overflowed |
| IoUring.Session.Absorb | src/Server/Session.cpp:243-258 | a refused stream sets Closing and clears keep-alive |
| IoUring.Session.ProcessEnd | src/Server/Session.cpp:232-241 | an ended receive closes now, or starts closing if output is buffered |
| IoUring.Session.TryArmSend | src/Server/Session.cpp:260-264 | starts a send if there is output and no result outstanding; it does without one only if the queue was asked and full |
| IoUring.Session.TryArmRecv | src/Server/Session.cpp:266-270 | re-arms the receive of an active session; it does without one only if the queue was asked and full, or the read buffer is |
| IoUring.Session.ProcessRead | src/Server/Session.cpp:228-273 | is the machine's receive step, with the engine as its protocol layer |
| IoUring.Session.Unpin | src/Server/Session.cpp:279-283 | the accepted bytes, and no others, leave the write buffer |
| IoUring.Session.ProcessNotification | src/Server/Session.cpp:277-299 | is the machine's notification step |
| IoUring.Session.ProcessSendResult | src/Server/Session.cpp:301-314 | is the machine's result step: bytes are recorded, not released |
| IoUring.Session.ProcessWrite | src/Server/Session.cpp:275-315 | is the machine's result step or its notification step |
| IoUring.Session.ReleaseSession | src/EventLoop/EventLoop.cpp:258-263 | a closing session becomes closed, a socket still open is shut down, and the timer wheel lets go |
| IoUring.Session.TryFreeSession | src/EventLoop/EventLoop.cpp:265-270 | a closed session is given back once, its socket closed |
| IoUring.WebSocketCloseLeaks | src/Server/Session.cpp:249-264 | for every stream on which the engine answers with its Close, be it an echo or a protocol error: when the session can still be released, and when that Close can still reach the peer |
| IoUring.Session.CloseFate | src/Server/Session.cpp:249-264 | the same of a session and the bytes its receive brings |
| IoUring.EmptyCloseLeaks | src/Server/Session.cpp:249-264 | a session just accepted whose first receive is an empty Close, with a queue entry at hand, is never released |
| IoUring.Session.DispatchRead | src/EventLoop/EventLoop.cpp:377-384 | a receive completion of an active session |
| IoUring.Session.DispatchWrite | src/EventLoop/EventLoop.cpp:385-396 | a send completion of an active session, noting an announced notification first |
| IoUring.Session.HandleCompletion | src/EventLoop/EventLoop.cpp:357-404 | dispatching a completion is the machine's step for it |
| IoUring.Session.HandleExpiry | src/EventLoop/EventLoop.cpp:412-425 | an expiry is the machine's step for it |
| IoUring.Session.Turn | src/EventLoop/EventLoop.cpp:316-426 | a turn that wakes up for an expiry, a receive or a send is the possible step of the machine for it, with the engine's work on the bytes received as its protocol layer; nothing happens only if there is nothing to wake up for |
| IoUring.TrackedTurn | src/EventLoop/EventLoop.cpp:316-426 | a turn continues the run, whatever came before it |
| IoUring.Serve | src/EventLoop/EventLoop.cpp:299-429 | the turns are a run of the machine with one step for every wake there is something to; if no step of it overlaps, the kernel has accepted a prefix of the one-shot answer to all the peer will ever write, up to the first byte lost if any was; if the read buffer is at least 14 bytes longer than the body limit, no empty operation is queued, and unless the submission queue was full at some point a session still active is listening and sending what is buffered |
| Scan.MaskFindsFirst | src/Utils/StringUtils.cpp:33-38 | the mask is zero exactly when no byte of the block hits, else its trailing zeros index the first hit |
| Scan.FindCrlf | src/Utils/StringUtils.cpp:21-52 | the block scan with scalar tail returns the first byte 13 or nothing, for every length, with no load past the end |
| Scan.FirstCrStable | src/Utils/StringUtils.cpp:21-52 | appended bytes do not change a hit |
| Decimal.FastAtoi | src/Utils/StringUtils.cpp:81-91 | the wrapping accumulator loop |
| Decimal.AtoiIsValue | src/Utils/StringUtils.cpp:81-91 | digits followed by any non-digit read as their value modulo 2^64 |
| Decimal.DecimalRoundTrip | src/Utils/StringUtils.cpp:81-103 | reading back what was printed is the identity exactly on the 64-bit sizes |
| Decimal.ItoaExactly | src/Utils/StringUtils.cpp:93-103 | k characters hold exactly the values below 10^k; for any other nothing is written |
| Decimal.ItoaAlwaysFits | src/Response/HttpResponse.h:60-92 | twenty characters hold any size, so the 24-character buffer always suffices |
| Http.NamesRecognised | src/Request/HttpRequest.h:49-83 | every method is recognised by its own name |
| Http.UnknownExactly | src/Request/HttpRequest.h:49-83 | a method is unknown if and only if it is empty, starts with none of D, G, H, O and P, or starts with P and has not 3 to 5 letters; CONNECT and TRACE are |
| Http.SeekTo | src/Server/Session.cpp:334-336 | a cursor loop stops at the first stop byte or the limit |
| Http.FindCuts | src/Server/Session.cpp:333-361 | the three cursors of the request line |
| Http.CutLine | src/Server/Session.cpp:333-371 | method, path, query and version of the request line, or nothing where a space is missing |
| Http.MatchesIgnoringCase | src/Utils/StringUtils.cpp:66-79 | true if and only if the lengths are equal and every two bytes agree in all bits but bit 5 |
| Http.LowerExactly | src/Utils/StringUtils.cpp:66-79 | two bytes are the same after setting bit 5 if and only if they agree in every other bit |
| Http.TakeHeaders | src/Server/Session.cpp:373-443 | the header loop terminates and every read is in range |
| Http.Parse | src/Server/Session.cpp:318-461 | a request taken consumes between 4 bytes and all that is available |
| Http.HttpSession.TakeRest | src/Server/Session.cpp:373-460 | headers and body; the buffer moves only for a complete request, keep-alive in any case |
| Http.HttpSession.ParseRequest | src/Server/Session.cpp:318-461 | false leaves the read buffer untouched, true removes exactly one request; line, keep-alive and body are stored as far as they were reached |
| Http.HttpSession.DrainRequests | src/Server/Session.cpp:99-100 | the drain loop terminates, shows its handlers exactly the requests in order, handles at most a quarter as many as there are bytes, and ends with the stored fields the failing last attempt leaves |
| HttpRuns.RequestRoundTrip | src/Server/Session.cpp:318-461 | a printed request, with or without spaces behind its colons and with colonless lines among its headers, is parsed back to its parts, keep-alive and exact body, consuming exactly its bytes |
| HttpRuns.PrintSpelled | src/Server/Session.cpp:318-461 | a printed request, byte for byte: 32 between the parts of its line, 63 before a query, 13 and 10 after the line and after the headers |
| HttpRuns.HeaderSpelled | src/Server/Session.cpp:388-404 | a header line, byte for byte: 58 behind the name, perhaps one 32, 13 and 10 at the end |
| HttpRuns.LineOkSpelled | src/Server/Session.cpp:333-371 | which bytes may not stand in which part of a request line |
| HttpRuns.BodyAwaited | src/Server/Session.cpp:446-454 | a request whose body has not all arrived is not taken; its line and keep-alive are stored, no body |
| HttpRuns.KeepAliveExactly | src/Server/Session.cpp:411-417 | a printed request is not kept alive if and only if some header with a 10-character name spells c-l-o-s-e, each letter in either case, and no later one spells k-e-e-p-hyphen-a-l-i-v-e |
| HttpRuns.OneWordHeard | src/Server/Session.cpp:411-417 | with one 10-character header a request is kept alive if and only if that does not spell close |
| HttpRuns.KeepAliveTakesBack | src/Server/Session.cpp:411-417 | a keep-alive with no close behind it is kept alive, whatever came before it |
| HttpRuns.TooLongRefused | src/Server/Session.cpp:418-424 | a length whose value modulo 2^64 is above the limit, anywhere in the headers, refuses the request, whatever its body and whatever follows; its line is stored, no body |
| HttpRuns.Pipelining | src/Server/Session.cpp:99-100 | any list of printed requests is handed over one at a time, in order, leaving exactly what follows |
| HttpRuns.ShownExactly | src/Server/Session.cpp:99-100 | each handler is shown its own request's line, keep-alive and body, or, for an empty body, the body shown before |
| HttpRuns.KeptAfterDrain | src/Server/Session.cpp:373-444 | keep-alive after the drain is what the last request taken asked for if no whole line follows it, and otherwise what the headers of the unfinished request say so far |
| HttpRuns.CloseHeeded | src/Server/Session.cpp:411-417 | a request alone in the buffer decides for itself |
| HttpRuns.CloseForgotten | src/Server/Session.cpp:378-387 | with the next request's line and one byte behind it, the connection is kept alive, even if the request asked for a close |
| HttpRuns.FoldedLength | src/Server/Session.cpp:418-424 | the body length is the one the last length header gives, none without one |
| HttpRuns.ContentLengthHeader | src/Server/Session.cpp:418-424 | a length printed in decimal is taken for its value modulo 2^64, both as the body's length and against the limit |
| HttpRuns.LengthLimitExactly | src/Server/Session.cpp:418-424 | a request that prints length n, with a body of n modulo 2^64 bytes, is taken if and only if n modulo 2^64 is within the limit |
| HttpRuns.OverstatedIsTaken | src/Server/Session.cpp:418-424 | a POST that prints a length 2^64 above its body's is accepted under every 64-bit limit its body meets |
| HttpCutShort.TakenTooEarlyExactly | src/Server/Session.cpp:380-386 | a proper beginning of a printed request, of 16 bytes or more, is taken for a whole one if and only if it ends with the request line or a header line and the last length given in it, if any, is zero |
| HttpCutShort.LineAloneIsTaken | src/Server/Session.cpp:380-386 | in particular a request line of 14 characters or more that arrives alone |
| HttpLanguage.AcceptedRequests | src/Server/Session.cpp:318-461 | n bytes are accepted as a request if and only if there are 16 or more and the first n are a printed request, or all n are a beginning of one that ends with its request line or a header line with no positive length in force |
| HttpChunks.ChunksExactly | src/Server/Session.cpp:94-100 | printed requests that arrive in chunks, the drain loop run after each, are handed over one by one, each with its own bytes, if and only if no chunk ends where a request is taken too early |
| Base64.Encode | src/Utils/StringUtils.cpp:105-149 | every cell is written in bounds through the output cursor; the result is the standard encoding |
| Base64.EncodedLength | src/Utils/StringUtils.cpp:105-149 | four characters for every three bytes begun |
| Base64.DecodeEncoded | src/Utils/StringUtils.cpp:105-149 | a reference decoder returns the input, for every input |
| Base64.EncodedInjective | src/Utils/StringUtils.cpp:105-149 | different inputs have different encodings |
| Base64.PaddingExactly | src/Utils/StringUtils.cpp:133-146 | byte 61 stands exactly in the last one or two places of a short last quantum |
| Base64.GroupSpelled | src/Utils/StringUtils.cpp:120-131 | the four letters of every whole group are its six-bit parts, from the first byte's highest bits on |
| Base64.TailSpelled | src/Utils/StringUtils.cpp:133-146 | what one or two bytes left over become, 61 61 or 61 at the end |

## Left out

- Sockets, epoll and io_uring system calls, listener set-up, thread affinity, signals, settings, logging, SHA-1: foreign calls and plumbing, present only as nondeterministic outcomes.
- `ink::TimerWheel`, the object pool, `EndpointManager` and its radix tree: library internals that are not part of this model; an expiry is an event that may come at any time.
- The header table, `getHeader`, `presentHeaders`, the upgrade handshake, `HttpResponse::setBody` and `handleRequest`: header types are bit masks but index 14-entry arrays (src/Utils/HeadersList.h:36, src/Request/HttpRequest.h:129), so claims about them would not be about what the code does.
- `urlEncode`, `urlDecode`, `extractQueryParams`, `hashStr`, `is_crlf`, `is_header_end`: nothing above rests on them.
- The HTTP branch of the two receive loops: `DrainRequests` is the loop inside it, without the responses.
- Engine.ProcessFrames: requires `max_body_size` to be at most 2^64 - 15; beyond that the size sum wraps and the payload allocation that follows fails, which is not modelled.
- IoUring.Session.OnReadReady: the empty operation queued when the read buffer is full carries a null tag; its completion, which the worker loop cannot handle, is not modelled.
- Wire.Decode: does not insist that the top bit of a 64-bit length be clear, as section 5.2 of RFC 6455 does, so that it is inverse to the length loop for every 64-bit size; no payload in memory is that long.
- ZeroCopy.ReceiveSafety: the pool reusing a released session's place while the kernel still reports on it is not modelled; a late report finds the old session, closed.
- IoUring.Session.Turn: one session at a time; completions of different sessions touch disjoint state.
- Http.HttpSession.ParseRequest: string views into the read buffer are modelled as the bytes they showed, so views that outlive the buffer's contents are not captured.
- Http.HttpSession.DrainRequests: records what each handler is shown, not what it answers; a body kept from an earlier request on the same connection is shown again, as in the source, until `onWriteComplete` resets it, which is not modelled.
- RingBuffers.RingBuffer.Write: the split of a write is the buffer's own choice; positions inside the ring are not modelled.
