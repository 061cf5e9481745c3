# uv-rpc, modelled and proved in Dafny

uv-rpc is a TCP message library on libuv. Bytes that arrive on a connection are cut into packets; tasks
that threads send are encoded into pooled write requests and handed to libuv on the loop's thread; the
payloads are often JSON, for which the repository carries RapidJSON. This project models the parts where
these things are hard to get right, and proves what each promises. `dafny verify dfyconfig.toml` checks all of it.

**The wire path.** `CharVector` is the growing byte buffer. `Frames` says what a byte stream means: packets of
an eight-byte header with a big-endian 16-bit length, and a rest that is less than a packet; there is only one way to
see a stream like this. `Dispatcher` holds the six hand-written cases that cut a chunked stream and proves that
each call delivers and keeps just that, so that chunking does not matter. `PingPong` has the sample's two encoders and follows a
number to the server and back.

**Wakeups and sending.** `AsyncProtocol` and `SendProtocol` are state machines whose steps are the locked sections, single
reads and writes, and libuv calls of any number of threads. A signal coalesces, a write is accepted or refused, and an accepted
one completes once. Their invariants hold in every interleaving; `SendWakeup` runs the one on the other, and `SharedPool` runs any number of
connections over the one pool that they share. `Async`, `EventLoop` and
`TcpConnection` are the objects, whose methods are proved one call at a time; those of `Async`, up to a whole run of the loop, are shown to
be runs of the protocol.
`RingQueue` is the pointer surgery of the intrusive list on heap nodes and `BufferQue` the free list on it.

**JSON: reading.** `JsonReader` is the recursive-descent reader and `JsonMachine` the table-driven one, both as
functions of the text, the flags and the handler; `JsonSimulation` follows the one along the other, `JsonReadersAgree`
proves them equal but for two differences, and `JsonReports` says when these occur. `JsonReaderClass` is the reader
object with its cursor, loops and stack, proved to compute both. `JsonNumber` with its loops in `JsonNumberReader`,
`JsonString` and `Utf8` are the leaves.

**JSON: the language.** `NumberGrammar` and `JsonGrammar` write down RFC 8259, with what each reader flag adds to it, in
character literals and apart from any reader: how numbers, strings, white space, comments and values are spelled and
what they mean. `NumberLanguage`, `JsonTokens`, `JsonParses` and `JsonLanguage` prove that the readers accept exactly
these texts and send exactly their meaning, `JsonErrors` that every error has a reason in that grammar and stands at its
place, and `JsonDenotes` that the document holds exactly the value that is spelled. `PointerGrammar` does the same for
JSON Pointers.

**JSON: writing and documents.** `JsonText` says what text a value has in the compact and in the pretty layout,
`JsonWriter` and `Itoa` are the objects that write it, `JsonLayout` pins the layouts with a scanner that knows only
quotes, backslashes and separators, and `JsonRoundTrip` reads the text back. `JsonDocument` builds the value from the events;
`JsonLoads` proves that whatever the reader accepts can be built, written and loaded again.

**Pointers and memory.** `JsonPointer` parses and prints pointers, `JsonPointerClass` does so in the buffer and token
array of the original, `PointerTree` says what Get, Create, Set and Erase mean and do to the tree, and `PointerInPlace`
does them on a tree of heap nodes. `PoolAllocator` is the memory pool, by absolute addresses.

Where the code and what one may expect of it differ, the code is followed:

- The two readers are not quite the same. A document that starts with one of `]`, `}`, `,` and `:` is
  `DocumentEmpty` to the iterative reader and `ValueInvalid` to the recursive one. When a handler refuses an opening bracket, or a closing one
  that does not follow a trailing comma, the iterative reader reports the offset of the bracket and the recursive one the offset
  behind it. `JsonReports.ReportsDifferIff` says that this is all, and `JsonReports.SameUnlessRefused` that a handler
  which takes every bracket only meets the first of them.
- The pong encoder cuts the length to 16 bits, so that a payload of 65536 bytes or more is not delivered as it was
  (`PingPong.DeliveredIffFits`).
- In case 2 of the dispatcher the header pointer is taken before an append that may reallocate. `HeaderMoves` is the exact
  condition of a reallocation, which may still extend the array in place, and `moved` counts the deliveries where it held; the payload
  pointer is read afterwards and is good.
- After a refused or failed write requests are queued again with nobody told to send them
  (`SendProtocol.RefusedIsStranded`), and behind what was queued in between (`SendProtocol.RefusedIsOvertaken`).
  `SendProtocol.StrandedIffStale` and `SendProtocol.OrderKeptIff` say exactly when; the next realSend takes what was stranded along
  (`SendProtocol.Settles`). Conservation holds throughout.
- A completion whose task knows no connection recycles the request without sending what waits, also when the write failed. The invariants
  hold because every push has its own realSend.
- The wrap-around test for array indices does not notice every overflow (`JsonPointer.WrapNotNoticed`); the index is the numeral's value
  exactly below 2^32.

Modelling decisions: characters stand for code units and bytes; integers are unbounded and every
wrap-around that the code can reach is written out; allocation succeeds where the code does not look at its failure; the data of a new
async handle starts null; threads interleave sequentially consistently. What libuv and the
system's allocator answer, the handler's verdicts, whether a number's text overflows a double, and the callbacks that a callback queues are
parameters.

## Model

| member | source | states |
|---|---|---|
| CharVectors.GrownBounds | include/CharVector.h:74-86 | The growth loop terminates at a capacity that holds what was asked for and is no smaller than the start; if it grew, below twice the request, and beyond 20 MB below the request plus 1 MB |
| CharVectors.ReservedBounds | include/CharVector.h:74-95 | reserve never shrinks a vector and does nothing when the room is there; a growing reserve(n) ends below 2*max(n, 64), or below n + 1 MB once growth is additive |
| CharVectors.DoubledStays | include/CharVector.h:14-17 | A default vector that is never asked for more than 128 KiB only goes through the capacities 1024, 2048, ..., 131072 |
| CharVectors.CharVector.constructor | include/CharVector.h:18-21 | An empty vector with the reserved capacity |
| CharVectors.CharVector.Default | include/CharVector.h:14-17 | An empty vector of capacity 1024 |
| CharVectors.CharVector.Reserve | include/CharVector.h:74-95 | Contents unchanged, exact new capacity; a new array only if the request exceeds the old capacity |
| CharVectors.CharVector.AllocMem | include/CharVector.h:117-159 | Reallocation copies the contents; smaller requests change nothing |
| CharVectors.CharVector.PushBack | include/CharVector.h:31-59 | The byte is appended; a full vector grows by exactly one growth step |
| CharVectors.CharVector.Append | include/CharVector.h:63-72 | The bytes are appended, also across a reallocation, which leaves the given-up array as it was |
| CharVectors.CharVector.Resize | include/CharVector.h:97-104 | Within the capacity the contents become the first n bytes of the buffer, stale ones included; beyond it the old contents stay in front |
| CharVectors.CharVector.CopyTo | include/CharVector.h:106-114 | The other vector, which may be this one, holds the same bytes |
| Frames.CutIsUnique | README.md:122-134 | A stream is whole packets followed by a strict prefix of one more in exactly one way, the one that Cut computes |
| Frames.JoinOfCut | src/SimpleMsgDispatcher.cpp:134-174 | Packets and rest put together again are the stream, and every packet's payload has the length its header says |
| Frames.CutOfJoin | src/SimpleMsgDispatcher.cpp:134-174 | Any well-formed packets, followed by less than a packet, are cut into just these packets |
| Frames.RestIsShort | README.md:125 | What is kept is at most 65542 bytes |
| Frames.CutMore | src/SimpleMsgDispatcher.cpp:22-132 | Cutting more bytes is cutting them behind what was left over |
| Frames.ChunksDoNotMatter | src/SimpleMsgDispatcher.cpp:22-132 | Chunk independence: for every split of a stream into calls, what is delivered and what remains is the cut of the whole stream |
| Dispatcher.SimpleMsgDispatcher.DoMessageInNewBuf | src/SimpleMsgDispatcher.cpp:134-174 | Delivers in order the packets that lie whole in the buffer, keeps the rest, with the exact capacity afterwards |
| Dispatcher.SimpleMsgDispatcher.CompleteStored | src/SimpleMsgDispatcher.cpp:66-74 | Case 2: the stored header and the completed payload are delivered and the vector emptied; the header's array is given up exactly when the packet outgrows the capacity |
| Dispatcher.SimpleMsgDispatcher.Refill | src/SimpleMsgDispatcher.cpp:62-86 | Cases 2 and 3 deliver and keep what stored and new bytes are cut into |
| Dispatcher.SimpleMsgDispatcher.FillHeader | src/SimpleMsgDispatcher.cpp:89-124 | Cases 4, 5 and 6 deliver and keep what stored and new bytes are cut into |
| Dispatcher.SimpleMsgDispatcher.TakeOut | src/SimpleMsgDispatcher.cpp:54-57 | Case 1 moves the stored bytes to a vector of its own |
| Dispatcher.SimpleMsgDispatcher.WholeStored | src/SimpleMsgDispatcher.cpp:49-60 | Case 1, from any remainder that holds a whole packet: its packets, then those of rest and new bytes, are delivered, and the error is counted |
| Dispatcher.SimpleMsgDispatcher.OnMessage | src/SimpleMsgDispatcher.cpp:22-132 | From any remainder at all, also a complete packet with the asserts off, one call terminates, delivers exactly the packets of remainder plus chunk and keeps exactly their rest; case 1 is reported exactly when the remainder held a whole packet; and exactly when a header is handed on after a growth of the vector |
| Dispatcher.ReadAll | src/TcpConnection.cpp:467-475 | Over any reads of a connection the delivered packets are those of the whole stream, case 1 is never reported, and the vector never exceeds 131072 bytes |
| Dispatcher.SimpleMsgDispatcher.DeliverWhole | src/SimpleMsgDispatcher.cpp:141-167 | The loop delivers in order the packets that lie whole in the buffer, and says where the rest is |
| Dispatcher.ShortHeadersStay | src/SimpleMsgDispatcher.cpp:42-72 | On a default vector, the header pointer taken before the append stays good for packets of up to 1016 bytes |
| Dispatcher.HeaderMovesExample | src/SimpleMsgDispatcher.cpp:42-72 | It does not for a stored header that announces 1024 bytes |
| PingPong.PongEncode | samples/pingTest/server/PongEncode.h:12-38 | The buffer holds exactly the header for the size, the id and a NUL |
| PingPong.PingEncode | samples/pingTest/client/PingEncode.h:14-38 | The buffer is a ping of the number: 1024 bytes, header for 1016, the numeral and a NUL, then whatever the buffer held |
| PingPong.FillHeader | samples/pingTest/server/PongEncode.h:29-34 | The header fields overwrite the first five bytes and nothing else |
| PingPong.DeliveredIffFits | samples/pingTest/server/PongEncode.h:34 | A framed payload is delivered as it was if and only if it has at most 65535 bytes, because the length is cut to 16 bits |
| PingPong.StreamIsDelivered | samples/pingTest/server/PongEncode.h:12-38 | Any payloads of at most 65535 bytes, framed one behind the other and chunked at will, are delivered in order with nothing left over |
| PingPong.ReadNumeral | include/CommonHeader.h:53 | strtoll on a printed number gives the number, or 2^63 - 1 if it is larger |
| PingPong.PingsComeBack | samples/pingTest/server/PingDispatcher.h:16-26 | Any pings, chunked at will, echoed, chunked at will again: the client reads all numbers in their order, each unchanged if and only if it is below 2^63 |
| AsyncProtocol.StepKeepsInv | src/Async.cpp:18-67 | No step of a producer, of init, of the loop or of closing loses a wakeup, or loses, doubles or reorders a callback |
| AsyncProtocol.AnyRun | src/Async.cpp:18-67 | In every interleaving from the start: a waiting callback on an open handle has a signal pending or coming, and callbacks run, being run and waiting are the pushed ones in their order |
| AsyncProtocol.Settle | src/Async.cpp:52-67 | When the other threads rest, the loop by itself gets to run everything that was ever queued, in order, and then sleeps |
| AsyncProtocol.OpeningCatchesUp | src/Async.cpp:18-27 | Callbacks queued before init, or left over from a closed run, are run after the next init, by init's own signal |
| Async.TotalOfQueued | src/Async.cpp:52-67 | A pass leaves as many callbacks fewer to come as it ran, so passes end if the callbacks do |
| Async.UntilIsPrefix | src/Async.cpp:52-67 | What a run that was closed ran and what it left are, one behind the other, what a run without closing runs |
| Async.Async.constructor | src/Async.cpp:14-16 | The object starts in the protocol's initial state |
| Async.Async.Init | src/Async.cpp:18-27 | Takes exactly the protocol's steps of opening, or none if the handle is open |
| Async.Async.RunInLoop | src/Async.cpp:35-50 | Takes exactly the protocol's steps push, check and, if ready, send |
| Async.Async.Call | src/Async.cpp:59-66 | One callback of a pass is run, what it queues is queued and signalled, and it may close the handle; all of it steps of the protocol |
| Async.Async.RealProcess | src/Async.cpp:52-67 | One pass, a run of the protocol from swap to return, runs the callbacks that were queued at its start, once and in order, also when one closes the handle; what they queue waits, and a signal is pending for it |
| Async.Async.UvCallback | src/Async.cpp:102-107 | A taken signal is a pass; with the data pointing to no object nothing runs and nothing changes |
| Async.Async.UvRun | src/EventLoop.cpp:67 | As a run of the protocol: pass after pass runs all callbacks, generation by generation, until nothing waits, or up to the pass that closes, whose own callbacks are left in the queue |
| Async.Async.Close | src/Async.cpp:69-76 | An open handle closes, another stays as it is, and the closed callback is set; the protocol's closing step |
| Async.Async.OnAfterClose | src/Async.cpp:78-86 | The closed callback stops the loop, then the handle is unpublished; the protocol's step |
| EventLoop.EventLoop.constructor | src/EventLoop.cpp:14-30 | Not running, nothing queued |
| EventLoop.EventLoop.Run | src/EventLoop.cpp:59-72 | Runs what was queued so far, also before the handle was opened, with all it queues; returns after the pass that closes and leaves exactly what that pass queued, or sleeps on the open handle; refused when running already |
| EventLoop.EventLoop.Continue | src/EventLoop.cpp:67-69 | A sleeping run goes on with what was queued since, or finishes a closing that was begun outside a pass |
| EventLoop.EventLoop.StopLoop | src/EventLoop.cpp:90-112 | On the loop's thread the handle closes at once, from another a closing callback is queued; refused when not running |
| EventLoop.EventLoop.RunInLoop | src/EventLoop.cpp:136-149 | Calls at once on the loop's thread or after the stop, queues otherwise, and the answer says which |
| EventLoop.EventLoop.RunInLoopEn | src/EventLoop.cpp:151-158 | Always queues, behind everything queued before |
| EventLoop.RunTwice | src/EventLoop.cpp:59-72 | A closed run and the run after it run all callbacks in the order of one run, as far as the second gets |
| SendProtocol.StepConserves | src/TcpConnection.cpp:96-131 | For every request and every step: the number of places it is in does not change, but for a request that encoding creates |
| SendProtocol.StepKeepsConserved | src/TcpConnection.cpp:157-216 | Each request stays in exactly one of pool, send queue, batch, flight, completion, or its creator's hands, across refusal, failure, an unknown connection and the destructor |
| SendProtocol.StepKeepsFilled | src/TcpConnection.cpp:96-114 | Every request outside the pool holds what the encoder made of its task |
| SendProtocol.StepKeepsFlying | src/TcpConnection.cpp:96-114 | The bytes of an in-flight request stay those that libuv was given |
| SendProtocol.StepKeepsOrder | src/TcpConnection.cpp:157-216 | Accepted writes and what waits are in the push order, whatever other threads push in between, until a request is put back behind a later one or sent again |
| SendProtocol.StepKeepsOwed | src/TcpConnection.cpp:236-262 | What is queued has a realSend still owed to it unless it was put back since the last swap, and what was put back is still queued |
| SendProtocol.DisturbanceShows | src/TcpConnection.cpp:157-216 | With all tasks different, each step that puts a request behind a later one, or sends it again, changes the order |
| SendProtocol.StepKeepsLost | src/TcpConnection.cpp:157-216 | With all tasks different, a lost order is lost for good |
| SendProtocol.StepKeepsCounted | src/BufferPool.cpp:88-123 | The pool's counters account for what is in the pool |
| SendProtocol.AnyRunFromStart | src/TcpConnection.cpp:96-301 | All of this in every reachable state of every interleaving |
| SendProtocol.StrandedIffStale | src/TcpConnection.cpp:157-216 | In every reachable state in which no realSend is to come, a request waits if and only if one was put back since the last swap; the next swap ends this |
| SendProtocol.OrderKeptIff | src/TcpConnection.cpp:157-216 | In every reachable state, with all tasks different, accepted and waiting requests are in the push order if and only if no refusal found later ones queued, no push came before others still to be put back, and none was sent again |
| SendProtocol.Settles | src/TcpConnection.cpp:157-301 | From every reachable state, when nothing new is sent and libuv refuses nothing, threads and loop come to rest; if nothing under way fails and a realSend is owed, or nothing was put back, all that waits is accepted, in its order, what was stranded included |
| SendProtocol.AtRestAllAccepted | src/TcpConnection.cpp:157-262 | At rest, when nothing was put back or overtaken, everything sent was accepted, in order |
| SendProtocol.AtRestAllReturned | src/BufferPool.cpp:88-123 | When nothing is on its way, queued or held, every request is in the pool, once |
| SendProtocol.RefusedIsStranded | src/TcpConnection.cpp:198-212 | A run in which one request is refused ends at rest with the request still queued and no realSend owed |
| SendProtocol.RefusedIsOvertaken | src/TcpConnection.cpp:198-212 | A run in which a refused request falls behind one that was pushed after it |
| SendProtocol.UninterruptedBatch | src/TcpConnection.cpp:157-216 | A realSend that nothing interrupts puts a first part of the batch in flight and queues the rest again, in order |
| SendWakeup.StepKeepsInv | src/TcpConnection.cpp:236-262 | The two protocols together: the calls of realSend that are owed are exactly the callbacks that are queued and not yet run, after every step |
| SendWakeup.AnyRun | src/TcpConnection.cpp:236-262 | So in every interleaving from the start |
| SendWakeup.RunSendIsCounted | src/Async.cpp:52-67 | When a queued realSend has its turn and the loop's thread is not sending, it can run |
| SendWakeup.AsleepIsAtRest | src/TcpConnection.cpp:236-262 | When threads are quiet and the loop sleeps on an open handle, every waiting request was put back, and if none was, everything was accepted |
| SharedPool.MoveKeepsOnce | src/BufferPool.cpp:88-123 | With any number of connections over the one pool each request stays in the pool or with one connection, and there once |
| SharedPool.StepsDoNotInterfere | src/BufferPool.cpp:8-12 | No step of a connection changes what another one holds, queues or has in flight, nor the bytes of any of these |
| SharedPool.MoveKeepsSound | src/TcpConnection.cpp:96-216 | Every step of any connection keeps for each of them contents, bytes in flight, order and what is owed |
| SharedPool.EachConnection | src/TcpConnection.cpp:157-301 | In every run of all connections from the start, for each alone: its order is kept exactly if no step of its own disturbed it, and requests are stranded exactly if put back since its last swap |
| SharedPool.AllReturned | src/BufferPool.cpp:88-123 | When every connection is done with a request it is in the pool, once |
| TcpConnection.BufferPool.constructor | src/BufferPool.cpp:22-43 | A thousand read buffers and a thousand requests, no two sharing a buffer |
| TcpConnection.BufferPool.GetReadBuffer | src/BufferPool.cpp:55-76 | The read buffer put back longest ago, or a new one of 64 KiB; counted as taken in both cases |
| TcpConnection.BufferPool.PutReadBuffer | src/BufferPool.cpp:78-86 | Back at the end; null is ignored; the counters still account for the pool |
| TcpConnection.BufferPool.GetWriteBuffer | src/BufferPool.cpp:88-108 | The request put back longest ago, or a new one with at least 8192 bytes of room; counted as taken in the first case and as new in the second |
| TcpConnection.BufferPool.PutWriteBuffer | src/BufferPool.cpp:110-123 | Back at the end without its task; null is ignored |
| TcpConnection.Fill | src/TcpConnection.cpp:101-112 | Clears and encodes into a request; its pointer and size denote exactly the frame, also when encoding moved the buffer |
| TcpConnection.TcpConnection.constructor | src/TcpConnection.cpp:33-45 | A connection without requests is valid: no two share a buffer, all that is queued or in flight is encoded |
| TcpConnection.TcpConnection.EncodeTask | src/TcpConnection.cpp:96-114 | A request from the pool, or a new one, that is encoded; queued and in-flight requests keep their payloads and bytes |
| TcpConnection.TcpConnection.PushinQue | src/TcpConnection.cpp:125-131 | The encoded request goes behind the queue; the connection stays valid and what was queued or in flight is unchanged |
| TcpConnection.TcpConnection.RealSend | src/TcpConnection.cpp:157-216 | Hands libuv the queue in order up to the first refusal; that one and all behind it are queued again and the connection closes; no request is lost |
| TcpConnection.TcpConnection.SendMsg | src/TcpConnection.cpp:236-262 | On the loop's thread the queue with the new request at its end is sent at once, elsewhere it waits and one callback more is queued; the payloads in flight and queued are those of before, in order, with the new one last |
| TcpConnection.TcpConnection.Notify | src/TcpConnection.cpp:278-280 | A send callback that sends any messages leaves what is in flight in its place and puts its own payloads behind what was in flight and queued, in order |
| TcpConnection.TcpConnection.Complete | src/TcpConnection.cpp:282-300 | Success returns the request to the pool after sending what waits; failure queues it again and closes; without a connection it goes to the pool whatever the status; no request is lost |
| TcpConnection.TcpConnection.AfterWrite | src/TcpConnection.cpp:265-301 | With a callback that may send: what is in flight or queued afterwards is what was before without the answered payload, then what the callback sent, and after a failure the answered one again, last; no request is lost |
| TcpConnection.TcpConnection.Release | src/TcpConnection.cpp:46-57 | The destructor returns all queued requests to the pool, in order, and leaves those in flight as they are |
| RingQueue.Init | utils/Queue.h:45-50 | A node becomes a ring of its own |
| RingQueue.Empty | utils/Queue.h:39-40 | Empty exactly when the head is alone |
| RingQueue.Add | utils/Queue.h:52-59 | The second ring's members follow the first's, for all four combinations of empty and non-empty; the second head is left dangling |
| RingQueue.Split | utils/Queue.h:61-70 | The ring is cut before any member, the first one included; both parts are rings |
| RingQueue.Move | utils/Queue.h:72-81 | All members go to the new head, in order, and the old ring is empty |
| RingQueue.InsertHead | utils/Queue.h:83-90 | The node becomes the first member |
| RingQueue.InsertTail | utils/Queue.h:92-99 | The node becomes the last member |
| RingQueue.Remove | utils/Queue.h:101-106 | The node drops out, the others stay a ring in order, and its own links stay |
| RingQueue.Foreach | utils/Queue.h:36-37 | Visits each member once, in order |
| RingQueue.SplitThenAdd | utils/Queue.h:52-70 | Adding what was split off restores the ring |
| BufferQue.BufferQue.constructor | include/BufferQue.h:29-33 | An empty free list |
| BufferQue.BufferQue.GetBuffer | include/BufferQue.h:39-60 | The oldest free buffer, emptied, leaves the list; a new one if there is none |
| BufferQue.BufferQue.PutBuffer | include/BufferQue.h:62-71 | The buffer goes to the end of the list; null is refused |
| JsonNumberReader.FullIsExact | third/include/rapidjson/reader.h:1492-1519 | The overflow guard refuses a digit if and only if the numeral with it exceeds the limit |
| JsonNumberReader.TakeDigit | third/include/rapidjson/reader.h:1505 | An accumulator step that would wrap at 32 or 64 bits does not |
| JsonNumberReader.Accumulate | third/include/rapidjson/reader.h:1486-1573 | For literals of any length: 64 bits are used exactly above 2^31 or 2^32 - 1, a double exactly above 2^63 or 2^64 - 1, and what is accumulated is the exact decimal value |
| JsonNumber.IntegersAreExact | third/include/rapidjson/reader.h:1486-1741 | An integer is reported exactly for a plain numeral from -2^63 to 2^64 - 1, whatever its length, with its exact value; as a 32-bit one exactly from -2^31 to 2^32 - 1, and as a signed one exactly behind a minus |
| JsonNumberReader.ParseNumber | third/include/rapidjson/reader.h:1468-1746 | The loops over bounded accumulators compute NumberAt, which is written on the literal's decimal value |
| JsonNumberReader.ExponentDigits | third/include/rapidjson/reader.h:1664-1671 | The exponent is given up exactly when its value exceeds the largest useful one |
| JsonNumberReader.ManyDigits | third/include/rapidjson/reader.h:1575-1583 | A numeral that outgrows the 64-bit loop has at least eighteen digits |
| NumberLanguage.LiteralIs | third/include/rapidjson/reader.h:1468-1746 | At every place of every text: a literal is read if and only if a number of section 6 of RFC 8259 stands there that cannot go on, with its sign, its exact value, whether it needs a double, and its end; and each of the three errors for a missing part, and the one for a number beyond the exponent bound, if and only if this part is missing there, with its place |
| NumberLanguage.LongestMatch | third/include/rapidjson/reader.h:1468-1746 | No longer text from there is a number |
| NumberLanguage.NumberIs | third/include/rapidjson/reader.h:1468-1746 | A number is read as what it denotes, or is too large exactly if its exponent exceeds the largest one that its digits allow |
| NumberLanguage.CountingIs | third/include/rapidjson/reader.h:1584-1622 | The digits of a fraction that raise the bound of the exponent are those before the number without its point exceeds 2^53 - 1, and then those up to seventeen significant ones |
| NumberLanguage.DoubleTextIff | third/include/rapidjson/reader.h:1468-1746 | The texts that the grammar has for doubles are those that are read, alone, as a literal that needs floating point |
| NumberLanguage.LiteralSame | third/include/rapidjson/reader.h:1468-1746 | A number literal is the same, sign, value and end, wherever it stands and whatever ends it |
| Utf8.DecodeIsRfc3629 | third/include/rapidjson/encodings.h:146-176 | The masked-table decoder accepts exactly the byte sequences of the grammar in section 4 of RFC 3629, and takes exactly their bytes |
| Utf8.DecodeEncode | third/include/rapidjson/encodings.h:102-176 | The encoding of every scalar value decodes to it, wherever it stands |
| Utf8.EncodeDecode | third/include/rapidjson/encodings.h:102-176 | What decodes is the encoding of a scalar value: no surrogates, no overlong forms |
| Utf8.EncodeBits | third/include/rapidjson/encodings.h:102-123 | The bits of every scalar value stand in its bytes as the table in section 3 of RFC 3629 has them, and it takes one to four bytes exactly by its size |
| Utf8.Validate | third/include/rapidjson/encodings.h:179-202 | Validate gives Decode's verdict, takes the same bytes and copies them |
| Utf8.DecodeAllEncodeAll | third/include/rapidjson/encodings.h:102-176 | Any sequence of scalar values survives encoding and decoding |
| Utf8.EncodeAllDecodeAll | third/include/rapidjson/encodings.h:102-176 | Any well-formed text survives decoding and encoding |
| Utf8.Decode16Encode16 | third/include/rapidjson/encodings.h:276-322 | UTF-16 decodes what it encodes, surrogate pairs included |
| Utf8.Encode16Bits | third/include/rapidjson/encodings.h:276-290 | Section 2.1 of RFC 2781: a value beyond 16 bits is ten bits in each of a high and a low surrogate |
| Utf8.TranscodeBack | third/include/rapidjson/encodings.h:658-667 | A text transcoded to UTF-16 and back is the same text |
| Utf8.TranscodesIffWellFormed | third/include/rapidjson/encodings.h:658-667 | Transcoding succeeds exactly on well-formed UTF-8 |
| JsonString.ParseString | third/include/rapidjson/reader.h:991-1068 | The loop of ParseStringToStream computes Scan |
| JsonString.ParseHex4 | third/include/rapidjson/reader.h:906-922 | Four hexadecimal digits, or the failure |
| JsonString.ScalarBack | third/include/rapidjson/reader.h:1022-1044 | Every scalar value that is escaped by its UTF-16 code units, one or a surrogate pair, is read back as this value |
| JsonTokens.EscapeScans | third/include/rapidjson/reader.h:1007-1046 | Every escape, by letter, by four hexadecimal digits of either case or by a surrogate pair, is read as the character that section 7 of RFC 8259 gives it |
| JsonTokens.PairScans | third/include/rapidjson/reader.h:1022-1044 | Two escaped surrogates are read as the one value that their twenty bits make |
| JsonTokens.CharsScan | third/include/rapidjson/reader.h:991-1068 | A string of the grammar is read as its meaning, wherever it stands |
| JsonTokens.CharsFrom | third/include/rapidjson/reader.h:991-1068 | Whatever is read as a string is one of the grammar |
| JsonRoundTrip.StringBack | third/include/rapidjson/writer.h:377-449 | Every string, control characters, NUL and bytes above 127 included, survives WriteString and ParseStringToStream, wherever it stands |
| JsonRoundTrip.EscapeIsShortest | third/include/rapidjson/writer.h:377-441 | No spelling of a character is shorter than the one that is written, whose hexadecimal digits are capital |
| JsonString.EscapeAllIsPrintable | third/include/rapidjson/writer.h:377-397 | WriteString puts no control character between the quotes |
| JsonMachine.TransitKeepsBalance | third/include/rapidjson/reader.h:2009-2158 | The state and count stack fits the state after every transition, so it never underflows |
| JsonReadersAgree.ReadersAgree | third/include/rapidjson/reader.h:558-590 | On every text, under every modelled flag and with every handler, the table-driven reader reports what the recursive one reports, but for the code of a document that starts with a closing bracket, comma or colon, and for the offset, one less, of a refused opening bracket, or closing one that does not follow a trailing comma |
| JsonReports.SameLanguage | third/include/rapidjson/reader.h:2190-2222 | Both accept the same texts with the same end, and send the same events, with the same counts, on every text, accepted or not |
| JsonReports.ReportsDifferIff | third/include/rapidjson/reader.h:558-590 | The two reports differ if and only if the document starts with such a character, or the handler refused such a bracket |
| JsonReports.RefusedIsLast | third/include/rapidjson/reader.h:2128-2131 | In the second case the refused event is the last one, both readers report its refusal, and the recursive one reports it one character later |
| JsonReports.SameUnlessRefused | third/include/rapidjson/reader.h:558-590 | With a handler that refuses no bracket the two reports differ if and only if the document starts with such a character |
| JsonReports.RefusedBracketDiffers | third/include/rapidjson/reader.h:2031-2040 | An opening bracket alone, refused, is reported at offset 0 by one reader and at 1 by the other |
| JsonReports.ClosingBracketDiffers | third/include/rapidjson/reader.h:2161-2178 | A closing bracket alone is an empty document to one reader and an invalid value to the other |
| JsonSimulation.ValueSim | third/include/rapidjson/reader.h:2009-2158 | From a state that expects a value the machine does what ParseValue does, and its stack is as before |
| JsonSimulation.ElementsSim | third/include/rapidjson/reader.h:808-853 | Inside an array the machine does what the loop of ParseArray does, with its element count |
| JsonSimulation.MembersSim | third/include/rapidjson/reader.h:740-804 | Inside an object the machine does what the loop of ParseObject does, with its member count |
| JsonReaderClass.Reader.SkipWhitespaceAndComments | third/include/rapidjson/reader.h:711-737 | The cursor's loops skip what SkipFrom skips, or fail where it fails |
| JsonReaderClass.Reader.ParseWord | third/include/rapidjson/reader.h:856-893 | null, true and false, with the error at the first wrong character |
| JsonReaderClass.Reader.ParseString | third/include/rapidjson/reader.h:959-988 | The event or the error of a string at the cursor |
| JsonReaderClass.Reader.ParseNumber | third/include/rapidjson/reader.h:1468-1746 | The event or the error of a number at the cursor |
| JsonReaderClass.Reader.ParseValue | third/include/rapidjson/reader.h:1750-1773 | The object's cursor, events and error become those of JsonReader.Value |
| JsonReaderClass.Reader.ParseArray | third/include/rapidjson/reader.h:808-853 | ParseArray's loop computes JsonReader.Array |
| JsonReaderClass.Reader.ParseObject | third/include/rapidjson/reader.h:740-804 | ParseObject's loop computes JsonReader.Object |
| JsonReaderClass.Reader.Parse | third/include/rapidjson/reader.h:558-590 | Parse computes JsonReader.Parse and reports the same as the iterative reader |
| JsonReaderClass.Reader.DoTransit | third/include/rapidjson/reader.h:2009-2158 | Transit on the object's own stack is the machine's transition, and never pops an empty stack |
| JsonReaderClass.Reader.PushFrame | third/include/rapidjson/reader.h:2016-2041 | An opening bracket pushes the state to return to and a zero count |
| JsonReaderClass.Reader.PopFrame | third/include/rapidjson/reader.h:2078-2138 | A closing bracket pops both and reports the count |
| JsonReaderClass.Reader.ParseIteratively | third/include/rapidjson/reader.h:2190-2222 | IterativeParse computes the machine's run |
| JsonTokens.SkipGap | third/include/rapidjson/reader.h:266-330 | Blanks and comments of the grammar, tabs among the blanks, are skipped up to what is neither |
| JsonTokens.SkippedIsGap | third/include/rapidjson/reader.h:711-737 | What is skipped are blanks and, with the flag, comments, the last of which the text's end may close; and something else follows |
| JsonParses.ValueParses | third/include/rapidjson/reader.h:1750-1773 | Every value of the grammar, wherever it stands, is parsed to its end and reported as what it means |
| JsonLanguage.ValueFrom | third/include/rapidjson/reader.h:1750-1773 | Whatever is parsed as a value is one of the grammar, from its first to its last character |
| JsonLanguage.DocumentParses | third/include/rapidjson/reader.h:558-590 | A text of the grammar is parsed to its end, and the handler is sent what it means |
| JsonLanguage.DocumentFrom | third/include/rapidjson/reader.h:558-590 | Whatever is parsed is a text of the grammar; under the flag that stops behind the value it starts with one |
| JsonLanguage.AcceptedIffJson | third/include/rapidjson/reader.h:558-590 | With a handler that refuses nothing both readers accept exactly the texts of section 2 of RFC 8259, with trailing commas, comments, escaped apostrophes and numbers as strings exactly where the flags allow them and doubles that do not overflow, and send exactly their meaning |
| JsonErrors.ErrorsAreReasoned | third/include/rapidjson/reader.h:558-590 | On every text that is refused the code and offset are right: complete tokens of the grammar stand up to there, and what is there is the missing or wrong thing that the code names, in whatever depth of arrays and objects |
| JsonRoundTrip.ValueBack | third/include/rapidjson/reader.h:1750-1773 | The text of a value, wherever it stands, is read as the events of the value |
| JsonRoundTrip.TreeOf | third/include/rapidjson/writer.h:473-491 | Every text that is written is one of the grammar, in either layout, and means the value |
| JsonRoundTrip.NumberBack | third/include/rapidjson/reader.h:1468-1746 | The numeral of every 64-bit integer is read as this integer |
| JsonRoundTrip.DoubleBack | third/include/rapidjson/reader.h:1468-1746 | The text of a number that needs floating point and does not overflow is read as this text, wherever it stands before a separator |
| JsonRoundTrip.ReadBack | third/include/rapidjson/writer.h:473-491 | Any value that the reader can hold, its 64-bit integers by value and its other numbers by their text, in the compact and every pretty layout, is read by both readers under every modelled flag to its end, as the events of the value |
| Itoa.PrintEight | third/include/rapidjson/internal/itoa.h:126-291 | Eight more digits from the table are what a numeral continues with |
| Itoa.U32ToA | third/include/rapidjson/internal/itoa.h:39-112 | Digit pairs from the table, leading zeros switched off one by one, are the decimal numeral |
| Itoa.U64ToA | third/include/rapidjson/internal/itoa.h:126-291 | The same for 64 bits, in groups of eight digits |
| Itoa.ToText | third/include/rapidjson/internal/itoa.h:115-303 | The numeral of every integer from -2^63 to 2^64 - 1; negation in unsigned arithmetic is right for the smallest numbers too |
| JsonWriter.Writer.Prefix | third/include/rapidjson/writer.h:473-491 | The separator in front of a value or name is the one its place asks for, in either layout, and one more value is counted |
| JsonWriter.Writer.PrettySeparator | third/include/rapidjson/prettywriter.h:208-250 | The same for PrettyPrefix |
| JsonWriter.Writer.WriteString | third/include/rapidjson/writer.h:377-449 | Appends exactly the quoted string |
| JsonWriter.Writer.Start | third/include/rapidjson/writer.h:216-244 | An opening bracket and a new level |
| JsonWriter.Writer.End | third/include/rapidjson/prettywriter.h:137-178 | The closing bracket, on a line of its own unless nothing was inside, and the level gone |
| JsonWriter.Writer.Accept | third/include/rapidjson/document.h:1933-1970 | Visiting a value appends exactly its text, and the levels are as before with one more value counted |
| JsonLayout.CompactIsBare | third/include/rapidjson/writer.h:473-491 | The compact text has no blank outside strings, and every pretty text without its blanks outside strings is the compact text of the same value |
| JsonLayout.PrettyIsLaid | third/include/rapidjson/prettywriter.h:208-250 | A pretty text is the compact one with a line break, indented by indentCount times the open brackets, behind each opening bracket and comma and before each closing bracket, none in empty brackets or, if so wanted, in arrays, and one blank behind each colon; told by a scanner of brackets, commas, colons and quotes |
| JsonDocument.BuildEvents | third/include/rapidjson/document.h:2800-2845 | The events of a value leave just this value on the document's stack |
| JsonDocument.Document.Handle | third/include/rapidjson/document.h:2804-2840 | Each callback does to the stack what Step says |
| JsonDocument.Document.EndObject | third/include/rapidjson/document.h:2832-2836 | The names and values above the object become its members |
| JsonDocument.Document.EndArray | third/include/rapidjson/document.h:2840-2844 | The values above the array become its elements |
| JsonDocument.ParseStream | third/include/rapidjson/document.h:2626-2636 | Parsing into a document gives the value that the events build, the same with either reader |
| JsonLoads.ValueLoads | third/include/rapidjson/document.h:2800-2845 | Whatever value the reader accepts, its events add just one value to the stack, one that can be written and read |
| JsonLoads.LoadsIffParsed | third/include/rapidjson/document.h:2626-2636 | A text shorter than 4 GiB is loaded into a document exactly if it is parsed: no event finds the stack unfit for it, and there is one root value at the end, with counts and integers in range and each other number a literal that does not overflow |
| JsonLoads.WrittenLoadsIff | third/include/rapidjson/document.h:2626-2636 | A value is loaded from its own text if and only if its sizes and integers fit and each other number is a literal that does not overflow |
| JsonDenotes.LoadedIffSpelled | third/include/rapidjson/document.h:2626-2636 | The document holds a value after the parse if and only if the text spells this value: names, numbers, strings, elements and members in their order, under every modelled flag |
| JsonLoads.LoadWriteLoad | third/include/rapidjson/document.h:2626-2636 | Whatever was loaded, from any text under any flags, is written in any layout and loaded again as the same value |
| JsonDocument.WriteThenLoad | third/include/rapidjson/document.h:2626-2636 | A value that is written, in either layout, and parsed into a document is the same value, its doubles by their text |
| JsonPointer.IndexIsValue | third/include/rapidjson/pointer.h:958-981 | A name of digits below 2^32 without leading zeros has its decimal value as index |
| JsonPointer.OnlyNumeralsIndex | third/include/rapidjson/pointer.h:958-981 | Only numerals without leading zeros have an index |
| JsonPointer.IndexIffFits | third/include/rapidjson/pointer.h:958-981 | For a numeral without leading zeros the index is its value if and only if that is below 2^32 |
| JsonPointer.WrapNotNoticed | third/include/rapidjson/pointer.h:968-974 | The wrap-around test lets 6000000000 pass, with the index 1705032704 |
| JsonPointer.StringifyBack | third/include/rapidjson/pointer.h:1002-1037 | Parsing what a pointer is printed as gives the pointer (sections 3 and 5 of RFC 6901), and it is not printed as a fragment |
| JsonPointer.StringifyUriBack | third/include/rapidjson/pointer.h:1002-1037 | The same for the URI fragment, whenever it can be printed (section 6 of RFC 6901) |
| JsonPointer.PrintableIffUtf8 | third/include/rapidjson/pointer.h:1020-1029 | The URI fragment can be printed exactly when every name is well-formed UTF-8 |
| JsonPointer.ParsedIsIndexed | third/include/rapidjson/pointer.h:863-993 | Every token that Parse produces has the index that belongs to its name |
| JsonPointer.UriFormIsClosed | third/include/rapidjson/pointer.h:1041-1098 | A pointer parsed from a URI fragment can always be printed as one, and is read back |
| PointerGrammar.ParsesIffSpelled | third/include/rapidjson/pointer.h:863-993 | Parse accepts exactly the strings of section 3 and the fragments of section 6 of RFC 6901, and gives each name as they mean it |
| PointerGrammar.ErrorsAreReasoned | third/include/rapidjson/pointer.h:863-993 | On every text that is refused the code and offset are right: complete names and characters stand up to there, and what is there is no escape, no encoded character, or one that must be encoded |
| PointerGrammar.FragmentIsLean | third/include/rapidjson/pointer.h:1002-1037 | The printed fragment spells each name with unreserved characters as they are, the two escapes, and capital triplets for all others |
| JsonPointerClass.GenericPointer.Parse | third/include/rapidjson/pointer.h:863-993 | On every input the token array and the name buffer denote exactly the tokens of JsonPointer.Parse, as many as were counted; after an error there is none, with code and offset |
| JsonPointerClass.GenericPointer.ParseToken | third/include/rapidjson/pointer.h:901-986 | One token is written behind the others, inside the buffer, and changes none of them |
| JsonPointerClass.ParseName | third/include/rapidjson/pointer.h:907-955 | The in-place loop over one name, its terminator fitting into the buffer too |
| JsonPointerClass.ValidateInto | third/include/rapidjson/pointer.h:916-922 | A percent-encoded character is validated into the buffer, at most four bytes, also when it breaks off |
| JsonPointerClass.ParseIndex | third/include/rapidjson/pointer.h:958-981 | The conversion with its 32-bit wrap-around test |
| JsonPointerClass.Take | third/include/rapidjson/pointer.h:1052-1072 | One byte of the percent stream, or the failure |
| PointerTree.Resolve | third/include/rapidjson/pointer.h:540-568 | The walk finds Get's value; on failure it names the first token that selects nothing |
| PointerTree.GetAfterPut | third/include/rapidjson/pointer.h:671-673 | After Set, Get finds the value that was set; after Create, what was there or a null; exactly unless a dash met an array on the way |
| PointerTree.ExistedIffFound | third/include/rapidjson/pointer.h:461-508 | Create says that the value existed exactly when Get finds it, and then leaves the tree alone |
| PointerTree.PutMakes | third/include/rapidjson/pointer.h:461-508 | For every token of the path: what was there by Get, an array, an object, a leaf or nothing, becomes after Set an array exactly when it must, of the right length and padded with nulls, or an object with one more member, the other elements and members as they were and in their order; a leaf or nothing becomes an array exactly for an index |
| PointerTree.SetKeepsOthers | third/include/rapidjson/pointer.h:461-508 | A pointer that parts from the one that is set and resolved before resolves to the same value, except, exactly, where they part at an array that becomes an object: there it resolves no more |
| PointerTree.EraseIffFound | third/include/rapidjson/pointer.h:772-814 | Erase succeeds exactly on what Get finds below the root |
| PointerTree.EraseTakesOne | third/include/rapidjson/pointer.h:772-814 | The parent, by Get, has one child less, the others as they were and in their order |
| PointerTree.EraseKeepsOthers | third/include/rapidjson/pointer.h:772-814 | A pointer that parts from the erased one above the parent finds what it found before |
| PointerTree.EraseUndoesSet | third/include/rapidjson/pointer.h:772-814 | Erasing a member or last element that Set had added restores the tree |
| PointerInPlace.Value.FindMember | third/include/rapidjson/document.h:2267-2273 | The first member of that name, or the end |
| PointerInPlace.Value.AddMember | third/include/rapidjson/document.h:2289-2304 | A member behind the others |
| PointerInPlace.Value.Take | third/include/rapidjson/document.h:921-932 | Assignment moves a whole tree and leaves a null behind, also when the tree is a part of the target's own; a node assigned to itself stays |
| PointerInPlace.Value.Descend | third/include/rapidjson/pointer.h:466-500 | One turn of Create's loop in place: type change, append, padding or new member, and the child it goes on from |
| PointerInPlace.Value.Drop | third/include/rapidjson/pointer.h:805-810 | The child is gone and those behind it move up |
| PointerInPlace.Place | third/include/rapidjson/pointer.h:461-508 | Create and Set on a tree of heap nodes, changed in place and never shared, make of it what Put makes of its value, and answer whether the value existed; the value that is set may be a tree of its own, the target, or a part of the target |
| PointerInPlace.Remove | third/include/rapidjson/pointer.h:772-814 | Erase in place makes of the tree what Erase makes of its value, or changes nothing and says so |
| PoolAllocator.SizeWithinCapacity | third/include/rapidjson/allocators.h:292-309 | The used bytes of all chunks are within their capacity |
| PoolAllocator.NewBlock | third/include/rapidjson/allocators.h:320-333 | A new block is aligned, inside its chunk and apart from all others, which stay where they are |
| PoolAllocator.BlockGrows | third/include/rapidjson/allocators.h:352-359 | The last block may grow in place without meeting another |
| PoolAllocator.LastIsInHead | third/include/rapidjson/allocators.h:352-353 | The address test for the last block cannot be fooled by a block of an older chunk or by an understated size |
| PoolAllocator.OthersUntouched | third/include/rapidjson/allocators.h:361-365 | Copying into a new block changes no byte of a live one |
| PoolAllocator.MemoryPoolAllocator.constructor | third/include/rapidjson/allocators.h:168-190 | A pool with one chunk of no capacity behind the shared data |
| PoolAllocator.MemoryPoolAllocator.WithBuffer | third/include/rapidjson/allocators.h:200-215 | A pool whose first chunk is just what the caller's buffer leaves after alignment and headers |
| PoolAllocator.MemoryPoolAllocator.AddChunk | third/include/rapidjson/allocators.h:389-401 | A new chunk in front, all blocks staying valid, or nothing when the system refuses |
| PoolAllocator.MemoryPoolAllocator.Malloc | third/include/rapidjson/allocators.h:320-333 | All live blocks stay aligned, inside their chunks and disjoint, and the new one joins them behind what the newest chunk has given out, or at the start of a new chunk, of the chunk capacity or larger, exactly if there is no room; null exactly for size zero or a refused chunk |
| PoolAllocator.MemoryPoolAllocator.Realloc | third/include/rapidjson/allocators.h:336-371 | Keeps a block that fits, grows the last one in place exactly when there is room, else moves it with its contents to where Malloc puts it, or null exactly where Malloc is; blocks stay disjoint and no other byte changes |
| PoolAllocator.MemoryPoolAllocator.Clear | third/include/rapidjson/allocators.h:276-287 | The oldest chunk remains, empty |
| PoolAllocator.MemoryPoolAllocator.Size | third/include/rapidjson/allocators.h:303-309 | Exactly the sum of the blocks handed out, and no more than the capacity |
| PoolAllocator.MemoryPoolAllocator.Capacity | third/include/rapidjson/allocators.h:292-298 | The sum over the chunks |

## Left out

- Floating point: fraction and exponent are read, counted and rejected as the code does, but the double itself, Strtod and dtoa are not computed; a Double event carries the literal's text.
- JsonReader: in-situ parsing, the validating-encoding, full-precision and NaN-and-Inf flags, the SIMD paths, other source encodings and the step-wise IterativeParseNext.
- JsonWriter.Writer.Accept: a double is written as the text it is kept by, where the original prints the shortest one for its value; the writer's NaN handling, decimal places and the flush at the end of the root value are left out.
- JsonNumberReader.ParseNumber: a double is reported by its text.
- JsonDocument.ParseStream: where a member's memory comes from, reference counts and the members map; the events are handled after the parse, not during it, and a double is kept by its text.
- JsonLoads.LoadsIffParsed: texts of 4 GiB and more, in which element counts could wrap around.
- JsonRoundTrip.StringBack: string lengths are unbounded, the original counts them in 32 bits.
- JsonPointer.IndexIffFits: does not say which numerals of 2^32 or more the wrap-around test catches; the conversion itself is followed bit by bit.
- JsonPointer.Parse: pointers given as token arrays, their comparison, Append and Swap.
- PointerInPlace.Place: a value that is taken out of another part of the same tree, whose memory Create may move; the loops of Create and Erase are written as recursion along the path; capacities of arrays and objects are not modelled.
- Dispatcher.SimpleMsgDispatcher.OnMessageParse: user handlers only record what they get; handlers that close or send from inside are not modelled.
- Dispatcher.SimpleMsgDispatcher.OnMessage: a header whose array was given up is delivered with the value it had; the original then reads freed memory.
- PingPong.PingEncode: the text behind the numeral is whatever the buffer held, and no claim is made about it.
- AsyncProtocol.AnyRun: no fairness; that the loop takes a pending signal some time is libuv's promise. Relaxed-memory effects on the plain read of the handle's data are not modelled.
- SendProtocol.AnyRunFromStart: one connection, SharedPool has them all; the destructor runs only when no callback of the connection is queued, the original captures a plain pointer there.
- CharVectors.CharVector.AllocMem: a failed allocation, and a reallocation that extends in place.
- TcpConnection.TcpConnection.AfterWrite: the user's send callback may send; what else it may do is not modelled.
- TcpConnection.TcpConnection.RealSend: runs without interruption by other threads, which SendProtocol covers; libuv's refusals are a list of verdicts.
- EventLoop.EventLoop.Run: other handles of the loop, runNoWait and the default loop; a call that blocks is one that answers Sleeping and goes on in Continue.
- RingQueue.Split: splitting at the head node itself, which the macro is not for.
- PoolAllocator: reference counting, moves and the destructor; addresses do not wrap around.
- libuv, sockets, connecting and closing, address formatting, timers, TcpServer, WorkerPool, GlobalConfig, NodeHeap, logging: foreign calls and thin wrappers.
