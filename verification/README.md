# Verified model of stdnet

stdnet is a C++ implementation of sender/receiver networking. This project models its mutable
core in Dafny and proves what that core is relied on for:

- **The completion protocol of an asynchronous operation.** The starter (`_Start` and the
  submit), a stop callback that may run on another thread, and the event loop's handler race for
  one completion signal. They are arbitrated by one atomic counter and by destroying the stop
  callback. `Operations` holds the submits and handlers of the six libevent operations,
  `Protocol` the transition system with one step per atomic action and its inductive invariant,
  `ProtocolRuns` the theorems about all interleavings, `Outcomes` which signal they end with, `Stretches` what each party does when nobody
  comes in between, and `OperationState` the operation as an object with the program's own methods,
  each of which is proved to be such a stretch of a run.
- **The HTTP server example.** `Framing` is the split of a stream into heads, `Reading` what a
  buffered reader gets out of a connection on values, `Buffering` the connection and the growing
  buffer as objects, `RequestParser` the cursor parser, `RequestRoundTrip` rendering against parsing,
  `Sessions` reading one request after the other, `Responses` writing and decoding responses, and
  `Server` a whole client connection. `Text` has the string searches they share and `Bounds` minimum
  and maximum.
- **The slot allocator and socket ownership.** `Slots` is the allocator on values with its free
  list, `SlotRuns` its whole runs, `Container` the object, and `Sockets` the sockets that own slots:
  a world on values with its theorems, and the objects whose operations are the steps of that world.
- **The poll loop.** `PollLoop` is the pair of parallel vectors with swap-with-last removal and
  re-entrant additions, and the loop that counts: the rounds of a run on values, and the object.

## Reading the model

Surroundings are parameters. System calls, `poll`, the chunks in which bytes arrive and the
amounts that sends accept are arguments or functions chosen freely by the caller, so a theorem
holds for each of their answers. The stop callback follows [stopcallback.cons] of C++20: its
construction runs it inline once stop was requested, it runs at most once, its destruction
prevents one that has not begun and waits for one that runs on another thread. `event_del` does
not wait for a running handler, because libevent is used without its threading support. Each
increment, decrement, destruction and check is a step of its own. A decrement that reaches zero
decides for a signal; sending it is one more step, which the model lets come as late as it may.

Where a plausible property does not hold, the exact condition is proved instead, and a lemma names
an input at which the property fails:

- A submit that finishes at once completes the operation, and `_Start` completes it a second time.
  The counter then goes to -1, or -2 in the run of `CounterReachesItsLowest`, and no second signal is
  sent: `AtMostOneSignal`.
- A quiet operation without a stop request has its signal, unless its event is still pending, its
  handler gave up on a call that would block (the event is not persistent), or adding the event
  failed, which no submit looks at: `EveryRunEndsWell`. Runs that lose an operation in the last two
  ways are `WouldBlockLoses` and `IgnoredAddLoses`.
- Erasing keeps the free list if and only if the slot was live: `EraseKeepsInvIffLive`. What a second
  erase of a slot does is `ErasingTwiceBreaks`.
- Making a socket keeps ownership if and only if fewer than 2^32 - 1 sockets are open:
  `MakeKeepsOwnershipIffIdsLast`. At that number the handle of the next socket is never closed:
  `HandleIsClosedIffIdsLast`, and `HandleCanLeak` reaches it.
- The whitespace loop of the parser reads behind its range, and runs past it if and only if only
  whitespace is left and the byte behind is a tab: `SkipStaysInsideIff`, `TabRunsPast`. In a head that
  byte is CR.
- Requests that arrive one by one are all read if and only if no head but the last fills the buffer
  exactly. An exact fill leaves a buffer of size 0, which doubling cannot grow:
  `AllServedIffNoExactFit`, `ExactFitIff`. A request of 1024 bytes does it: `ExactFitStarves`.
- The consume at the end of `read_http_request` is undefined if and only if the next receive brings
  something and the stream gives out before the next head is complete: `ReadRequestIff`. With receives
  that always bring something that means a buffer with a size, bytes to come, and no empty line in what
  is held and to come: `ReadRequestIfBrought`, `EndInsideHeadIsUndefined`.
- Parsing gives rendered fields back if and only if no value starts with a blank:
  `FieldsSurviveIffNoLeadingBlanks`, `LeadingBlankIsLost`.
- `write_response` sends the body even if the head was not sent whole. The wire is sure to hold a beginning
  of the response if and only if the last send of the head took something, the next send takes nothing,
  or there is no body: `AlwaysBeginsIff`. `RefusedHeadIsSkipped` is a peer that gets a body without its head.

## Model

| member | source | states |
|---|---|---|
| Operations.Work | include/stdnet/libevent_context.hpp:346-381 | the handler's retry loop stops at the first answer that is no interruption, which alone decides; it gives up only on a transfer that would block |
| Protocol.StartingKeepsInv | include/stdnet/cpo.hpp:132-147 | start, callback construction (inline if stopped), stop check and submit keep the invariant |
| Protocol.FinishingKeepsInv | include/stdnet/cpo.hpp:137-163 | the starter's cancel and both completions of a submit that finished keep the invariant |
| Protocol.CallbackKeepsInv | include/stdnet/cpo.hpp:89-110 | every action of a running stop callback, `event_del` included, keeps the invariant |
| Protocol.LoopKeepsInv | include/stdnet/cpo.hpp:148-163 | the handler and the completion it ends in keep the invariant |
| Protocol.StepKeepsInv | include/stdnet/cpo.hpp:75-171 | the invariant that ties counter, callback, event and signals together is inductive over all steps of all parties |
| ProtocolRuns.RunKeepsInv | include/stdnet/cpo.hpp:75-171 | it holds after every interleaving |
| ProtocolRuns.AtMostOneSignal | include/stdnet/cpo.hpp:132-170 | in every interleaving at most one of set_value, set_error, set_stopped is decided or sent; once started, one is exactly when the counter is at most 0; the counter stays within [-2, 2] |
| ProtocolRuns.CallbackWinsOrNeverRuns | include/stdnet/cpo.hpp:89-101 | the callback's increment goes from 1 to 2, its own decrement never reaches 0, the operation's always does and decides for set_stopped; a value or error is sent only if the callback never ran |
| ProtocolRuns.BegunCallbackDecides | include/stdnet/cpo.hpp:89-110 | after the callback began, a run can end in nothing but set_stopped |
| ProtocolRuns.DecisionIsFinal | include/stdnet/cpo.hpp:148-170 | whatever the parties do after a decision, that signal and no other one is sent |
| ProtocolRuns.CallbackStorageIsNotShared | include/stdnet/cpo.hpp:118-163 | starter and loop never construct or destroy the optional callback at the same time |
| ProtocolRuns.StepMakesProgress | include/stdnet/cpo.hpp:132-163 | every step but an interrupted system call lowers a measure, and that one changes nothing |
| ProtocolRuns.RunIsBounded | include/stdnet/cpo.hpp:132-163 | a run is no longer than the measure it uses up plus its interruptions |
| ProtocolRuns.StuckIffSettled | include/stdnet/libevent_context.hpp:206-215 | no deadlock: the parties have no step left exactly when all are done and nobody waits in `reset()` |
| ProtocolRuns.SettledHasItsSignal | include/stdnet/cpo.hpp:132-170 | a settled operation has exactly one signal if stop was requested, and otherwise exactly if it is not waiting or lost |
| ProtocolRuns.EveryRunEndsWell | include/stdnet/cpo.hpp:132-170 | every run has at most 25 steps besides interruptions; every maximal one leaves nobody blocked and has sent exactly one signal under stop, and without stop exactly if no event is pending, no handler gave up and no event failed to be added |
| ProtocolRuns.StopIsAnswered | include/stdnet/libevent_context.hpp:206-215 | from every reachable stopped state the parties come to exactly one signal by themselves, without the event firing |
| Outcomes.ValueIsSentIff | include/stdnet/libevent_context.hpp:217-506 | for every run that cannot go on: set_value is sent exactly if the stop callback did not run and the submit connected at once or was due, or a call of the handler succeeded, by kind and answers |
| Outcomes.ErrorIsSentIff | include/stdnet/libevent_context.hpp:217-506 | and set_error exactly if the upstream sender sent one, or the stop callback did not run and the submit or a call of the handler failed for good |
| Outcomes.UpstreamPassesOn | include/stdnet/cpo.hpp:51-69 | an upstream error or stop reaches the receiver as it is, and nothing else does |
| Stretches.WouldBlockLoses | include/stdnet/libevent_context.hpp:236-256 | a run of every accept, receive and send that ends without a signal, its handler having given up on a call that would block |
| Stretches.IgnoredAddLoses | include/stdnet/libevent_context.hpp:262-263 | a run of every operation that ends without a signal, its event having failed to be added |
| Stretches.CounterReachesItsLowest | include/stdnet/cpo.hpp:132-163 | a stop request during a submit that fails takes the counter to -2, with the one signal set_stopped |
| Stretches.EventCanFireAfterStop | include/stdnet/libevent_context.hpp:206-215 | a run of every operation in which its event is armed after its stop callback ran |
| OperationState.CpoState.StopCallback | include/stdnet/cpo.hpp:89-110 | the callback finds the counter at 1 and leaves it at 0, deletes the event and sends set_stopped and nothing else; what it does is a run of the transition system |
| OperationState.CpoState.Start | include/stdnet/cpo.hpp:132-147 | `_Start` sends set_stopped if stopped before; set_value exactly if the submit connected at once or was due, set_error exactly if the submit failed, and nothing if it prepared an event; the counter ends at -1, -1 or 1; what it does is a run of the transition system |
| OperationState.CpoState.HandleEvent | include/stdnet/libevent_context.hpp:69-73 | the handler, before or after the stop callback: unless set_stopped has been sent it sends set_value exactly if the call that decided succeeded, and set_error exactly if it failed; after a call that would block the operation keeps its count and callback and nothing is armed; what it does is a run of the transition system |
| Text.IndexIsFirst | examples/simple-http-server.cpp:60-60 | the search finds an occurrence that none precedes |
| Text.CutAtFirst | examples/simple-http-server.cpp:46-64 | token and rest are the two sides of the first occurrence, or the whole text and nothing |
| Text.SeparatorEndsLines | examples/simple-http-server.cpp:92-94 | in lines followed by an empty line the first CRLFCRLF is that empty line, whatever comes behind |
| Framing.HeadLengthStable | examples/simple-http-server.cpp:92-94 | a head once found stays the first head when more bytes arrive |
| Framing.HeadLengthIff | examples/simple-http-server.cpp:70-94 | a head goes up to and including the first CR LF CR LF |
| Framing.HeadEndsInBreak | examples/simple-http-server.cpp:92-94 | a head ends in CRLF |
| Framing.HeadIsItsOwnHead | examples/simple-http-server.cpp:92-94 | a head's only empty line is its end |
| Framing.FitIsLeast | examples/simple-http-server.cpp:86-87 | the capacity reached is the least doubling of the initial one that holds the bytes |
| Framing.HeadEndsBehind | examples/simple-http-server.cpp:92-94 | bytes that complete a head complete it behind those that held none |
| Reading.FoundIsFirst | examples/simple-http-server.cpp:82-96 | for every chunking: the head found is the first one of held and incoming bytes, no byte is lost, the capacity is the least doubling for what was received |
| Reading.NoHeadEnds | examples/simple-http-server.cpp:82-96 | without a head no byte is lost, what was received held no head, and the last receive brought nothing because nothing was left, the buffer had size 0 or the stream gave nothing |
| Reading.FoundIff | examples/simple-http-server.cpp:82-96 | for every schedule of receives: a head is found exactly if something comes and what is held when the stream gives out has a head |
| Reading.AllIsHeldAtLast | examples/simple-http-server.cpp:86-91 | that is the whole stream if receives always bring something and the buffer has a size |
| Reading.ReadTakesFirst | examples/simple-http-server.cpp:124-145 | reading a request takes exactly the first head off the stream, and the capacity left is the least doubling less the head |
| Reading.ReadRequestIff | examples/simple-http-server.cpp:124-145 | told before the call, for every schedule: it reads nothing exactly if the first receive brings nothing, a head exactly if one is completed, and its consume is undefined exactly if bytes come but no head is completed |
| Reading.ReadRequestIfBrought | examples/simple-http-server.cpp:124-145 | the same for receives that always bring something, from the size of the buffer and the bytes alone |
| Buffering.Stream.Receive | examples/simple-http-server.cpp:88-88 | a receive brings the next bytes, as many as the other end chooses up to the room |
| Buffering.Stream.Send | examples/simple-http-server.cpp:107-107 | a send takes a prefix of what it is given |
| Buffering.BufferedStream.constructor | examples/simple-http-server.cpp:71-74 | the buffer starts empty with 1024 bytes |
| Buffering.BufferedStream.Consume | examples/simple-http-server.cpp:76-81 | consuming drops the head, keeps what is behind it and keeps the free space |
| Buffering.BufferedStream.ReceiveMore | examples/simple-http-server.cpp:86-91 | a receive is offered at least one byte unless the buffer has size 0; the buffer stays within max(1024, twice the most ever held) |
| Buffering.BufferedStream.Locate | examples/simple-http-server.cpp:92-94 | `pos` is the end of the first head in the held bytes, or `npos` |
| Buffering.BufferedStream.ReadHead | examples/simple-http-server.cpp:82-96 | the loop in place: it ends with the head that the specification finds, and without one `pos` is `npos` exactly if something was received |
| RequestParser.LastFieldCounts | examples/simple-http-server.cpp:140-140 | of fields with the same key the last one counts |
| RequestParser.HeadersMapToLast | examples/simple-http-server.cpp:135-141 | the map holds exactly the keys of the fields, each with the value of its last field |
| RequestParser.SkipStaysInsideIff | examples/simple-http-server.cpp:53-57 | the whitespace loop stays inside its range unless only whitespace is left and the byte behind is a tab |
| RequestParser.PassesEndOnlyOnTab | examples/simple-http-server.cpp:53-57 | at the end it goes on exactly over a tab |
| RequestParser.TabRunsPast | examples/simple-http-server.cpp:53-57 | a text in which the loop leaves its range |
| RequestParser.Parser.constructor | examples/simple-http-server.cpp:130-130 | the parser's range leaves out the head's last line break, which stays readable |
| RequestParser.Parser.Find | examples/simple-http-server.cpp:46-52 | the token up to the character, which is stepped over; progress on a non-empty range |
| RequestParser.Parser.SkipWhitespace | examples/simple-http-server.cpp:53-57 | it never leaves the range and drops exactly the leading blanks |
| RequestParser.Parser.Search | examples/simple-http-server.cpp:58-64 | the token up to the first occurrence, which is stepped over |
| RequestParser.ParseField | examples/simple-http-server.cpp:137-139 | one round of the header loop takes one field and strictly shrinks what remains |
| RequestParser.ParseHeaders | examples/simple-http-server.cpp:135-141 | the header loop terminates with a map of exactly the keys of the fields, each with the value of its last field |
| RequestParser.ParseHead | examples/simple-http-server.cpp:130-141 | the parse of a head is the value specified for its bytes, and its headers hold exactly the fields behind the request line |
| RequestRoundTrip.ParseUndoesRender | examples/simple-http-server.cpp:124-141 | parsing a rendered well-formed request gives it back, headers as a map, values without leading blanks |
| RequestRoundTrip.ParsedIsWhatWasSent | examples/simple-http-server.cpp:124-141 | of a rendered request: method, uri and version come back, a key is present exactly if a field was sent with it, and maps to the value of the last such field without the blanks in front |
| RequestRoundTrip.RenderBytes | examples/simple-http-server.cpp:130-140 | what is rendered, byte by byte: the request line, `key: value` lines and an empty line |
| RequestRoundTrip.FieldsSurviveIffNoLeadingBlanks | examples/simple-http-server.cpp:135-141 | the fields come back as sent exactly if no value starts with a blank |
| RequestRoundTrip.LeadingBlankIsLost | examples/simple-http-server.cpp:135-141 | a field that comes back without the blank in front of its value |
| RequestRoundTrip.ReceivedIsSent | examples/simple-http-server.cpp:124-141 | then the request received is the request sent |
| RequestRoundTrip.RenderIsOneHead | examples/simple-http-server.cpp:92-94 | a rendered request is exactly one head, whatever follows |
| RequestRoundTrip.SplitUndoesRenderAll | examples/simple-http-server.cpp:82-96 | a stream of rendered requests is split into just these |
| Sessions.ReadHttpRequest | examples/simple-http-server.cpp:124-145 | the call in place: the request is the parse of the head taken; with receives that always bring something, a head is read, and the consume is undefined, exactly under conditions on the buffer and the stream before the call |
| Sessions.EndInsideHeadIsUndefined | examples/simple-http-server.cpp:89-90 | a stream that ends inside a head, after which the consume is undefined |
| Sessions.HeadsAreFirst | examples/simple-http-server.cpp:124-145 | for every chunking the heads read are the first of the greedy split of the stream, the rest is still held or to come, and bytes received are bytes consumed and bytes held |
| Sessions.StopsOnlyWhenFed | examples/simple-http-server.cpp:82-96 | reading stops only when everything was received, a receive brought nothing, or the buffer has size 0 |
| Sessions.ChunkingDoesNotMatter | examples/simple-http-server.cpp:82-96 | for any two ways of chunking a stream, the heads and the requests that reading gets are prefixes of one another |
| Sessions.ByteByByteReadsServed | examples/simple-http-server.cpp:76-96 | byte by byte, all heads of any stream are read up to the first that leaves no capacity |
| Sessions.ReadRequests | examples/simple-http-server.cpp:124-145 | repeated calls in place read just these heads and leave just that rest |
| Sessions.SplitIsGreedy | examples/simple-http-server.cpp:82-96 | the greedy split consists of heads that end at their only empty line and leaves a remainder with none |
| Sessions.ExactFitIff | examples/simple-http-server.cpp:86-87 | a head leaves no capacity exactly if its length is a doubling of the capacity it started with |
| Sessions.AllServedIffNoExactFit | examples/simple-http-server.cpp:76-90 | all heads are served exactly if none but the last fits exactly, which depends on the sizes only |
| Sessions.ExactFitStarves | examples/simple-http-server.cpp:76-90 | a well-formed request of 1024 bytes, behind which no request is read |
| Sessions.ReadArrived | examples/simple-http-server.cpp:124-145 | a request that arrives alone in any chunks is read exactly, unless the buffer has size 0 |
| Sessions.ReadOneByOne | examples/simple-http-server.cpp:124-164 | requests that arrive one by one, each in any chunks, are read as sent up to the first exact fit |
| Responses.ParseUndoesDecimal | examples/simple-http-server.cpp:101-101 | the decimal Content-Length reads back as the number |
| Responses.DecimalDigits | examples/simple-http-server.cpp:101-101 | the number is written in base ten without zeros in front |
| Responses.EncodeBytes | examples/simple-http-server.cpp:97-114 | a whole response byte by byte: status line, Content-Length, empty line and body |
| Responses.HeadAlone | examples/simple-http-server.cpp:99-104 | a response head ends at its own empty line, whatever the body holds |
| Responses.DecodeUndoesEncode | examples/simple-http-server.cpp:97-114 | one response decodes to its status and body and leaves what follows |
| Responses.TruncatedIsIncomplete | examples/simple-http-server.cpp:97-114 | no proper prefix of a response decodes to a response |
| Responses.DecodePrefix | examples/simple-http-server.cpp:97-114 | a stream of responses cut anywhere decodes to exactly the responses that are there in full |
| Responses.WholeIsMost | examples/simple-http-server.cpp:97-114 | these are as many as fit into the bytes that are there |
| Responses.DecodeUndoesEncodeAll | examples/simple-http-server.cpp:97-114 | unique decodability: the whole stream decodes to the very list |
| Responses.EncodeAllIsInjective | examples/simple-http-server.cpp:97-114 | no two lists of responses have the same stream |
| Responses.SendLoop | examples/simple-http-server.cpp:105-108 | the send loop terminates with what the sends took on the wire |
| Responses.PumpWholeIff | examples/simple-http-server.cpp:105-108 | a send loop sends all it has exactly if its last send took something, and nothing exactly if its first took nothing |
| Responses.WrittenWholeIff | examples/simple-http-server.cpp:105-113 | for every schedule of sends: the response is out whole exactly if the last send of each loop took something |
| Responses.AlwaysBeginsIff | examples/simple-http-server.cpp:105-113 | for every schedule of sends: what is written is a beginning of the response for all bodies of a length exactly if the head's last send took something, the next one takes nothing, or the length is 0 |
| Responses.RefusedHeadIsSkipped | examples/simple-http-server.cpp:105-113 | a schedule on which the body goes out without its head |
| Responses.WrittenTo | examples/simple-http-server.cpp:105-113 | all of it to a peer that always takes something, a beginning to one that shuts for good |
| Responses.WrittenAllTo | examples/simple-http-server.cpp:97-114 | the same for responses written one after the other |
| Responses.WriteResponse | examples/simple-http-server.cpp:97-114 | the call in place: for every schedule of partial sends the wire gets the sent part of the head and of the body |
| Server.ServedAreFirst | examples/simple-http-server.cpp:162-187 | a connection serves the requests in the first heads of its stream, and what is left is behind them |
| Server.ServedAreKeptAlive | examples/simple-http-server.cpp:165-187 | every request served has a method, and all but the last of a connection not kept alive are kept alive |
| Server.EndsIff | examples/simple-http-server.cpp:162-187 | when a connection ends not kept alive, with the error response, or in an undefined consume, each exactly and in terms of what is left behind the requests served |
| Server.ChunkingDoesNotMatterToServe | examples/simple-http-server.cpp:153-190 | two chunkings of a stream serve the same requests as far as both get, and the very same if both end because a request is not kept alive |
| Server.PeerDecodes | examples/simple-http-server.cpp:165-184 | a peer decodes what it took to all responses in order, or if it shuts for good to exactly those that it took in full |
| Server.ServesWhatIsRead | examples/simple-http-server.cpp:162-187 | a connection serves exactly the requests that reading gets, up to the first without a method or through the first not kept alive |
| Server.ServesWhatWasSent | examples/simple-http-server.cpp:153-190 | for every chunking of a client's rendered requests: those served are a first part of them, as they were sent |
| Server.ServesByteByByte | examples/simple-http-server.cpp:153-190 | byte by byte, that part is exact: through the first rendering that fills the buffer exactly |
| Server.ClientGetsItsAnswers | examples/simple-http-server.cpp:153-190 | what a client decodes are the answers to a first part of the requests it sent, in order, and the error response if an empty request ended the connection |
| Server.GoesOnAsSent | examples/simple-http-server.cpp:187-187 | a connection goes on behind a request it served exactly if the last Connection field that the client sent with it is "keep-alive" |
| Server.ClientGetsContents | examples/simple-http-server.cpp:165-184 | what a client decodes: for each of its GETs served, in order, 200 OK with the resource's contents or 404 NOT FOUND; 550 ERROR without a body if an empty request ended the connection; and nothing else |
| Server.Respond | examples/simple-http-server.cpp:171-185 | what a taking peer decodes of the bytes written for a request: 200 OK with the resource's contents or 404 NOT FOUND for a GET, nothing for another method |
| Server.Round | examples/simple-http-server.cpp:164-185 | one round in place: the next request is read as specified and its answer, or the error for an empty one, written as far as the peer takes it |
| Server.MakeClient | examples/simple-http-server.cpp:153-190 | a connection in place, for every peer: it reads and ends as specified and the wire holds the responses specified, each as far as the peer took it |
| Slots.InsertThreads | include/stdnet/container.hpp:53-67 | an insert keeps the free list; the slots grow exactly when it is empty, so its end marker is never stale |
| Slots.EraseThreads | include/stdnet/container.hpp:69-73 | an erase of a live id puts it in front of the free list |
| Slots.ThreadsUnique | include/stdnet/container.hpp:42-43 | slots and head determine the free list |
| Slots.EraseKeepsInvIffLive | include/stdnet/container.hpp:69-73 | the free list survives an erase exactly if the slot was live |
| Slots.InsertRefinesMap | include/stdnet/container.hpp:53-67 | an insert hands out an id that was not live and maps only that id to the record |
| Slots.EraseRefinesMap | include/stdnet/container.hpp:69-73 | an erase removes only its id |
| Slots.LiveAndFree | include/stdnet/container.hpp:42-43 | every slot is either live or on the free list |
| SlotRuns.RunKeepsInv | include/stdnet/container.hpp:53-73 | every run of inserts and erases of live ids keeps the free list |
| SlotRuns.ErasingTwiceBreaks | include/stdnet/container.hpp:69-73 | an erase of a dead slot in a reachable store, after which the second of two inserts finds a record in the free list |
| SlotRuns.SpaceOptimal | include/stdnet/container.hpp:53-73 | the number of slots is the most records ever live at once |
| SlotRuns.PeakIsReached | include/stdnet/container.hpp:53-73 | that peak is reached at some time and never exceeded |
| SlotRuns.ReturnedIdBelowPeak | include/stdnet/container.hpp:53-67 | every id handed out is below that peak and was not live |
| SlotRuns.LookupFindsLastStored | include/stdnet/container.hpp:75-79 | an id maps to a record exactly if the insert that last returned it stored that record and it was not erased since |
| SlotRuns.LastErasedFirstReused | include/stdnet/container.hpp:53-73 | erased ids are handed out again in reverse, without growth, restoring the free list and leaving all other slots alone |
| Container.Container.Insert | include/stdnet/container.hpp:53-67 | insert in place, refining the map |
| Container.Container.Erase | include/stdnet/container.hpp:69-73 | erase in place, refining the map |
| Container.Container.At | include/stdnet/container.hpp:75-79 | a lookup finds the record of a live id; a dead slot is a bad access |
| Sockets.SocketIdIsIndex | include/stdnet/netfwd.hpp:33-36 | an index survives conversion to a 32-bit id other than the unused marker exactly below that marker |
| Sockets.ReturnedIdIsValid | include/stdnet/container.hpp:53-67 | while at most 2^32 - 1 records are live at once, every id handed out is its slot's index and never `_Invalid` |
| Sockets.MakeKeepsInv | include/stdnet/basic_socket.hpp:50-54 | a socket made from a fresh id owns its slot alone |
| Sockets.MoveKeepsInv | include/stdnet/basic_socket.hpp:55-60 | a move hands ownership over |
| Sockets.DestroyKeepsInv | include/stdnet/basic_socket.hpp:61-68 | a destructor releases only what its socket owns |
| Sockets.MakeKeepsOwnershipIffIdsLast | include/stdnet/basic_socket.hpp:40-54 | every live slot still has its owner after a socket is made exactly while fewer than 2^32 - 1 are open |
| Sockets.HandleIsClosedIffIdsLast | include/stdnet/basic_socket.hpp:50-68 | a handle whose socket is made and destroyed again is closed exactly if fewer than 2^32 - 1 sockets were open; else it stays in a live slot |
| Sockets.HandleCanLeak | include/stdnet/basic_socket.hpp:40-68 | a reachable world in which it is not closed |
| Sockets.EachSlotHasOneOwner | include/stdnet/basic_socket.hpp:50-68 | in every reachable world each live slot has exactly one owner |
| Sockets.HandlesAreClosedOnce | include/stdnet/libevent_context.hpp:130-155 | handles acquired are handles closed and handles in live slots, with repetitions; when no socket holds a slot each was closed exactly once |
| Sockets.Context.MakeSocket | include/stdnet/libevent_context.hpp:130-133 | a new handle gets the id of the slot it is stored in, and nothing else changes |
| Sockets.Context.Release | include/stdnet/libevent_context.hpp:147-155 | the slot is erased and its handle closed, and nothing else changes |
| Sockets.BasicSocket.constructor | include/stdnet/basic_socket.hpp:50-54 | on the id of a slot that nobody holds, the new socket becomes its only owner and every other live slot keeps its own |
| Sockets.BasicSocket.Move | include/stdnet/basic_socket.hpp:55-60 | the objects take the step of the world that hands ownership over |
| Sockets.BasicSocket.Destroy | include/stdnet/basic_socket.hpp:61-68 | the objects take the step of the world that releases what the socket owns |
| Sockets.Open | include/stdnet/basic_stream_socket.hpp:50-63 | the objects take the step of the world that makes a socket, sound exactly while ids last; a failed call changes nothing |
| PollLoop.LastReady | include/stdnet/poll_context.hpp:136-138 | the entry chosen is the last ready one |
| PollLoop.ReadyIff | include/stdnet/poll_context.hpp:138-138 | an entry is ready exactly if an event it waits for or POLLERR is reported |
| PollLoop.QueuedAreUnfinished | include/stdnet/poll_context.hpp:162-173 | a call queues the entries of exactly those calls it makes, itself included, that are on a blocking socket or not done, in their order |
| PollLoop.UnfinishedIff | include/stdnet/poll_context.hpp:165-171 | no such call is lost, and no other is queued |
| PollLoop.SwapRemoveTakesOne | include/stdnet/poll_context.hpp:142-148 | exactly the chosen entry leaves, the last one takes its place, and no other moves |
| PollLoop.RunOneTakesOneReady | include/stdnet/poll_context.hpp:114-156 | a round that returns 1 removes exactly the last ready entry, adds what its handler queued and keeps the rest; a round that returns 0 changes nothing |
| PollLoop.RunBalances | include/stdnet/io_context.hpp:94-102 | over a whole run, initial and added entries are the handled and the remaining ones as multisets, and the rounds number initial plus added minus remaining |
| PollLoop.RunHandlesReady | include/stdnet/poll_context.hpp:114-156 | each round of a run takes the last entry of the vectors at that time that the answer to its `poll` calls ready |
| PollLoop.RunWaitsIff | include/stdnet/poll_context.hpp:114-135 | a run is still waiting exactly if entries are left and no `poll` failed |
| PollLoop.PollContext.AddOutstanding | include/stdnet/poll_context.hpp:162-173 | an operation that is not done is queued behind all that was there and all that its work queued re-entrantly, on a blocking socket alone; one that is done leaves only what its work's calls left unfinished |
| PollLoop.PollContext.FindReady | include/stdnet/poll_context.hpp:136-138 | the scan from the back finds the last ready entry |
| PollLoop.PollContext.TakeOut | include/stdnet/poll_context.hpp:142-148 | both vectors drop the same entry |
| PollLoop.PollContext.RunOne | include/stdnet/poll_context.hpp:114-156 | `run_one` in place, the vectors staying index by index what the calls added |
| PollLoop.PollContext.Run | include/stdnet/io_context.hpp:94-102 | `run` in place: the count is the number of rounds that the answers of `poll` lead to, which is initial plus added minus remaining entries |

## Left out

- Lifetime of the operation state: nothing is claimed about touching it after its signal, and the data race between storing `_Extra` and a concurrent `event_del` is taken as one of the two orders.
- A failing `event_del`, which the source answers with an assertion.
- Upstream senders, receivers, schedulers and coroutines themselves: only how they complete is modelled, and the values carried by a completion are not.
- Completions of a receive or send with an error or stopped, which end the server's coroutine by leaving it.
- Sessions.ReadOneByOne: assumes receives that bring at least one byte while there are any, because a receive that brings nothing is the end of input.
- RequestRoundTrip.ParseUndoesRender: well-formed requests have no CR inside their parts, no space in method and uri and no colon in keys, which sections 3 and 5 of RFC 9112 demand and more; the parser trims no trailing whitespace.
- The contents of the served files and the fixed table of resources: a parameter of the connection.
- `run_one` of the libevent context, whose own comment says that its count may be wrong.
- `_Poll_context` together with the completion protocol: it returns false when it queues, most of its operations are stubs, and its `run_one` drops an operation whose work would still block.
- Explicit `close` and `open` of an acceptor, which do not keep unique ownership.
- Conversion of durations to `timeval`, socket options, addresses, endpoints and buffers: field copies.
- System calls: their results are chosen by the environment.
