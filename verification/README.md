# Verified model of the Mutsuki runner kit core

A Dafny model of the parts of the runner kit in which state, parsing and interleaving carry the
behaviour, with proofs about every input, every run and every interleaving. `dafny verify
dfyconfig.toml` checks all of it.

- **Wire format** (`MsgPackFormats`, `MsgPackStructure`, `MsgPackGrammar`, `MsgPackRejections`,
  `ValueCheck`, `ValueWalk`, `ValueMeaning`, `FrameCodec`, `FrameAnswers`, `FrameStream`, on
  `WireTypes` and `BigEndian`): the bounded MessagePack recogniser against the "Formats" section of
  the MessagePack specification, written as a datatype of derivations; the checker for values about
  to be packed, and what packed bytes denote; the length-prefixed frame; the reader of
  a chunked stream. The recogniser, the value checker and the stream readers are methods with the
  source's recursion and loops, proved equal to the functions that the lemmas are about; the frame
  encoder and decoder only compute and are functions.
- **Connections** (`Handshake`, `Dispatcher`, `Bridge`, `BridgeRuns`): negotiation of limits, the
  handshake gate, and the two stdio bridges as one state machine. Code between two awaits is one
  atomic step; a run is any order of enabled steps.
- **Cancel ledger** (`CancelLedger`): the backend's running and pending-cancel sets as a function
  of the history of starts, ends, cancels, disposes and registrations.
- **Suspension** (`AsyncAdapter`, `AdapterRuns`, `Ids`): the adapter that turns awaited calls into
  child tasks, for an arbitrary coroutine given by its resume function, and its refinement of
  direct execution.
- **Resources** (`ResourceStore`, `StoreRuns`, `StoreAnswers`, `Sagas`): versions, leases, commits and sagas.

A state-changing component is a class whose methods are proved equal to a step function over its
state (`Step`, `DispatchStep`, `RunOneStep`, `CreateIn`, `LeaseIn`, `WriteIn`, `CommitIn`); the
`..Runs` modules prove what those steps keep over whole runs, and the lemmas named `..Answers` say,
in terms of inputs and history alone, what every call answers.

## What the model brought to light

- The frame reader takes one read for the four-byte length prefix. A raw stream that delivers the
  prefix in pieces is refused as truncated although its bytes are a whole frame; `ReadRequest`
  states exactly when this happens.
- The encoder does not check its flags, and the decoder refuses all but six flag words, so encoding
  and decoding are inverse exactly on legal flags (`DecodeInvertsEncode`).
- A frame of any 16-bit minor version is accepted (`AcceptedIsLayout`), but re-encodes to different
  bytes unless that version is the current one (`EncodeInvertsDecode`).
- A coroutine that raises, or whose close raises, is kept in the adapter's table, and the next poll
  resumes what the raise left behind. It leaves exactly when it is cancelled or disposed, or when
  such a poll finds that it returns or can be closed (`TaskStaysUntilTakenOut`, with a run in
  `RaisedTaskCanEnd`); one that can only raise again leaves by a cancel or dispose alone
  (`SpentTaskStays`).
- Expiry does not end a lease, and the provider has no clock. A write that comes too late is refused
  and leaves the lease outstanding, which goes on excluding other leases and commits
  (`HeldLeaseExcludes`) exactly until a write under the same token names a step in time
  (`LeaseIsHeldUntilUsed`, with a run in `ExpiredLeaseCanStillBeUsed`).
- A task that is cancelled and run again submits its children once more under the same ids, as the
  numbering of calls starts again with the coroutine (`RestartSubmitsAgain`, with a run in
  `CancelledTaskSubmitsAgain`). Within one launch, and between different tasks, ids never repeat.
- Under the standard event loop every spawned task starts before the next frame is read. Then no work
  is left over when negotiation takes the limits down, and the headroom for management requests is
  unconditional (`PromptRunsAlwaysFit`, `PromptManagementHeadroom`). The code does not enforce this
  itself: under a scheduler that starts tasks later, work that was read before the initialise and has
  not started can exceed the new capacity (`ExcessCanBeLeftOver`; `TakeOverFitsIff` says exactly
  when). It then only drains (`ExcessOnlyDrains`), and the headroom holds from the moment it fits.

## Model

| member | source | states |
|---|---|---|
| MsgPackStructure.ValueRun | src/mutsuki_runner_kit/wire/msgpack_structure.py:17-98 | Work bound: an accepted value costs at most one call per byte consumed, a rejected one at most one per remaining byte plus one, whatever item counts the headers declare; an accepted end lies after the start and inside the data |
| MsgPackStructure.ParseValue | src/mutsuki_runner_kit/wire/msgpack_structure.py:17-71 | The recursive recogniser, with its depth check, marker table and call counter, returns what `ValueRun` describes, call for call |
| MsgPackStructure.ParseContainer | src/mutsuki_runner_kit/wire/msgpack_structure.py:74-84 | The container loop checks the item limit first, then parses items (twice as many for a map) until one fails; result and calls are those of the description |
| MsgPackGrammar.MarkerAnnouncesLayout | src/mutsuki_runner_kit/wire/msgpack_structure.py:23-71 | The recogniser's marker table assigns to each format of the specification the body that format has |
| MsgPackGrammar.ParserIsGrammar | src/mutsuki_runner_kit/wire/msgpack_structure.py:17-98 | For all bytes, offsets, depths and ends: the parser returns `end` exactly when the bytes up to `end` are the encoding of one value with every node at depth 64 or less and every container of 65,536 entries or fewer |
| MsgPackGrammar.PreflightIsGrammar | src/mutsuki_runner_kit/wire/msgpack_structure.py:9-14 | A payload passes exactly when the whole of it is one bounded value |
| MsgPackGrammar.ParsesTree | src/mutsuki_runner_kit/wire/msgpack_structure.py:17-84 | On the encoding of any tree, limits kept or not, the parser either ends at the end of the tree after one call per node, or reports the first limit a left-to-right walk runs into |
| MsgPackGrammar.ResultIgnoresSuffix | src/mutsuki_runner_kit/wire/msgpack_structure.py:17-98 | An accepting run, calls included, is the same on any other data that agrees up to its end |
| MsgPackGrammar.AcceptedValuesArePrefixFree | src/mutsuki_runner_kit/wire/msgpack_structure.py:9-14 | No accepted payload is a proper prefix of another |
| MsgPackGrammar.DerivationIsUnique | src/mutsuki_runner_kit/wire/msgpack_structure.py:17-98 | A byte string encodes at most one tree of formats |
| MsgPackGrammar.CallsAreNodes | src/mutsuki_runner_kit/wire/msgpack_structure.py:17-84 | An accepted payload costs exactly one call per node |
| MsgPackRejections.RejectionIsFault | src/mutsuki_runner_kit/wire/msgpack_structure.py:17-98 | The recogniser rejects with a fault exactly when a walk down from where it starts, past whole values within the limits, leads to a place that has that fault: too deep, too many members, truncated or reserved |
| MsgPackRejections.PreflightAnswers | src/mutsuki_runner_kit/wire/msgpack_structure.py:9-14 | The preflight reports trailing bytes exactly behind a whole bounded value, and otherwise the fault of the recogniser |
| ValueCheck.ValidateValue | src/mutsuki_runner_kit/wire/binary.py:237-265 | The recursive value checker with its loops over a mapping's values and a list's elements fails at the first fault of a depth-first walk, as `CheckValue` describes |
| ValueWalk.CheckIsFirstFault | src/mutsuki_runner_kit/wire/binary.py:237-265 | The checker answers with the first fault in the list of the value's nodes, parents before children and left to right, and passes a value exactly when no node has one |
| ValueCheck.CheckersAgreeAnywhere | src/mutsuki_runner_kit/wire/binary.py:237-265 | At any offset and depth the byte recogniser's verdict on a packed value, failure code included, is the value checker's, provided no bytes leaf is over the inline limit; map keys, which only the recogniser visits, never change it |
| ValueCheck.CheckersAgree | src/mutsuki_runner_kit/wire/binary.py:237-265 | The value checker accepts exactly the values whose bytes leaves are within the inline limit and whose encoding the preflight accepts |
| ValueCheck.EncodingDeterminesValue | src/mutsuki_runner_kit/wire/binary.py:52 | Values with equal packed bytes are equal |
| ValueCheck.IntIsPackedShortest | src/mutsuki_runner_kit/wire/binary.py:52 | A packed integer denotes that integer (two's complement where signed), and no format denotes it in fewer bytes |
| ValueCheck.LengthsArePackedShortest | src/mutsuki_runner_kit/wire/binary.py:52 | Text, bytes, lists and mappings are packed in the shortest format of their family |
| ValueMeaning.PackMeans | src/mutsuki_runner_kit/wire/binary.py:52 | What a value is packed as denotes that value, read by the specification: keys before their values, true and false, text, bytes, integers, at any nesting |
| ValueMeaning.PackedBytesMean | src/mutsuki_runner_kit/wire/binary.py:52 | Packed bytes denote the value that was packed and no other |
| ValueMeaning.FormatBytes | src/mutsuki_runner_kit/wire/binary.py:52 | The marker byte with which the specification starts a value of each kind and size |
| ValueMeaning.SmallMappingBytes | src/mutsuki_runner_kit/wire/binary.py:52 | The mapping from "a" to 1 is 81 A1 61 01 |
| ValueMeaning.SpecifiedRoundTrip | src/mutsuki_runner_kit/wire/binary.py:45-74 | With any unpacker that keeps to the specification within the limits, every request that encodes is decoded to itself |
| BigEndian.FirstByteWeighsMost | src/mutsuki_runner_kit/wire/msgpack_structure.py:87-91 | Numbers are read with their most significant byte first |
| FrameCodec.DecodeInvertsEncode | src/mutsuki_runner_kit/wire/binary.py:117-192 | A frame encodes exactly when id, flags, payload and body fit their limits and fields; decoding the result returns the same id, opcode, flags and payload, or the flags refusal when the flags were not legal |
| FrameCodec.AcceptedIsLayout | src/mutsuki_runner_kit/wire/binary.py:146-192 | Bytes decode to a frame exactly when they are its prefix, 24-byte big-endian header and payload under some 16-bit minor version, and the frame has legal flags and is within the limits |
| FrameCodec.EncodeInvertsDecode | src/mutsuki_runner_kit/wire/binary.py:117-192 | An accepted frame re-encodes to the same bytes exactly when it carries the current minor version; otherwise only the two bytes of that field differ |
| FrameCodec.FlagChecksAreLegalFlags | src/mutsuki_runner_kit/wire/binary.py:165-172 | The three flag checks admit exactly six flag words |
| FrameCodec.RequestRoundTrip | src/mutsuki_runner_kit/wire/binary.py:45-74 | A request that encodes, with mappings keyed by text and no extension values, is decoded to the same id, opcode and payload exactly when the library unpacks what it packed: no check of the receiver's own refuses what the sender let through; the management flag is set exactly on management opcodes |
| FrameAnswers.DecodeAnswers | src/mutsuki_runner_kit/wire/binary.py:146-192 | The decoder's answer to every header: the frame it carries if all eight tests pass, else the fault of the first that fails |
| FrameAnswers.EveryFrameIsRaw | src/mutsuki_runner_kit/wire/binary.py:159-161 | Every byte string of at least 28 bytes is such a header with its payload |
| FrameAnswers.ShortFrameAnswers | src/mutsuki_runner_kit/wire/binary.py:149-158 | Anything shorter is refused for its length |
| FrameAnswers.EncodeAnswers | src/mutsuki_runner_kit/wire/binary.py:117-143 | The encoder's answer to every frame: its exact refusals in their order, else prefix, header and payload with their numbers written out |
| FrameAnswers.EncodeRequestAnswers | src/mutsuki_runner_kit/wire/binary.py:45-54 | The request encoder's answer to every request: the first fault of its value, an unpackable value, what the frame encoder says, or the frame; and exactly when it succeeds |
| FrameAnswers.AcceptedIsCarried | src/mutsuki_runner_kit/wire/binary.py:64-74 | A request is accepted exactly when the bytes are a request frame, its payload is one bounded value, and that unpacks to a mapping within the inline limit; id, opcode and mapping are then the request's |
| FrameAnswers.RefusalIsFirstMissing | src/mutsuki_runner_kit/wire/binary.py:64-74 | Otherwise the fault names the first of these that is missing |
| FrameAnswers.GoldenDispose | src/mutsuki_runner_kit/wire/runtime-wire-binary-golden-v1.json:31-33 | The dispose request of the golden vectors encodes to exactly their bytes |
| FrameStream.ReadExact | src/mutsuki_runner_kit/wire/binary.py:224-234 | For every non-empty chunking the next `length` bytes come back in one piece and nothing more is consumed; a stream that ends first is a truncated frame |
| FrameStream.ReadRequest | src/mutsuki_runner_kit/wire/binary.py:91-105 | When the prefix arrives in one piece the outcome and what stays unread depend on the unread bytes alone, never on the chunking of the body; a prefix cut short is refused as truncated |
| FrameStream.NextOfFrame | src/mutsuki_runner_kit/wire/binary.py:91-105 | A read of a whole frame answers what the codec says of it and consumes exactly the frame; a length out of range is refused with the body unread |
| FrameStream.NextOfCut | src/mutsuki_runner_kit/wire/binary.py:95-105 | A stream that ends inside a frame whose length is in range is truncated, wherever it ends |
| FrameStream.ReadRequests | src/mutsuki_runner_kit/transport/stdio_binary.py:58-68 | Repeated reads of one chunked stream, each under the limits then in force, yield in order the requests and the end that the bytes determine, for every chunking that keeps prefixes whole; a prefix cut short yields a first part of them and a truncation failure |
| FrameStream.StreamRoundTrip | src/mutsuki_runner_kit/wire/binary.py:91-105 | The bytes of frames written back to back, each within the limits it is read under, determine those requests in order and then the end of the stream; with `ReadRequests` the repeated reads return exactly them |
| FrameStream.TruncatedTailYieldsNothing | src/mutsuki_runner_kit/wire/binary.py:91-105 | A last frame cut at any byte yields no request: the whole frames, then a failure |
| Handshake.InitializeSucceedsIff | src/mutsuki_runner_kit/wire/handshake.py:23-61 | With valid local limits an initialise succeeds exactly when version, codec, schema, offer and feature checks pass and the met payload limit lies between the inline limit and the met frame limit |
| Handshake.ValidIsChain | src/mutsuki_runner_kit/wire/protocol.py:24-36 | Limits are valid exactly when inline, payload and frame sizes are a chain from 1, a line may have a byte, and both kinds of request have a slot |
| Handshake.NegotiateAnswers | src/mutsuki_runner_kit/wire/handshake.py:23-61 | The answer to every offer: the fault of the first test it fails, or an acknowledgement in this side's name with the met limits and the offered features |
| Handshake.EndpointsAgree | src/mutsuki_runner_kit/wire/handshake.py:23-100 | Two endpoints of one codec both go along exactly when their inline limits are at most the smaller payload limit, and then work under the same four limits, the smaller of the two each |
| Handshake.InitializeIsSoundMeet | src/mutsuki_runner_kit/wire/handshake.py:23-100 | A successful initialise yields valid limits, each the meet of the two offers, with a slot for work and one for management; the acknowledgement passes the peer's own check, and offering it back changes nothing |
| Handshake.AcceptedAckNeverWidens | src/mutsuki_runner_kit/wire/handshake.py:74-100 | An acknowledgement a peer accepts for its own hello is itself a compatible offer within that peer's limits, with room for work and management |
| Handshake.ValidateForAnswers | src/mutsuki_runner_kit/wire/handshake.py:74-100 | The peer accepts exactly the acknowledgements of its protocol, codec and schema that widen no limit, leave both kinds of request a slot and keep all its features; else it names the first fault |
| Dispatcher.RunnerRequestDispatcher.Dispatch | src/mutsuki_runner_kit/transport/dispatcher.py:55-108 | The dispatcher answers and changes its limits and its negotiated mark as `DispatchStep` describes |
| Dispatcher.HandshakeGate | src/mutsuki_runner_kit/transport/dispatcher.py:55-108 | In every sequence of requests at most one initialise succeeds, nothing reaches the backend or the resource handler before it, and from then on the limits stay as it set them |
| Dispatcher.FirstAcceptableSucceeds | src/mutsuki_runner_kit/transport/dispatcher.py:55-108 | In every sequence of requests exactly the first acceptable initialise is acknowledged, judged by the opening limits however many were refused before it; exactly the other requests after it reach the backend or, if there is one, the resource handler |
| Dispatcher.AcknowledgementIsInForce | src/mutsuki_runner_kit/transport/dispatcher.py:56-71 | In every sequence of requests: the limits in force after the acknowledged request are the acknowledgement's own, each the smaller of the offer's and the opening one, the others stay, and the peer accepts it |
| Dispatcher.RefusalsAreExact | src/mutsuki_runner_kit/transport/dispatcher.py:56-93 | Not initialised exactly for another request before success, already initialised exactly for an initialise after it, no handler exactly for a resource request after it without one, and a refused initialise is told its own fault |
| Bridge.StdioBridge.Reserve | src/mutsuki_runner_kit/transport/stdio_binary.py:100-120 | Admission: the refusals in their order, and the id and counter it takes |
| Bridge.StdioBridge.Release | src/mutsuki_runner_kit/transport/stdio_jsonl.py:208-211 | Gives back exactly what the reservation of that request took |
| Bridge.StdioBridge.OnFrame | src/mutsuki_runner_kit/transport/stdio_binary.py:67-87 | The serve loop's handling of one decoded frame, a whole initialise with the take-over of its limits included, is the `ReadFrame` step and keeps the bookkeeping exact |
| Bridge.StdioBridge.InitializeNow | src/mutsuki_runner_kit/transport/stdio_binary.py:81-84 | An initialise is dispatched, answered and released, and then its limits are taken over, unless no response could be encoded and the loop ends |
| Bridge.StdioBridge.BeginTask | src/mutsuki_runner_kit/transport/stdio_binary.py:122-150 | A task up to its first suspension is the `StartDispatch` step: it calls the backend or handler, or is refused, answered and released at once |
| Bridge.StdioBridge.EndTask | src/mutsuki_runner_kit/transport/stdio_binary.py:131-150 | The rest of a task that awaited the backend or handler, response and release, is the `Finish` step |
| Bridge.StdioBridge.CancelTask | src/mutsuki_runner_kit/transport/stdio_binary.py:88-98 | A cancellation at shutdown is the `CancelAtShutdown` step |
| BridgeRuns.BookkeepingIsExact | src/mutsuki_runner_kit/transport/stdio_binary.py:55-150 | In every interleaving: active ids are exactly the ids in flight, no two requests share one, the counter is exactly the number of non-management requests in flight, and decoded frames = responses + in flight + died |
| BridgeRuns.FramesAreConserved | src/mutsuki_runner_kit/transport/stdio_binary.py:69-150 | In every run, frames decoded = events that answered one + events that ended one without an answer (error response does not encode, or cancelled at shutdown) + frames in flight |
| BridgeRuns.FrameEndsOnce | src/mutsuki_runner_kit/transport/stdio_binary.py:67-150 | No frame ends twice and no serial number is reused; a frame that was read is in flight exactly until the one event that ends it |
| BridgeRuns.InFlightIsAsRead | src/mutsuki_runner_kit/transport/stdio_binary.py:85-87 | What is in flight is what one frame brought: its id and its request, unchanged until it ends |
| BridgeRuns.DrainLeavesNothing | src/mutsuki_runner_kit/transport/stdio_jsonl.py:131-141 | After the drain no id and no slot is held, and every decoded frame was answered or died |
| BridgeRuns.DrainEnds | src/mutsuki_runner_kit/transport/stdio_binary.py:88-98 | Once input is closed the bridge can always go on until it has stopped, and it stops after at most two steps for each request in flight and one more |
| BridgeRuns.AdmissionIsExact | src/mutsuki_runner_kit/transport/stdio_jsonl.py:143-163 | A frame is admitted exactly when its id is not in flight, there is room under the maximum and, unless it initialises, cancels or disposes, under the work capacity counted over the requests really in flight; it is a duplicate exactly when its id is in flight, and exhausted otherwise |
| BridgeRuns.CapacityHolds | src/mutsuki_runner_kit/transport/stdio_binary.py:100-120 | Requests in flight never exceed the maximum the bridge was built with, and until the limits change the work among them fits beside the reserve |
| BridgeRuns.SettledIsFinal | src/mutsuki_runner_kit/transport/stdio_binary.py:81-84 | Once negotiated limits are taken over they never change, and once the work in flight fits them it fits for ever |
| BridgeRuns.PhaseIsHistory | src/mutsuki_runner_kit/transport/stdio_binary.py:58-98 | The bridge reads exactly until input closes or a response of the serve loop itself does not encode, and is stopped exactly from the end of the drain on; a task whose response does not encode stops nothing |
| BridgeRuns.LimitsAreHistory | src/mutsuki_runner_kit/transport/stdio_binary.py:81-84 | The limits are the opening ones until an initialise succeeds and its acknowledgement is written, and from then on those of that acknowledgement |
| BridgeRuns.TakeOverFitsIff | src/mutsuki_runner_kit/transport/stdio_binary.py:81-83 | When limits are taken over everything in flight still waits for its task to start, and the work in flight fits the new limits exactly when it is at most the met maximum less the met reserve |
| BridgeRuns.ExcessCanBeLeftOver | src/mutsuki_runner_kit/transport/stdio_binary.py:81-87 | A run, for every codec, in which two requests read but not started exceed the one work slot that negotiation leaves; only a scheduler that lets the serve loop read on before it starts spawned tasks has such a run |
| BridgeRuns.ExcessOnlyDrains | src/mutsuki_runner_kit/transport/stdio_binary.py:110-116 | While work in flight exceeds the new capacity no step adds any |
| BridgeRuns.PromptRunsAlwaysFit | src/mutsuki_runner_kit/transport/stdio_binary.py:58-87 | When every spawned task starts before the next frame is read, limits are taken over with nothing in flight, and the work in flight fits at every moment |
| BridgeRuns.ManagementHeadroom | src/mutsuki_runner_kit/transport/stdio_binary.py:105-116 | While the work fits, a management request with a new id is refused only if at least `reserved` management requests are already in flight |
| BridgeRuns.PromptManagementHeadroom | src/mutsuki_runner_kit/transport/stdio_binary.py:100-120 | With prompt starts that headroom holds unconditionally, from the first frame to the last and across the change of limits |
| BridgeRuns.ConnectionGate | src/mutsuki_runner_kit/transport/stdio_binary.py:55-98 | The handshake gate holds for every interleaving of a bridge's tasks |
| CancelLedger.PythonRunnerBackend.RegisterRunner | src/mutsuki_runner_kit/runners/backend.py:25-26 | Adds or replaces one runner and touches neither set |
| CancelLedger.PythonRunnerBackend.BeginRun | src/mutsuki_runner_kit/runners/backend.py:31-68 | Claim check, running check, consumption of a pending cancel, runner look-up and start, in that order, as the `Begin` step |
| CancelLedger.PythonRunnerBackend.EndRun | src/mutsuki_runner_kit/runners/backend.py:69-70 | The end of a run is the `End` step |
| CancelLedger.PythonRunnerBackend.CancelRunner | src/mutsuki_runner_kit/runners/backend.py:72-89 | A cancel is banked only for an idle invocation and within the limit, as the `Cancel` step |
| CancelLedger.PythonRunnerBackend.DisposeRunner | src/mutsuki_runner_kit/runners/backend.py:92-98 | Disposing a runner drops exactly its pending cancels, as the `Dispose` step |
| CancelLedger.AlwaysConsistent | src/mutsuki_runner_kit/runners/backend.py:31-99 | Over every run: running and pending are disjoint, pending never exceeds the limit, and every pending runner is registered |
| CancelLedger.LedgerIsHistory | src/mutsuki_runner_kit/runners/backend.py:31-99 | Over every run: an invocation is active exactly when some accepted start of it has not ended, and pending exactly when a cancel was accepted while it was idle and neither a start nor a dispose came since |
| CancelLedger.CancelFlagIsHistory | src/mutsuki_runner_kit/runners/backend.py:61-64 | The flag handed to a runner is the context's own or that of such a banked cancel |
| CancelLedger.StartAnswers | src/mutsuki_runner_kit/runners/backend.py:37-66 | A start is accepted exactly for the leases it claims, on a runner registered earlier, while the invocation is not running; it conflicts exactly when the leases differ or the invocation runs, and misses its runner exactly otherwise |
| CancelLedger.CancelAnswers | src/mutsuki_runner_kit/runners/backend.py:72-89 | A cancel misses its runner exactly when that was never registered; else it is done exactly when the invocation runs, is banked already or has fewer than the limit banked before it, and exhausted otherwise |
| CancelLedger.OtherAnswers | src/mutsuki_runner_kit/runners/backend.py:92-112 | A dispose is done exactly on a registered runner |
| CancelLedger.RefusedStartChangesNothing | src/mutsuki_runner_kit/runners/backend.py:62-66 | Discarding the pending cancel before the runner look-up loses none: a refused start leaves the whole ledger as it was |
| Ids.ChildIdsNeverCollide | src/mutsuki_runner_kit/runners/async_adapter.py:142-143 | Parent id and call number are determined by the child id, for all parent strings, child ids included |
| Ids.CounterIdsNeverCollide | src/mutsuki_runner_kit/testing/fake_resource_provider.py:382-384 | Prefix and counter are determined by a provider id |
| Ids.CounterIdReads | src/mutsuki_runner_kit/testing/fake_resource_provider.py:382-384 | A provider id is its prefix, a dash and the counter in decimal, filled with zeros to eight digits and no further |
| Ids.ChildIdReads | src/mutsuki_runner_kit/runners/async_adapter.py:142-143 | A child id is the parent's, `:call:` and the call's number in decimal |
| AsyncAdapter.AsyncRunnerContext.BuildCall | src/mutsuki_runner_kit/runners/async_adapter.py:125-169 | A self call is refused without using a number when not allowed; otherwise the next number yields the child task and its await, with the parent's trace and correlation |
| AsyncAdapter.AsyncRunnerContext.BuiltIdsAreDistinct | src/mutsuki_runner_kit/runners/async_adapter.py:142-151 | No two calls built by one context share a child id |
| AsyncAdapter.TaskAwaitRunnerAdapter.RunOne | src/mutsuki_runner_kit/runners/async_adapter.py:213-265 | One poll: find or start the coroutine, track the invocation, wait while the child has no outcome, otherwise resume it and settle what it yields, returns or raises, as `RunOneStep` describes |
| AsyncAdapter.TaskAwaitRunnerAdapter.Cancel | src/mutsuki_runner_kit/runners/async_adapter.py:270-273 | Cancelling an invocation removes its task with every id pointing to it |
| AsyncAdapter.TaskAwaitRunnerAdapter.Dispose | src/mutsuki_runner_kit/runners/async_adapter.py:275-277 | Empties both tables |
| AdapterRuns.TablesStayLinked | src/mutsuki_runner_kit/runners/async_adapter.py:213-291 | After any sequence of runs, cancels and disposes, raises and foreign yields included, every tracked invocation id points to a live coroutine |
| AdapterRuns.StepsAreIsolated | src/mutsuki_runner_kit/runners/async_adapter.py:213-291 | No step about one task adds, removes or disturbs another task's stored coroutine |
| AdapterRuns.OwnerWasTracked | src/mutsuki_runner_kit/runners/async_adapter.py:279-291 | An invocation id points to the task last run under it |
| AdapterRuns.LaunchAnswers | src/mutsuki_runner_kit/runners/async_adapter.py:213-265 | A run that starts a coroutine answers for its first resumption; one that cannot start it fails with the reason and changes nothing |
| AdapterRuns.PollAnswers | src/mutsuki_runner_kit/runners/async_adapter.py:231-265 | A poll that is not early resumes with what was learnt about the child and answers for what comes of it: waiting with the call and its child, completed with the result, or failed with the reason |
| AdapterRuns.AnswersTellEndings | src/mutsuki_runner_kit/runners/async_adapter.py:238-265 | A run completes with a result exactly when the coroutine returned that result, and waits exactly when it awaits a call |
| AdapterRuns.RunIsCancellable | src/mutsuki_runner_kit/runners/async_adapter.py:229-265 | A run that leaves its coroutine in progress leaves it cancellable under its own invocation id |
| AdapterRuns.CancelRemovesLastTracked | src/mutsuki_runner_kit/runners/async_adapter.py:270-291 | A cancel removes exactly the task last run under that id and the ids pointing to it, and does nothing for an unknown id |
| AdapterRuns.EarlyPollsChangeNothing | src/mutsuki_runner_kit/runners/async_adapter.py:232-235 | Any number of early polls, mixed with anything done to other tasks, leaves the coroutine and its await as they were, submits no child and resumes nothing |
| AdapterRuns.PollLeaves | src/mutsuki_runner_kit/runners/async_adapter.py:231-265 | A poll leaves its task in the table exactly when it is early or the coroutine yields a call, raises, or raises while it is closed |
| AdapterRuns.RaiseKeepsCall | src/mutsuki_runner_kit/runners/async_adapter.py:237-255 | A coroutine that raises, or raises while it is closed, is kept as the raise left it, with the same awaited call, and the run fails with that error |
| AdapterRuns.TaskStaysUntilTakenOut | src/mutsuki_runner_kit/runners/async_adapter.py:213-291 | In every run a task stays in the table exactly until a cancel or dispose that concerns it, or a poll, not an early one, at which its coroutine returns or is closed after a foreign yield |
| AdapterRuns.SpentTaskStays | src/mutsuki_runner_kit/runners/async_adapter.py:213-265 | A coroutine that can only raise again, as a native one that has raised, stays through any number of polls until a cancel or dispose |
| AdapterRuns.RaisedTaskCanEnd | src/mutsuki_runner_kit/runners/async_adapter.py:238-240 | A run in which a task raises, returns at the next poll, and is gone without a cancel or dispose |
| AdapterRuns.WaitingFollowsDirect | src/mutsuki_runner_kit/runners/async_adapter.py:213-265 | While a task waits, its stored coroutine is where direct execution on the same outcomes would be after as many awaits, and each await has submitted its child exactly once, in order |
| AdapterRuns.SuspensionPreservesMeaning | src/mutsuki_runner_kit/runners/async_adapter.py:213-265 | The poll that resumes a task answers for what direct execution does next: waiting for the same call, completed with the same result, or failed for the same reason |
| AdapterRuns.RunEndsWhenDirectEnds | src/mutsuki_runner_kit/runners/async_adapter.py:238-251 | If direct execution ends after k awaits, the task is resumed after at most k outcomes and its run ends with the result or error of that ending |
| AdapterRuns.SubmittedChildrenDiffer | src/mutsuki_runner_kit/runners/async_adapter.py:142-143 | The children that one launch of a task submits carry, in order, the numbers of the awaited calls, and are all different when no call is awaited twice |
| AdapterRuns.ChildrenOfTasksDiffer | src/mutsuki_runner_kit/runners/async_adapter.py:142-151 | Different tasks never submit the same child id |
| AdapterRuns.RestartSubmitsAgain | src/mutsuki_runner_kit/runners/async_adapter.py:213-228 | A task started afresh begins its numbering again: of two launches from the same state one submits a first part of the children of the other |
| AdapterRuns.CancelledTaskSubmitsAgain | src/mutsuki_runner_kit/runners/async_adapter.py:213-273 | A run in which a task runs, is cancelled and runs again, and submits the same child twice |
| ResourceStore.FakeResourceProvider.Id | src/mutsuki_runner_kit/testing/fake_resource_provider.py:382-384 | Every id uses up one counter value |
| ResourceStore.FakeResourceProvider.ReadResource | src/mutsuki_runner_kit/testing/fake_resource_provider.py:124-135 | Missing resource, stale generation, file-backed and in-memory reads, as `ReadIn` describes |
| ResourceStore.FakeResourceProvider.Create | src/mutsuki_runner_kit/testing/fake_resource_provider.py:77-257 | All create operations: snapshots and copies read their source first; a new entry at version and generation 1 |
| ResourceStore.FakeResourceProvider.AcquireWriteLease | src/mutsuki_runner_kit/testing/fake_resource_provider.py:321-342 | One exclusive lease of the current generation, refused while another is outstanding |
| ResourceStore.FakeResourceProvider.WriteWithLease | src/mutsuki_runner_kit/testing/fake_resource_provider.py:344-380 | The refusals in their order; a write needs exactly the outstanding lease, replaces the bytes, moves both numbers on and ends the lease |
| ResourceStore.FakeResourceProvider.CommitWritePlan | src/mutsuki_runner_kit/resources/plans.py:241-259 | Checks, read, lease and write in sequence, as `CommitIn` describes |
| StoreRuns.VersionsCountWrites | src/mutsuki_runner_kit/testing/fake_resource_provider.py:344-380 | In every run version and generation, in a reference and its resource id, move on by exactly the number of successful writes, and nothing else of the reference changes |
| StoreRuns.StaysKept | src/mutsuki_runner_kit/testing/fake_resource_provider.py:321-388 | In every run version and generation agree in the reference and its resource id, a file holds the entry's bytes, and an outstanding lease is for that resource and generation |
| StoreRuns.ReadOfIssuedRef | src/mutsuki_runner_kit/testing/fake_resource_provider.py:124-135 | An issued reference reads exactly while it is the current one, that is until the next write, and then returns the bytes last written, file-backed or not |
| StoreRuns.NoLostUpdate | src/mutsuki_runner_kit/resources/plans.py:166-259 | A commit of a plan built from an issued reference succeeds only if nobody wrote the resource since, and bumps that very reference |
| StoreRuns.AtMostOneCommit | src/mutsuki_runner_kit/resources/plans.py:166-259 | Of all plans built from one issued reference at most one commits |
| StoreRuns.CommitIsAllOrNothing | src/mutsuki_runner_kit/resources/plans.py:241-259 | A commit succeeds exactly on an unleased copy-on-write resource of the planned generation; then only that entry and its backing file change, no lease is left and the new reference reads the new bytes; otherwise the whole provider is unchanged |
| StoreRuns.LeasesAreConserved | src/mutsuki_runner_kit/testing/fake_resource_provider.py:321-380 | Leases ever granted on a resource = (generation - 1) + (1 if one is outstanding, expired or not) |
| StoreRuns.WritesAreLeased | src/mutsuki_runner_kit/testing/fake_resource_provider.py:344-354 | Every successful write is in time and under a token this provider granted on the generation it replaces, with no write in between |
| StoreRuns.TokenWritesOnce | src/mutsuki_runner_kit/testing/fake_resource_provider.py:350-354 | A token supports at most one successful write |
| StoreRuns.LeaseIsHeldUntilUsed | src/mutsuki_runner_kit/testing/fake_resource_provider.py:321-380 | In every run a lease is still outstanding exactly if no write under its token came at a step its expiry allows; a late write ends nothing |
| StoreRuns.HeldLeaseExcludes | src/mutsuki_runner_kit/testing/fake_resource_provider.py:330-354 | While it is outstanding every other acquisition on its resource is refused as exhausted, every commit fails, and the entry stays as it is |
| StoreRuns.ExpiredLeaseCanStillBeUsed | src/mutsuki_runner_kit/testing/fake_resource_provider.py:344-354 | A run in which a write comes too late and is refused, a commit fails, the same token writes at an earlier step, and then a commit succeeds |
| StoreAnswers.CreateAnswers | src/mutsuki_runner_kit/testing/fake_resource_provider.py:77-257 | A create fails exactly as the read of its source does, and then changes nothing; else it issues an unknown id at version 1 with the semantic, kind and schema of that operation, the new reference reads the bytes given, it can be committed to exactly as copy-on-write state, and nothing else changes |
| StoreAnswers.ReadAnswers | src/mutsuki_runner_kit/testing/fake_resource_provider.py:124-135 | A read finds nothing exactly for an unknown id, a mismatch exactly for another generation, and else the current bytes |
| StoreAnswers.LeaseAnswers | src/mutsuki_runner_kit/testing/fake_resource_provider.py:321-342 | A lease is granted exactly on a known resource without one; it has the asker, expiry and generation asked for and a new id, and nothing but it changes |
| StoreAnswers.TokensAreNew | src/mutsuki_runner_kit/testing/fake_resource_provider.py:333-340 | No token id is granted twice in a run |
| StoreAnswers.WriteAnswers | src/mutsuki_runner_kit/testing/fake_resource_provider.py:344-380 | A write succeeds exactly in time and with the outstanding lease, else it names the first reason and changes nothing; the new reference reads the bytes written and the old one no longer reads |
| StoreAnswers.CommitAnswers | src/mutsuki_runner_kit/resources/plans.py:241-250 | Each refusal of a commit with its exact condition, in the order of the checks |
| StoreAnswers.BuiltPlanAnswers | src/mutsuki_runner_kit/resources/plans.py:166-259 | A plan built from a reference commits exactly while that is of the current generation, for copy-on-write state without a lease |
| StoreAnswers.FreshPlanCommits | src/mutsuki_runner_kit/resources/plans.py:166-259 | In every run a plan for the current reference of copy-on-write state commits exactly when no lease is out |
| Sagas.ExecuteCommandPlan | src/mutsuki_runner_kit/resources/plans.py:136-163 | One gateway read; a refusal or other exception passes through; otherwise a receipt of plan id, resource, arguments and key exactly for a query on a capability resource, and else the first reason against it |
| Sagas.ExecuteSagaPlan | src/mutsuki_runner_kit/resources/plans.py:218-238 | For every gateway: all steps succeed with one receipt each in order and no compensation; or step k is the first to fail and the calls are those of steps 0 to k followed by every compensation in reverse, with k, the number of compensations and the exact failure count reported; or another exception escapes at once |
| Sagas.FirstFailureCompensates | src/mutsuki_runner_kit/resources/plans.py:223-237 | A saga whose step k is the first to be refused compensates, unless a compensation raises another kind of exception |
| Sagas.OutcomeIsDetermined | src/mutsuki_runner_kit/resources/plans.py:218-238 | For given gateway behaviour that description fixes the calls and the result: no two different outcomes satisfy it |
| Sagas.ReceiptsAnswer | src/mutsuki_runner_kit/resources/plans.py:218-238 | A saga that returns receipts has passed every step by the gateway's answer to its own call, and has one receipt for each in order |
| Sagas.FailureAnswers | src/mutsuki_runner_kit/resources/plans.py:223-237 | A failed saga failed at the first step that does not pass; call by call it went through the steps up to it and then all compensations, last first, and it reports the step, their number, how many did not pass, and the cause |
| Sagas.BreakAnswers | src/mutsuki_runner_kit/resources/plans.py:218-238 | Another kind of exception ends a saga at once and is the gateway's answer to its last call |
| Sagas.StopAnswers | src/mutsuki_runner_kit/resources/plans.py:218-238 | A saga that does not return receipts has come to a first step that does not pass |

## Left out

- The msgpack library: packing is modelled as the specification's shortest formats, unpacking is a
  parameter. `RequestRoundTrip` shows that a request comes back exactly if the unpacker returns the
  value that was packed, and `SpecifiedRoundTrip` that any unpacker which keeps to the specification
  does; the stream theorems assume it. The library's own limits on text, bytes and extension values
  are part of that parameter.
- Floats are eight opaque bytes, text is its UTF-8 bytes; values that the library cannot pack
  (integers beyond 64 bits, lengths beyond 32 bits) are a failed packing.
- Values outside that domain: nested mappings with keys that are not text, and extension values. The
  value checker and the packer let both through; the receiver's unpacker refuses keys other than text
  and bytes, and extension values that are not empty (`strict_map_key`, `max_ext_len=0`,
  wire/binary.py:198-207). The byte recogniser is modelled on all
  bytes, extension formats and any keys included.
- Request contents beyond opcode, id, payload and the hello (`decode_request` and the request
  dataclasses), and response frames' contents: field-by-field mirrors.
- JSONL text: its decoding is abstract. A line that is refused before it becomes a frame is the
  step `SkipLine`, whether or not an error is written for it, and is not counted as decoded.
- asyncio itself: the event loop, threads and wall-clock time. The writer lock and the negotiation
  lock never make a task wait, as nothing suspends while it holds one; so a refused request and an
  initialise run from dispatch to release in one step. Tasks start in any order, except where a
  theorem assumes prompt starts, which the first-in-first-out ready queue of the standard event loop
  provides. A call into the backend may suspend even where it would return at once. The shutdown
  timeout is a free choice, spawned tasks start before they can be cancelled, cancelled tasks
  finish. When a response of the serve loop itself cannot be encoded the loop fails; what is left of
  its tasks then ends as in a drain.
- `StdioJsonlBridge.handle_request` (transport/stdio_jsonl.py:57-82), the direct path without a
  stream: it reserves nothing, and an initialise sent through it changes the bridge's limits. The
  runs here are those of `serve` alone.
- What a runner or resource handler does once it is called, and the call of `runner.cancel` and
  `runner.dispose` after the ledger has changed.
- The plugin manifest that an acknowledgement may carry.
- Coroutines that call back into the adapter: a coroutine is its state and its resume function.
  The adapter's record of an invocation is a value in the table, as only the table refers to it.
- The continuation reference and other constant fields of an await, and payloads as structured
  values (they are opaque).
- Real files: a provider's directory is a map that it alone writes, and I/O never fails. Separate
  providers sharing a directory are not modelled.
- The JSON encoding of a fact: its bytes are given. Content hash, size hint, lifetime, seal state and the access fields other than the file path.
- Value packing, apart from the counter it uses up; streams, read and export plans, command
  batches: plumbing without an invariant.
- Saga and command receipts keep plan, resource, arguments and idempotency key; error evidence and
  diagnostics text are left out throughout.
- The scalar batch loop, the contract dataclasses and the benchmarks.
