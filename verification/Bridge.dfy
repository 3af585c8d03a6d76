/** The stdio bridges: admission of frames, concurrent dispatch, responses, release. Both bridges
    keep the same fields and admit by the same rules; code between two awaits is one step. */
module Bridge {
  import opened WireTypes
  import opened Handshake
  import opened Dispatcher
  import FrameCodec

  // A request in flight: admitted, not yet answered or dead.
  datatype Entry = Entry(requestId: int, request: WireRequest, started: bool) {
    predicate IsWork() {
      !IsManagementRequest(request)
    }
  }

  datatype Phase = Reading | Draining | Stopped

  datatype State = State(
    limits: WireLimits,
    dispatcher: DispatcherState,
    activeIds: set<int>,
    activeNonManagement: int,
    inFlight: map<nat, Entry>,  // by the serial number of the decoded frame
    phase: Phase,
    decoded: nat,
    responses: nat,
    died: nat)

  // `encodes`: the response of the step, if it makes one, can be encoded. An error response that
  // cannot be encoded is not written.
  datatype Event =
    | ReadFrame(requestId: int, request: WireRequest, encodes: bool)
    | StartDispatch(serial: nat, encodes: bool)
    | Finish(serial: nat, encodes: bool)
    | CancelAtShutdown(serial: nat)
    | SkipLine                            // JSONL only: a blank or malformed line
    | CloseInput                          // end of input, or input no reader can resume after
    | DrainDone

  function Opened(setup: Setup): State {
    State(setup.limits, Opening(setup), {}, 0, map[], Reading, 0, 0, 0)
  }

  // The refusal of a frame, if any.
  function ReserveFault(s: State, requestId: int, request: WireRequest): Option<Failure> {
    if requestId in s.activeIds then Some(RequestIdDuplicate)
    else if |s.activeIds| >= s.limits.maxInFlight then Some(PendingExhausted)
    else if || FrameCodec.IsManagement(OpcodeOf(request))
            || s.activeNonManagement < s.limits.WorkCapacity()
    then None
    else Some(PendingExhausted)
  }

  function Weight(request: WireRequest): int {
    if FrameCodec.IsManagement(OpcodeOf(request)) then 0 else 1
  }

  lemma WeightIsWork(request: WireRequest)
    ensures Weight(request) == if IsManagementRequest(request) then 0 else 1
    ensures FrameCodec.IsManagement(OpcodeOf(request)) <==> IsManagementRequest(request)
  {
  }

  // The `finally` of a dispatched request.
  function Released(s: State, serial: nat): State
    requires serial in s.inFlight
  {
    var e := s.inFlight[serial];
    s.(activeIds := s.activeIds - {e.requestId},
       activeNonManagement := s.activeNonManagement - Weight(e.request),
       inFlight := s.inFlight - {serial})
  }

  // A frame is accounted for, by its response or without one.
  function Counted(s: State, answered: bool): State {
    if answered then s.(responses := s.responses + 1) else s.(died := s.died + 1)
  }

  function TurnedAway(s: State, encodes: bool): State {
    if encodes then Counted(s, true) else Counted(s, false).(phase := Draining)
  }

  function Spawned(s: State, requestId: int, request: WireRequest): State {
    s.(activeIds := s.activeIds + {requestId},
       activeNonManagement := s.activeNonManagement + Weight(request),
       inFlight := WithEntry(s, requestId, request),
       decoded := s.decoded + 1)
  }

  // An initialise is dispatched, answered and released by the serve loop itself, without a
  // suspension. A response that does not encode takes the loop down before it has the new limits.
  function Initialized(setup: Setup, s: State, request: WireRequest, encodes: bool): State {
    var after := DispatchStep(setup, s.dispatcher, request).0;
    var counted := Counted(s, encodes).(dispatcher := after, decoded := s.decoded + 1);
    if encodes then counted.(limits := after.limits) else counted.(phase := Draining)
  }

  // What the dispatcher makes of the request that step `e` hands to it, if any.
  function DispatchOf(setup: Setup, s: State, e: Event): Option<Dispatched>
    requires Enabled(s, e)
  {
    match e
    case ReadFrame(requestId, request, _) =>
      if ReserveFault(s, requestId, request).Some? || !request.InitializeRequest? then None
      else Some(DispatchStep(setup, s.dispatcher, request).1)
    case StartDispatch(serial, _) => Some(DispatchStep(setup, s.dispatcher, s.inFlight[serial].request).1)
    case _ => None
  }

  /** What the event loop can do next. */
  predicate Enabled(s: State, e: Event) {
    match e
    case ReadFrame(_, _, _) => s.phase.Reading?
    case StartDispatch(serial, _) => serial in s.inFlight && !s.inFlight[serial].started
    case Finish(serial, _) => serial in s.inFlight && s.inFlight[serial].started
    case CancelAtShutdown(serial) => s.phase.Draining? && serial in s.inFlight && s.inFlight[serial].started
    case SkipLine => s.phase.Reading?
    case CloseInput => s.phase.Reading?
    case DrainDone => s.phase.Draining? && s.inFlight == map[]
  }

  function Step(setup: Setup, s: State, e: Event): State
    requires Enabled(s, e)
  {
    match e
    case ReadFrame(requestId, request, encodes) =>
      if ReserveFault(s, requestId, request).Some? then TurnedAway(s.(decoded := s.decoded + 1), encodes)
      else if request.InitializeRequest? then Initialized(setup, s, request, encodes)
      else Spawned(s, requestId, request)
    case StartDispatch(serial, encodes) =>
      var entry := s.inFlight[serial];
      var (after, outcome) := DispatchStep(setup, s.dispatcher, entry.request);
      var dispatched := s.(dispatcher := after);
      // The backend and the handler are awaited; a refusal is answered at once.
      if outcome.Forwarded? then dispatched.(inFlight := s.inFlight[serial := entry.(started := true)])
      else Counted(Released(dispatched, serial), encodes)
    case Finish(serial, encodes) => Counted(Released(s, serial), encodes)
    case CancelAtShutdown(serial) => Counted(Released(s, serial), false)
    case SkipLine => s
    case CloseInput => s.(phase := Draining)
    case DrainDone => s.(phase := Stopped)
  }

  // The fields of a bridge, beside what the event loop holds for it: the requests in flight,
  // where the serve loop stands, and the counts of frames.
  class StdioBridge {
    const setup: Setup
    const dispatcher: RunnerRequestDispatcher
    var limits: WireLimits
    var activeIds: set<int>
    var activeNonManagement: int
    ghost var inFlight: map<nat, Entry>
    ghost var phase: Phase
    ghost var decoded: nat
    ghost var responses: nat
    ghost var died: nat

    ghost function Current(): State
      reads this, dispatcher
    {
      State(limits, dispatcher.State(), activeIds, activeNonManagement,
            inFlight, phase, decoded, responses, died)
    }

    ghost predicate Valid()
      reads this, dispatcher
    {
      && dispatcher.setup == setup
      && Exact(Current()) && Orderly(setup, Current())
    }

    // Limits that are not valid are refused before there is a bridge.
    constructor (setup: Setup)
      requires setup.limits.Valid()
      ensures Valid() && this.setup == setup && Current() == Opened(setup) && fresh(dispatcher)
    {
      this.setup := setup;
      dispatcher := new RunnerRequestDispatcher(setup);
      limits, activeIds, activeNonManagement := setup.limits, {}, 0;
      inFlight, phase, decoded, responses, died := map[], Reading, 0, 0, 0;
      new;
      OpenedIsSound(setup);
    }

    method Reserve(requestId: int, request: WireRequest) returns (fault: Option<Failure>)
      modifies this`activeIds, this`activeNonManagement
      ensures fault == ReserveFault(old(Current()), requestId, request)
      ensures fault.Some? ==> activeIds == old(activeIds) && activeNonManagement == old(activeNonManagement)
      ensures fault.None? ==>
                && activeIds == old(activeIds) + {requestId}
                && activeNonManagement == old(activeNonManagement) + Weight(request)
    {
      if requestId in activeIds {
        return Some(RequestIdDuplicate);
      }
      var management := FrameCodec.IsManagement(OpcodeOf(request));
      if |activeIds| >= limits.maxInFlight {
        return Some(PendingExhausted);
      }
      var workCapacity := limits.maxInFlight - limits.managementReserved;
      if !management && activeNonManagement >= workCapacity {
        return Some(PendingExhausted);
      }
      activeIds := activeIds + {requestId};
      if !management {
        activeNonManagement := activeNonManagement + 1;
      }
      fault := None;
    }

    method Release(requestId: int, request: WireRequest)
      modifies this`activeIds, this`activeNonManagement
      ensures activeIds == old(activeIds) - {requestId}
      ensures activeNonManagement == old(activeNonManagement) - Weight(request)
    {
      activeIds := activeIds - {requestId};
      if !FrameCodec.IsManagement(OpcodeOf(request)) {
        activeNonManagement := activeNonManagement - 1;
      }
    }

    // The serve loop's handling of one decoded frame, up to its next await.
    method OnFrame(requestId: int, request: WireRequest, encodes: bool) returns (fault: Option<Failure>)
      requires Valid() && phase.Reading?
      modifies this, dispatcher
      ensures Valid()
      ensures fault == ReserveFault(old(Current()), requestId, request)
      ensures Current() == Step(setup, old(Current()), ReadFrame(requestId, request, encodes))
    {
      hide Exact, Orderly, DispatchStep, Weight, OpcodeOf, FrameCodec.IsManagement, ReserveFault,
        Step, Initialized, TurnedAway, Counted;
      ghost var before := Current();
      StepIsSound(setup, Current(), ReadFrame(requestId, request, encodes));
      ReadSteps(setup, Current(), requestId, request, encodes);
      fault := Reserve(requestId, request);
      decoded := decoded + 1;
      if fault.Some? {
        Refuse(encodes);
      } else if request.InitializeRequest? {
        InitializeNow(requestId, request, encodes, before);
      } else {
        inFlight := inFlight[decoded - 1 := Entry(requestId, request, false)];
        assert Current() == Spawned(before, requestId, request);
      }
      hide Spawned;
    }

    // A refusal that does not encode takes the serve loop down.
    method Refuse(encodes: bool)
      modifies this`responses, this`died, this`phase
      ensures Current() == TurnedAway(old(Current()), encodes)
    {
      Count(encodes);
      if !encodes {
        phase := Draining;
      }
    }

    // An initialise between its reservation, noted in `before`, and the next read.
    method InitializeNow(requestId: int, request: WireRequest, encodes: bool, ghost before: State)
      requires dispatcher.setup == setup
      requires Current() == before.(
                 decoded := before.decoded + 1,
                 activeIds := before.activeIds + {requestId},
                 activeNonManagement := before.activeNonManagement + Weight(request))
      requires before.phase.Reading? && before.activeIds + {requestId} - {requestId} == before.activeIds
      modifies this, dispatcher
      ensures dispatcher.setup == setup
      ensures Current() == Initialized(setup, before, request, encodes)
    {
      hide DispatchStep, Weight;
      var _ := dispatcher.Dispatch(request);
      Count(encodes);
      Release(requestId, request);
      if encodes {
        limits := dispatcher.limits;
      } else {
        phase := Draining;
      }
    }

    ghost method Count(answered: bool)
      modifies this`responses, this`died
      ensures Current() == Counted(old(Current()), answered)
    {
      if answered {
        responses := responses + 1;
      } else {
        died := died + 1;
      }
    }

    // `_dispatch_and_write` up to its call into the backend or the handler, or, if the dispatcher
    // refuses the request, to its end.
    method BeginTask(ghost serial: nat, requestId: int, request: WireRequest, ghost encodes: bool)
      returns (outcome: Dispatched)
      requires Valid() && Enabled(Current(), StartDispatch(serial, encodes))
      requires inFlight[serial].requestId == requestId && inFlight[serial].request == request
      modifies this, dispatcher
      ensures Valid()
      ensures outcome == DispatchStep(setup, old(dispatcher.State()), request).1
      ensures Current() == Step(setup, old(Current()), StartDispatch(serial, encodes))
    {
      hide Exact, Orderly, DispatchStep, Weight;
      StepIsSound(setup, Current(), StartDispatch(serial, encodes));
      outcome := dispatcher.Dispatch(request);
      if outcome.Forwarded? {
        inFlight := inFlight[serial := inFlight[serial].(started := true)];
      } else {
        Release(requestId, request);
        inFlight := inFlight - {serial};
        Count(encodes);
      }
    }

    // The rest of a task that awaited the backend or the handler: its response goes out, or fails
    // to encode, and its slot is released.
    method EndTask(ghost serial: nat, requestId: int, request: WireRequest, ghost encodes: bool)
      requires Valid() && Enabled(Current(), Finish(serial, encodes))
      requires inFlight[serial].requestId == requestId && inFlight[serial].request == request
      modifies this
      ensures Valid()
      ensures Current() == Step(setup, old(Current()), Finish(serial, encodes))
    {
      hide Exact, Orderly, Weight;
      StepIsSound(setup, Current(), Finish(serial, encodes));
      Release(requestId, request);
      inFlight := inFlight - {serial};
      Count(encodes);
    }

    // A task cancelled when the shutdown timeout runs out.
    method CancelTask(ghost serial: nat, requestId: int, request: WireRequest)
      requires Valid() && Enabled(Current(), CancelAtShutdown(serial))
      requires inFlight[serial].requestId == requestId && inFlight[serial].request == request
      modifies this
      ensures Valid()
      ensures Current() == Step(setup, old(Current()), CancelAtShutdown(serial))
    {
      hide Exact, Orderly, Weight;
      StepIsSound(setup, Current(), CancelAtShutdown(serial));
      Release(requestId, request);
      inFlight := inFlight - {serial};
      Count(false);
    }
  }

  // The three ways a frame can go; an initialise gives back what its reservation took.
  lemma ReadSteps(setup: Setup, s: State, requestId: int, request: WireRequest, encodes: bool)
    requires s.phase.Reading?
    ensures ReserveFault(s, requestId, request).Some? ==>
              Step(setup, s, ReadFrame(requestId, request, encodes))
              == TurnedAway(s.(decoded := s.decoded + 1), encodes)
    ensures ReserveFault(s, requestId, request).None? && request.InitializeRequest? ==>
              && Step(setup, s, ReadFrame(requestId, request, encodes)) == Initialized(setup, s, request, encodes)
              && s.activeIds + {requestId} - {requestId} == s.activeIds
    ensures ReserveFault(s, requestId, request).None? && !request.InitializeRequest? ==>
              Step(setup, s, ReadFrame(requestId, request, encodes)) == Spawned(s, requestId, request)
  {
    hide DispatchStep, Counted, TurnedAway, Spawned, Initialized;
  }

  // --- The invariant ---

  function WorkSerials(inFlight: map<nat, Entry>): set<nat> {
    set s | s in inFlight && inFlight[s].IsWork()
  }

  function ManagementSerials(inFlight: map<nat, Entry>): set<nat> {
    set s | s in inFlight && !inFlight[s].IsWork()
  }

  function Ids(inFlight: map<nat, Entry>): set<int> {
    set s | s in inFlight :: inFlight[s].requestId
  }

  predicate NoSharedIds(inFlight: map<nat, Entry>) {
    forall a, b | a in inFlight && b in inFlight && a != b :: inFlight[a].requestId != inFlight[b].requestId
  }

  /** The bookkeeping is exact: the active ids are the ids in flight, no two alike, the counter
      counts the non-management requests, and every decoded frame is accounted for. */
  predicate Exact(s: State) {
    && (forall serial | serial in s.inFlight :: serial < s.decoded)
    && NoSharedIds(s.inFlight)
    && s.activeIds == Ids(s.inFlight)
    && |s.activeIds| == |s.inFlight|
    && s.activeNonManagement == |WorkSerials(s.inFlight)|
    && s.decoded == s.responses + |s.inFlight| + s.died
  }

  lemma RemoveEntry(s: State, serial: nat)
    requires Exact(s) && serial in s.inFlight
    ensures NoSharedIds(Released(s, serial).inFlight)
    ensures |Released(s, serial).inFlight| == |s.inFlight| - 1 == |Released(s, serial).activeIds|
    ensures Released(s, serial).activeIds == Ids(Released(s, serial).inFlight)
    ensures Released(s, serial).activeNonManagement == |WorkSerials(Released(s, serial).inFlight)|
  {
    WeightIsWork(s.inFlight[serial].request);
    hide Weight, IsManagementRequest;
    var after := Released(s, serial);
    assert after.inFlight.Keys == s.inFlight.Keys - {serial};
    var id := s.inFlight[serial].requestId;
    assert id in Ids(s.inFlight);
    assert WorkSerials(after.inFlight) == WorkSerials(s.inFlight) - {serial};
    forall other | other in Ids(s.inFlight) && other != id ensures other in Ids(after.inFlight) {
      var k :| k in s.inFlight && s.inFlight[k].requestId == other;
      assert k in after.inFlight;
    }
    forall other | other in Ids(after.inFlight) ensures other in Ids(s.inFlight) - {id} {
      var k :| k in after.inFlight && after.inFlight[k].requestId == other;
      assert k in s.inFlight && k != serial;
    }
  }

  function WithEntry(s: State, requestId: int, request: WireRequest): map<nat, Entry> {
    s.inFlight[s.decoded := Entry(requestId, request, false)]
  }

  lemma AddEntry(s: State, requestId: int, request: WireRequest)
    requires Exact(s) && requestId !in s.activeIds
    ensures NoSharedIds(WithEntry(s, requestId, request))
    ensures |WithEntry(s, requestId, request)| == |s.inFlight| + 1 == |s.activeIds + {requestId}|
    ensures s.activeNonManagement + Weight(request) == |WorkSerials(WithEntry(s, requestId, request))|
    ensures s.activeIds + {requestId} == Ids(WithEntry(s, requestId, request))
  {
    AddedToNone(s.inFlight, s.decoded, Entry(requestId, request, false));
    assert s.decoded !in s.inFlight;
    hide Ids, WorkSerials, Weight, NoSharedIds;
    AddedIds(s, requestId, request);
    AddedWork(s, requestId, request);
  }

  lemma AddedToNone(inFlight: map<nat, Entry>, serial: nat, entry: Entry)
    requires NoSharedIds(inFlight) && serial !in inFlight && entry.requestId !in Ids(inFlight)
    ensures NoSharedIds(inFlight[serial := entry])
    ensures |inFlight[serial := entry]| == |inFlight| + 1
  {
    assert inFlight[serial := entry].Keys == inFlight.Keys + {serial};
    forall k | k in inFlight ensures inFlight[k].requestId != entry.requestId {
      assert inFlight[k].requestId in Ids(inFlight);
    }
  }

  lemma AddedIds(s: State, requestId: int, request: WireRequest)
    requires s.decoded !in s.inFlight
    ensures Ids(WithEntry(s, requestId, request)) == Ids(s.inFlight) + {requestId}
  {
    var after := WithEntry(s, requestId, request);
    forall id | id in Ids(s.inFlight) + {requestId} ensures id in Ids(after) {
      if id == requestId {
        assert after[s.decoded].requestId == id;
      } else {
        var k :| k in s.inFlight && s.inFlight[k].requestId == id;
        assert k in after && after[k].requestId == id;
      }
    }
  }

  lemma AddedWork(s: State, requestId: int, request: WireRequest)
    requires s.decoded !in s.inFlight
    ensures |WorkSerials(WithEntry(s, requestId, request))| == |WorkSerials(s.inFlight)| + Weight(request)
  {
    WeightIsWork(request);
    hide Weight, IsManagementRequest;
    var entry := Entry(requestId, request, false);
    assert WorkSerials(WithEntry(s, requestId, request))
        == WorkSerials(s.inFlight) + (if entry.IsWork() then {s.decoded} else {});
  }

  lemma StartKeepsExact(s: State, serial: nat)
    requires Exact(s) && serial in s.inFlight
    ensures Exact(s.(inFlight := s.inFlight[serial := s.inFlight[serial].(started := true)]))
  {
    var after := s.inFlight[serial := s.inFlight[serial].(started := true)];
    assert after.Keys == s.inFlight.Keys;
    assert WorkSerials(after) == WorkSerials(s.inFlight);
    SameIds(after, s.inFlight);
  }

  lemma SameIds(a: map<nat, Entry>, b: map<nat, Entry>)
    requires a.Keys == b.Keys && forall k | k in a :: a[k].requestId == b[k].requestId
    ensures Ids(a) == Ids(b)
  {
    forall id | id in Ids(a) ensures id in Ids(b) {
      var k :| k in a && a[k].requestId == id;
      assert k in b && b[k].requestId == id;
    }
    forall id | id in Ids(b) ensures id in Ids(a) {
      var k :| k in b && b[k].requestId == id;
      assert k in a && a[k].requestId == id;
    }
  }

  lemma EndKeepsExact(s: State, serial: nat, answered: bool)
    requires Exact(s) && serial in s.inFlight
    ensures Exact(Counted(Released(s, serial), answered))
  {
    RemoveEntry(s, serial);
    hide Ids, WorkSerials, NoSharedIds, Weight;
  }

  lemma SpawnKeepsExact(s: State, requestId: int, request: WireRequest)
    requires Exact(s) && requestId !in s.activeIds
    ensures Exact(Spawned(s, requestId, request))
  {
    AddEntry(s, requestId, request);
    hide Ids, WorkSerials, NoSharedIds, Weight;
  }

  lemma StepKeepsExact(setup: Setup, s: State, e: Event)
    requires Exact(s) && Enabled(s, e)
    ensures Exact(Step(setup, s, e))
  {
    hide Ids, WorkSerials, NoSharedIds, Weight, DispatchStep, Released, Spawned, OpcodeOf, FrameCodec.IsManagement;
    match e
    case ReadFrame(requestId, request, _) =>
      if ReserveFault(s, requestId, request).None? && !request.InitializeRequest? {
        SpawnKeepsExact(s, requestId, request);
      }
    case StartDispatch(serial, encodes) =>
      var (after, outcome) := DispatchStep(setup, s.dispatcher, s.inFlight[serial].request);
      if outcome.Forwarded? {
        StartKeepsExact(s.(dispatcher := after), serial);
      } else {
        EndKeepsExact(s.(dispatcher := after), serial, encodes);
      }
    case Finish(serial, encodes) => EndKeepsExact(s, serial, encodes);
    case CancelAtShutdown(serial) => EndKeepsExact(s, serial, false);
    case _ =>
  }

  /** The bridge's limits are the dispatcher's, unless the serve loop died on the acknowledgement;
      nothing is handed to the backend before negotiation; an initialise never stays in flight. */
  predicate Orderly(setup: Setup, s: State) {
    && s.limits.Valid() && s.dispatcher.limits.Valid()
    && s.limits.maxInFlight <= setup.limits.maxInFlight
    && s.dispatcher.limits.maxInFlight <= setup.limits.maxInFlight
    && |s.inFlight| <= setup.limits.maxInFlight
    && (s.limits == s.dispatcher.limits || s.limits == setup.limits)
    && (!s.dispatcher.negotiated ==> s.dispatcher == Opening(setup) && s.limits == setup.limits && NoneStarted(s))
    && (s.phase.Reading? ==> s.limits == s.dispatcher.limits)
    && (s.phase.Stopped? ==> s.inFlight == map[])
    && (forall k | k in s.inFlight :: !s.inFlight[k].request.InitializeRequest?)
    && (s.limits == setup.limits ==> Fits(s))
  }

  predicate NoneStarted(s: State) {
    forall k | k in s.inFlight :: !s.inFlight[k].started
  }

  predicate AllStarted(s: State) {
    forall k | k in s.inFlight :: s.inFlight[k].started
  }

  /** The non-management requests in flight fit what the limits leave to them. */
  predicate Fits(s: State) {
    s.activeNonManagement <= s.limits.WorkCapacity()
  }

  /** Only a change of limits can make the work in flight stop fitting. */
  lemma FitsWhileLimitsStay(setup: Setup, s: State, e: Event)
    requires Enabled(s, e) && Fits(s) && Step(setup, s, e).limits == s.limits
    ensures Fits(Step(setup, s, e))
  {
    hide DispatchStep, OpcodeOf, FrameCodec.IsManagement;
  }

  lemma DispatchStaysOrderly(setup: Setup, d: DispatcherState, r: WireRequest)
    requires d.limits.Valid() && d.limits.maxInFlight <= setup.limits.maxInFlight
    requires !d.negotiated ==> d == Opening(setup)
    ensures var (after, outcome) := DispatchStep(setup, d, r);
            && after.limits.Valid() && after.limits.maxInFlight <= setup.limits.maxInFlight
            && (!after.negotiated ==> after == Opening(setup))
            && (d.negotiated || !r.InitializeRequest? ==> after == d)
            && (outcome.Forwarded? ==> d.negotiated)
  {
    if r.InitializeRequest? && !d.negotiated && Initialize(r.hello, setup.codec, d.limits).Ok? {
      InitializeIsSoundMeet(r.hello, setup.codec, d.limits);
    }
    hide Initialize;
  }

  lemma SpawnStaysOrderly(setup: Setup, s: State, requestId: int, request: WireRequest)
    requires Exact(s) && Orderly(setup, s) && s.phase.Reading? && !request.InitializeRequest?
    requires ReserveFault(s, requestId, request).None?
    ensures Orderly(setup, Spawned(s, requestId, request))
  {
    hide WireLimits.Valid, Opening, Ids, WorkSerials, NoSharedIds, OpcodeOf, FrameCodec.IsManagement;
    SpawnStaysFitting(s, requestId, request);
    hide Exact, Fits, ReserveFault, Weight;
  }

  lemma SpawnStaysFitting(s: State, requestId: int, request: WireRequest)
    requires Exact(s) && ReserveFault(s, requestId, request).None?
    ensures |WithEntry(s, requestId, request)| <= s.limits.maxInFlight
    ensures Fits(s) ==> Fits(Spawned(s, requestId, request))
  {
    hide Ids, WorkSerials, NoSharedIds, OpcodeOf, FrameCodec.IsManagement;
    AddEntry(s, requestId, request);
  }

  lemma ReadStaysOrderly(setup: Setup, s: State, requestId: int, request: WireRequest, encodes: bool)
    requires Exact(s) && Orderly(setup, s) && Enabled(s, ReadFrame(requestId, request, encodes))
    ensures Orderly(setup, Step(setup, s, ReadFrame(requestId, request, encodes)))
  {
    hide WireLimits.Valid, Opening, Exact, DispatchStep, Spawned;
    if ReserveFault(s, requestId, request).None? {
      if request.InitializeRequest? {
        DispatchStaysOrderly(setup, s.dispatcher, request);
      } else {
        SpawnStaysOrderly(setup, s, requestId, request);
      }
    }
  }

  lemma StartStaysOrderly(setup: Setup, s: State, serial: nat)
    requires Orderly(setup, s) && serial in s.inFlight && s.dispatcher.negotiated
    ensures Orderly(setup, s.(inFlight := s.inFlight[serial := s.inFlight[serial].(started := true)]))
  {
    hide WireLimits.Valid, Opening;
    assert s.inFlight[serial := s.inFlight[serial].(started := true)].Keys == s.inFlight.Keys;
  }

  lemma EndStaysOrderly(setup: Setup, s: State, serial: nat, answered: bool)
    requires Exact(s) && Orderly(setup, s) && serial in s.inFlight
    ensures Orderly(setup, Counted(Released(s, serial), answered))
  {
    hide WireLimits.Valid, Ids, WorkSerials, NoSharedIds, Opening, OpcodeOf, FrameCodec.IsManagement;
    RemoveEntry(s, serial);
    hide Exact;
  }

  lemma StepStaysOrderly(setup: Setup, s: State, e: Event)
    requires Exact(s) && Orderly(setup, s) && Enabled(s, e)
    ensures Orderly(setup, Step(setup, s, e))
  {
    hide DispatchStep, WireLimits.Valid, Opening, Exact, ReserveFault, Released;
    match e
    case ReadFrame(requestId, request, encodes) => ReadStaysOrderly(setup, s, requestId, request, encodes);
    case StartDispatch(serial, encodes) =>
      DispatchStaysOrderly(setup, s.dispatcher, s.inFlight[serial].request);
      assert s.(dispatcher := s.dispatcher) == s;
      if s.dispatcher.negotiated {
        StartStaysOrderly(setup, s, serial);
      }
      EndStaysOrderly(setup, s, serial, encodes);
    case Finish(serial, encodes) => EndStaysOrderly(setup, s, serial, encodes);
    case CancelAtShutdown(serial) => EndStaysOrderly(setup, s, serial, false);
    case _ =>
  }

  /** Every step keeps the bookkeeping exact and the limits orderly. */
  lemma StepIsSound(setup: Setup, s: State, e: Event)
    requires Exact(s) && Orderly(setup, s) && Enabled(s, e)
    ensures Exact(Step(setup, s, e)) && Orderly(setup, Step(setup, s, e))
  {
    StepKeepsExact(setup, s, e);
    StepStaysOrderly(setup, s, e);
  }

  lemma OpenedIsSound(setup: Setup)
    requires setup.limits.Valid()
    ensures Exact(Opened(setup)) && Orderly(setup, Opened(setup))
  {
    assert Ids(map[]) == {};
    assert WorkSerials(map[]) == {};
  }
}
