/** Whole connections over a bridge, under every interleaving of its steps. */
module BridgeRuns {
  import opened WireTypes
  import opened Handshake
  import opened Dispatcher
  import opened Bridge

  /** `states` is what a bridge goes through when `events` happen in this order. */
  ghost predicate IsRun(setup: Setup, events: seq<Event>, states: seq<State>) {
    && setup.limits.Valid()
    && |states| == |events| + 1 && states[0] == Opened(setup)
    && forall i | 0 <= i < |events| ::
         Enabled(states[i], events[i]) && states[i + 1] == Step(setup, states[i], events[i])
  }

  /** In every interleaving the bookkeeping is exact and the limits orderly. */
  lemma {:induction false} BookkeepingIsExact(setup: Setup, events: seq<Event>, states: seq<State>, n: nat)
    requires IsRun(setup, events, states) && n < |states|
    ensures Exact(states[n]) && Orderly(setup, states[n])
  {
    hide Exact, Orderly, Step, Enabled;
    if n == 0 {
      OpenedIsSound(setup);
    } else {
      BookkeepingIsExact(setup, events, states, n - 1);
      StepIsSound(setup, states[n - 1], events[n - 1]);
    }
  }

  /** After the drain nothing is held, and every decoded frame was answered or died. */
  lemma DrainLeavesNothing(setup: Setup, events: seq<Event>, states: seq<State>, n: nat)
    requires IsRun(setup, events, states) && n < |states| && states[n].phase.Stopped?
    ensures states[n].activeIds == {} && states[n].activeNonManagement == 0
    ensures states[n].decoded == states[n].responses + states[n].died
  {
    BookkeepingIsExact(setup, events, states, n);
    assert WorkSerials(states[n].inFlight) == {};
  }

  // The most steps that a drain can still take: each request in flight starts and ends.
  function StepsLeft(s: State): nat {
    |s.inFlight| + |UnstartedSerials(s.inFlight)| + (if s.phase.Stopped? then 0 else 1)
  }

  function UnstartedSerials(inFlight: map<nat, Entry>): set<nat> {
    set k | k in inFlight && !inFlight[k].started
  }

  lemma UnstartedAreFew(inFlight: map<nat, Entry>)
    ensures |UnstartedSerials(inFlight)| <= |inFlight|
  {
    var started := set k | k in inFlight && inFlight[k].started;
    assert inFlight.Keys == UnstartedSerials(inFlight) + started;
    assert UnstartedSerials(inFlight) !! started;
  }

  lemma UnstartedAfterStart(inFlight: map<nat, Entry>, serial: nat)
    requires serial in inFlight && !inFlight[serial].started
    ensures var after := inFlight[serial := inFlight[serial].(started := true)];
            |after| == |inFlight| && |UnstartedSerials(after)| == |UnstartedSerials(inFlight)| - 1
  {
    var after := inFlight[serial := inFlight[serial].(started := true)];
    assert after.Keys == inFlight.Keys;
    assert UnstartedSerials(after) == UnstartedSerials(inFlight) - {serial};
  }

  lemma UnstartedAfterEnd(inFlight: map<nat, Entry>, serial: nat)
    requires serial in inFlight
    ensures |inFlight - {serial}| == |inFlight| - 1
    ensures |UnstartedSerials(inFlight - {serial})| <= |UnstartedSerials(inFlight)|
  {
    assert (inFlight - {serial}).Keys == inFlight.Keys - {serial};
    assert UnstartedSerials(inFlight - {serial}) == UnstartedSerials(inFlight) - {serial};
  }

  lemma StartUsesAStep(s: State, serial: nat)
    requires serial in s.inFlight && !s.inFlight[serial].started
    ensures StepsLeft(s.(inFlight := s.inFlight[serial := s.inFlight[serial].(started := true)])) < StepsLeft(s)
  {
    hide UnstartedSerials;
    UnstartedAfterStart(s.inFlight, serial);
  }

  lemma EndUsesAStep(s: State, serial: nat, answered: bool)
    requires serial in s.inFlight
    ensures StepsLeft(Counted(Released(s, serial), answered)) < StepsLeft(s)
    ensures Counted(Released(s, serial), answered).phase == s.phase
  {
    hide UnstartedSerials, Weight;
    UnstartedAfterEnd(s.inFlight, serial);
  }

  lemma DrainStep(setup: Setup, s: State, e: Event)
    requires Enabled(s, e) && !s.phase.Reading?
    ensures !Step(setup, s, e).phase.Reading? && StepsLeft(Step(setup, s, e)) < StepsLeft(s)
  {
    hide StepsLeft, DispatchStep, ReserveFault, Counted, Released;
    match e
    case StartDispatch(serial, encodes) =>
      var (after, outcome) := DispatchStep(setup, s.dispatcher, s.inFlight[serial].request);
      DispatcherIsNoStep(s, after);
      StartUsesAStep(s.(dispatcher := after), serial);
      EndUsesAStep(s.(dispatcher := after), serial, encodes);
    case Finish(serial, encodes) => EndUsesAStep(s, serial, encodes);
    case CancelAtShutdown(serial) => EndUsesAStep(s, serial, false);
    case DrainDone => StopIsAStep(s);
  }

  lemma DispatcherIsNoStep(s: State, d: DispatcherState)
    ensures StepsLeft(s.(dispatcher := d)) == StepsLeft(s)
  {
  }

  lemma StopIsAStep(s: State)
    requires !s.phase.Stopped?
    ensures StepsLeft(s.(phase := Stopped)) < StepsLeft(s)
  {
  }

  lemma DrainCanGoOn(s: State) returns (e: Event)
    requires s.phase.Draining?
    ensures Enabled(s, e)
  {
    if k :| k in s.inFlight {
      e := if s.inFlight[k].started then Finish(k, true) else StartDispatch(k, true);
    } else {
      assert s.inFlight == map[];
      e := DrainDone;
    }
  }

  lemma {:induction false} DrainShrinks(
      setup: Setup, events: seq<Event>, states: seq<State>, m: nat, n: nat)
    requires IsRun(setup, events, states) && m <= n < |states| && !states[m].phase.Reading?
    ensures !states[n].phase.Reading?
    ensures n - m + StepsLeft(states[n]) <= StepsLeft(states[m])
  {
    hide Step, Enabled, StepsLeft;
    if m < n {
      DrainShrinks(setup, events, states, m, n - 1);
      DrainStep(setup, states[n - 1], events[n - 1]);
    }
  }

  /** Once input is closed the bridge always comes to a stop: it takes at most two steps for each
      request in flight and one more, it can go on until it has stopped, and not after. */
  lemma DrainEnds(setup: Setup, events: seq<Event>, states: seq<State>, m: nat, n: nat)
    requires IsRun(setup, events, states) && m <= n < |states| && states[m].phase.Draining?
    ensures n - m <= 2 * |states[m].inFlight| + 1
    ensures states[n].phase.Stopped? <==> forall e: Event :: !Enabled(states[n], e)
  {
    DrainShrinks(setup, events, states, m, n);
    UnstartedAreFew(states[m].inFlight);
    BookkeepingIsExact(setup, events, states, n);
    if states[n].phase.Draining? {
      var e := DrainCanGoOn(states[n]);
    }
    hide Step, UnstartedSerials, Exact;
  }

  // --- Conservation of frames ---

  /** The serial number of the frame that `e` is the last of: one refused on arrival, an
      initialise, or one that leaves the requests in flight. */
  function EndedBy(setup: Setup, s: State, e: Event): Option<nat>
    requires Enabled(s, e)
  {
    match e
    case ReadFrame(requestId, request, _) =>
      if ReserveFault(s, requestId, request).Some? || request.InitializeRequest? then Some(s.decoded) else None
    case StartDispatch(serial, _) =>
      if DispatchOf(setup, s, e).value.Forwarded? then None else Some(serial)
    case Finish(serial, _) => Some(serial)
    case CancelAtShutdown(serial) => Some(serial)
    case _ => None
  }

  // A frame ends with a response unless none could be encoded or its task was cancelled.
  predicate Responds(e: Event) {
    (e.ReadFrame? || e.StartDispatch? || e.Finish?) && e.encodes
  }

  function FramesRead(events: seq<Event>, n: nat): nat
    requires n <= |events|
  {
    if n == 0 then 0 else FramesRead(events, n - 1) + (if events[n - 1].ReadFrame? then 1 else 0)
  }

  /** How many of the first `n` events end a frame, with a response or without one. */
  ghost function FramesEnded(
      setup: Setup, events: seq<Event>, states: seq<State>, n: nat, answered: bool): nat
    requires IsRun(setup, events, states) && n <= |events|
  {
    if n == 0 then 0
    else FramesEnded(setup, events, states, n - 1, answered)
         + (if EndedBy(setup, states[n - 1], events[n - 1]).Some? && Responds(events[n - 1]) == answered
            then 1 else 0)
  }

  lemma CountsStep(setup: Setup, s: State, e: Event)
    requires Enabled(s, e)
    ensures Step(setup, s, e).decoded == s.decoded + (if e.ReadFrame? then 1 else 0)
    ensures Step(setup, s, e).responses
         == s.responses + (if EndedBy(setup, s, e).Some? && Responds(e) then 1 else 0)
    ensures Step(setup, s, e).died
         == s.died + (if EndedBy(setup, s, e).Some? && !Responds(e) then 1 else 0)
  {
    hide DispatchStep, ReserveFault, WithEntry;
  }

  lemma {:induction false} CountsAreHistory(setup: Setup, events: seq<Event>, states: seq<State>, n: nat)
    requires IsRun(setup, events, states) && n < |states|
    ensures states[n].responses == FramesEnded(setup, events, states, n, true)
    ensures states[n].died == FramesEnded(setup, events, states, n, false)
    ensures states[n].decoded == FramesRead(events, n)
  {
    hide Step, EndedBy, Responds, Enabled;
    if n > 0 {
      CountsAreHistory(setup, events, states, n - 1);
      CountsStep(setup, states[n - 1], events[n - 1]);
    }
  }

  /** Conservation of frames, event by event: the frames read are those that one event ended with a
      response, those that one ended without, and those in flight. */
  lemma FramesAreConserved(setup: Setup, events: seq<Event>, states: seq<State>, n: nat)
    requires IsRun(setup, events, states) && n < |states|
    ensures states[n].responses == FramesEnded(setup, events, states, n, true)
    ensures states[n].died == FramesEnded(setup, events, states, n, false)
    ensures FramesRead(events, n)
         == FramesEnded(setup, events, states, n, true) + FramesEnded(setup, events, states, n, false)
            + |states[n].inFlight|
  {
    hide Step, EndedBy, Responds, Enabled;
    CountsAreHistory(setup, events, states, n);
    BookkeepingIsExact(setup, events, states, n);
  }

  // The frame was read and is no longer in flight.
  predicate IsOver(s: State, serial: nat) {
    serial < s.decoded && serial !in s.inFlight
  }

  lemma IsOverStep(setup: Setup, s: State, e: Event, serial: nat)
    requires Exact(s) && Enabled(s, e)
    ensures IsOver(Step(setup, s, e), serial) <==> IsOver(s, serial) || EndedBy(setup, s, e) == Some(serial)
    ensures IsOver(s, serial) ==> EndedBy(setup, s, e) != Some(serial)
  {
    hide DispatchStep, ReserveFault, Ids, WorkSerials, NoSharedIds;
  }

  lemma {:induction false} OverMeansEnded(
      setup: Setup, events: seq<Event>, states: seq<State>, n: nat, serial: nat)
    requires IsRun(setup, events, states) && n < |states|
    ensures IsOver(states[n], serial)
       <==> exists i | 0 <= i < n :: EndedBy(setup, states[i], events[i]) == Some(serial)
  {
    hide Step, EndedBy, IsOver, Enabled, Exact, Orderly;
    if n == 0 {
      NothingIsOver(setup, serial);
    } else {
      OverMeansEnded(setup, events, states, n - 1, serial);
      BookkeepingIsExact(setup, events, states, n - 1);
      IsOverStep(setup, states[n - 1], events[n - 1], serial);
    }
  }

  lemma NothingIsOver(setup: Setup, serial: nat)
    ensures !IsOver(Opened(setup), serial)
  {
  }

  /** No frame ends twice and no serial number is used again: an event that ends a frame finds it
      unended by every event before, and a frame that was read is in flight exactly until then. */
  lemma FrameEndsOnce(setup: Setup, events: seq<Event>, states: seq<State>, n: nat, serial: nat)
    requires IsRun(setup, events, states) && n < |states|
    ensures serial < states[n].decoded ==>
              (serial in states[n].inFlight
               <==> forall i | 0 <= i < n :: EndedBy(setup, states[i], events[i]) != Some(serial))
    ensures n < |events| && EndedBy(setup, states[n], events[n]) == Some(serial) ==>
              forall i | 0 <= i < n :: EndedBy(setup, states[i], events[i]) != Some(serial)
  {
    hide Step, EndedBy, Enabled, Exact, Orderly;
    OverMeansEnded(setup, events, states, n, serial);
    BookkeepingIsExact(setup, events, states, n);
    if n < |events| {
      IsOverStep(setup, states[n], events[n], serial);
    }
  }

  /** Event `i` read the frame with this serial number, id and request. */
  ghost predicate ReadAt(events: seq<Event>, states: seq<State>, i: nat, serial: nat, requestId: int, request: WireRequest)
    requires i < |events| && i < |states|
  {
    && events[i].ReadFrame? && states[i].decoded == serial
    && events[i].requestId == requestId && events[i].request == request
  }

  lemma EntryStep(setup: Setup, s: State, e: Event, serial: nat)
    requires Enabled(s, e) && serial in Step(setup, s, e).inFlight
    ensures var entry := Step(setup, s, e).inFlight[serial];
            || (&& serial in s.inFlight && s.inFlight[serial].requestId == entry.requestId
                && s.inFlight[serial].request == entry.request)
            || (&& e.ReadFrame? && s.decoded == serial
                && e.requestId == entry.requestId && e.request == entry.request)
  {
    hide DispatchStep, ReserveFault;
  }

  /** What is in flight is what was read: every request waits, runs and is released under the id it
      came with, and what is dispatched for it is the request that came. */
  lemma {:induction false} InFlightIsAsRead(
      setup: Setup, events: seq<Event>, states: seq<State>, n: nat, serial: nat)
    returns (i: nat)
    requires IsRun(setup, events, states) && n < |states| && serial in states[n].inFlight
    ensures i < n
    ensures ReadAt(events, states, i, serial, states[n].inFlight[serial].requestId, states[n].inFlight[serial].request)
  {
    hide Step, Enabled;
    EntryStep(setup, states[n - 1], events[n - 1], serial);
    if && serial in states[n - 1].inFlight
       && states[n - 1].inFlight[serial].requestId == states[n].inFlight[serial].requestId
       && states[n - 1].inFlight[serial].request == states[n].inFlight[serial].request {
      i := InFlightIsAsRead(setup, events, states, n - 1, serial);
    } else {
      i := n - 1;
    }
  }

  // --- Admission ---

  /** A frame is admitted exactly when its id is new among the requests in flight and there is room
      for it: below the maximum and, unless it initialises, cancels or disposes, below the work
      capacity. A known id is a duplicate, anything else that is not admitted has exhausted its room. */
  lemma AdmissionIsExact(s: State, requestId: int, request: WireRequest)
    requires Exact(s)
    ensures ReserveFault(s, requestId, request).None?
       <==> && (forall k | k in s.inFlight :: s.inFlight[k].requestId != requestId)
            && |s.inFlight| < s.limits.maxInFlight
            && (|| request.InitializeRequest? || request.CancelRunnerRequest? || request.DisposeRunnerRequest?
                || |WorkSerials(s.inFlight)| < s.limits.WorkCapacity())
    ensures ReserveFault(s, requestId, request) == Some(RequestIdDuplicate)
       <==> exists k | k in s.inFlight :: s.inFlight[k].requestId == requestId
    ensures ReserveFault(s, requestId, request)
            in {None, Some(RequestIdDuplicate), Some(PendingExhausted)}
  {
    WeightIsWork(request);
    if requestId in s.activeIds {
      var k :| k in s.inFlight && s.inFlight[k].requestId == requestId;
    } else {
      forall k | k in s.inFlight ensures s.inFlight[k].requestId != requestId {
        assert s.inFlight[k].requestId in Ids(s.inFlight);
      }
    }
  }

  /** The requests in flight never exceed the maximum the bridge was built with, and until the
      limits change the work among them fits beside the management reserve. */
  lemma CapacityHolds(setup: Setup, events: seq<Event>, states: seq<State>, n: nat)
    requires IsRun(setup, events, states) && n < |states|
    ensures |states[n].inFlight| <= setup.limits.maxInFlight
    ensures !states[n].dispatcher.negotiated || states[n].limits == setup.limits ==> Fits(states[n])
  {
    BookkeepingIsExact(setup, events, states, n);
  }

  // --- The change of limits ---

  /** The connection is negotiated and the bridge has taken the new limits over. */
  predicate Settled(s: State) {
    s.dispatcher.negotiated && s.limits == s.dispatcher.limits
  }

  /** `e` is the initialise that succeeds and whose acknowledgement is written. */
  predicate TakesOver(setup: Setup, s: State, e: Event)
    requires Enabled(s, e)
  {
    e.ReadFrame? && e.encodes && DispatchOf(setup, s, e).Some? && DispatchOf(setup, s, e).value.Acknowledged?
  }

  lemma LimitsStep(setup: Setup, s: State, e: Event)
    requires Orderly(setup, s) && Enabled(s, e)
    ensures !TakesOver(setup, s, e) ==> Step(setup, s, e).limits == s.limits
    ensures TakesOver(setup, s, e) ==>
              && !s.dispatcher.negotiated && Settled(Step(setup, s, e))
              && Step(setup, s, e).limits == DispatchStep(setup, s.dispatcher, e.request).0.limits
              && Step(setup, s, e).inFlight == s.inFlight
              && Step(setup, s, e).activeNonManagement == s.activeNonManagement
  {
    hide Initialize, WireLimits.Valid, WithEntry, ReserveFault;
  }

  lemma SettledStep(setup: Setup, s: State, e: Event)
    requires Enabled(s, e) && Settled(s)
    ensures Step(setup, s, e).limits == s.limits && Settled(Step(setup, s, e))
  {
    hide WithEntry, ReserveFault, Initialize;
  }

  /** Once the limits are settled they never change again, and once the work in flight fits them
      it fits for ever. */
  lemma {:induction false} SettledIsFinal(setup: Setup, events: seq<Event>, states: seq<State>, m: nat, n: nat)
    requires IsRun(setup, events, states) && m <= n < |states| && Settled(states[m])
    ensures Settled(states[n]) && states[n].limits == states[m].limits
    ensures Fits(states[m]) ==> Fits(states[n])
  {
    hide Step, Settled, Fits, Enabled;
    if m < n {
      SettledIsFinal(setup, events, states, m, n - 1);
      SettledStep(setup, states[n - 1], events[n - 1]);
      if Fits(states[n - 1]) {
        FitsWhileLimitsStay(setup, states[n - 1], events[n - 1]);
      }
    }
  }

  /** Work in flight beyond the new capacity only drains: while it does not fit, no step adds any. */
  lemma ExcessOnlyDrains(setup: Setup, s: State, e: Event)
    requires Enabled(s, e) && !Fits(s) && Step(setup, s, e).limits == s.limits
    ensures Step(setup, s, e).activeNonManagement <= s.activeNonManagement
  {
    hide DispatchStep, OpcodeOf;
  }

  /** When the limits are taken over, all that is in flight waits for its task to start; and the new
      limits leave room for it exactly when the work among it fits the met maximum less the met
      reserve. */
  lemma TakeOverFitsIff(setup: Setup, events: seq<Event>, states: seq<State>, n: nat)
    requires IsRun(setup, events, states) && n < |events| && TakesOver(setup, states[n], events[n])
    ensures NoneStarted(states[n])
    ensures Fits(states[n + 1])
       <==> |WorkSerials(states[n].inFlight)|
            <= Min(events[n].request.hello.maxInFlight, setup.limits.maxInFlight)
               - Min(events[n].request.hello.managementReserved, setup.limits.managementReserved)
  {
    BookkeepingIsExact(setup, events, states, n);
    LimitsStep(setup, states[n], events[n]);
    MetCapacity(setup, events[n].request);
    hide Step, DispatchStep, Enabled, WorkSerials, Ids, NoSharedIds, WireLimits.Valid;
  }

  lemma MetCapacity(setup: Setup, r: WireRequest)
    requires r.InitializeRequest? && DispatchStep(setup, Opening(setup), r).1.Acknowledged?
    ensures DispatchStep(setup, Opening(setup), r).0.limits.WorkCapacity()
         == Min(r.hello.maxInFlight, setup.limits.maxInFlight)
            - Min(r.hello.managementReserved, setup.limits.managementReserved)
  {
  }

  /** It need not fit: two requests that were read but not started, and a peer that offers two
      slots, one of them for management. */
  lemma ExcessCanBeLeftOver(codec: string) returns (setup: Setup, events: seq<Event>, states: seq<State>)
    ensures IsRun(setup, events, states) && |events| == 3
    ensures Settled(states[3]) && !Fits(states[3])
  {
    hide Initialize, WireLimits.Valid;
    var hello := Hello(CURRENT_MAJOR, CURRENT_MINOR, codec, SCHEMA_REVISION, 8_388_608, 4_194_304, 2, 1, true,
                       REQUIRED_FEATURES);
    setup := Setup(codec, false, DEFAULT_WIRE_LIMITS);
    SmallOfferIsAccepted(hello, codec);
    events := [
      ReadFrame(1, RunBatchRequest(""), true), ReadFrame(2, RunBatchRequest(""), true),
      ReadFrame(3, InitializeRequest(hello), true)];
    var s0 := Opened(setup);
    var s1 := Spawned(s0, 1, RunBatchRequest(""));
    var s2 := Spawned(s1, 2, RunBatchRequest(""));
    var s3 := Initialized(setup, s2, InitializeRequest(hello), true);
    states := [s0, s1, s2, s3];
    assert s1.activeIds == {1} && s2.activeIds == {1, 2};
    assert Step(setup, s0, events[0]) == s1 && Step(setup, s1, events[1]) == s2;
    assert Step(setup, s2, events[2]) == s3;
  }

  lemma SmallOfferIsAccepted(hello: Hello, codec: string)
    requires hello == Hello(CURRENT_MAJOR, CURRENT_MINOR, codec, SCHEMA_REVISION, 8_388_608, 4_194_304, 2, 1, true,
                            REQUIRED_FEATURES)
    ensures DEFAULT_WIRE_LIMITS.Valid() && Initialize(hello, codec, DEFAULT_WIRE_LIMITS).Ok?
    ensures Initialize(hello, codec, DEFAULT_WIRE_LIMITS).value.1.WorkCapacity() == 1
  {
    InitializeSucceedsIff(hello, codec, DEFAULT_WIRE_LIMITS);
  }

  // --- Phases and limits as history ---

  /** `e` ends the reading of input: the input closes, or a response that the serve loop itself has to
      make, a refusal or the answer to an initialise, does not encode. */
  predicate EndsReading(s: State, e: Event) {
    || e.CloseInput?
    || (e.ReadFrame? && !e.encodes
        && (ReserveFault(s, e.requestId, e.request).Some? || e.request.InitializeRequest?))
  }

  lemma PhaseStep(setup: Setup, s: State, e: Event)
    requires Enabled(s, e)
    ensures Step(setup, s, e).phase
         == if e.DrainDone? then Stopped else if EndsReading(s, e) then Draining else s.phase
    ensures EndsReading(s, e) ==> s.phase.Reading?
    ensures e.DrainDone? ==> s.phase.Draining?
  {
    hide DispatchStep, ReserveFault, WithEntry;
  }

  /** The bridge reads until an event ends reading, drains until its work is done, and is stopped from
      then on; a task whose response does not encode stops nothing. */
  lemma {:induction false} PhaseIsHistory(setup: Setup, events: seq<Event>, states: seq<State>, n: nat)
    requires IsRun(setup, events, states) && n < |states|
    ensures states[n].phase.Reading? <==> forall i | 0 <= i < n :: !EndsReading(states[i], events[i])
    ensures states[n].phase.Stopped? <==> exists i | 0 <= i < n :: events[i].DrainDone?
  {
    hide Step, Enabled, EndsReading;
    if n > 0 {
      PhaseIsHistory(setup, events, states, n - 1);
      PhaseStep(setup, states[n - 1], events[n - 1]);
    }
  }

  /** The limits are the opening ones until an initialise succeeds and its acknowledgement is written,
      and from then on those of that acknowledgement. */
  lemma {:induction false} LimitsAreHistory(setup: Setup, events: seq<Event>, states: seq<State>, n: nat)
    requires IsRun(setup, events, states) && n < |states|
    ensures (forall i | 0 <= i < n :: !TakesOver(setup, states[i], events[i])) ==>
              states[n].limits == setup.limits
    ensures forall i | 0 <= i < n && TakesOver(setup, states[i], events[i]) ::
              states[n].limits == Acknowledged(setup, DispatchOf(setup, states[i], events[i]).value.ack)
  {
    hide Step, Enabled, DispatchOf, Acknowledged, WireLimits.Valid, Settled;
    if n > 0 {
      LimitsAreHistory(setup, events, states, n - 1);
      BookkeepingIsExact(setup, events, states, n - 1);
      hide Exact, Orderly;
      LimitsStep(setup, states[n - 1], events[n - 1]);
      if TakesOver(setup, states[n - 1], events[n - 1]) {
        TakeOverLimits(setup, states[n - 1], events[n - 1]);
      }
      forall i | 0 <= i < n && TakesOver(setup, states[i], events[i])
        ensures states[n].limits == Acknowledged(setup, DispatchOf(setup, states[i], events[i]).value.ack)
      {
        if i < n - 1 {
          BookkeepingIsExact(setup, events, states, i);
          LimitsStep(setup, states[i], events[i]);
          SettledIsFinal(setup, events, states, i + 1, n - 1);
          SettledIsFinal(setup, events, states, i + 1, n);
        }
      }
    }
  }

  // The opening limits as an acknowledgement lowers them.
  function Acknowledged(setup: Setup, ack: Hello): WireLimits {
    setup.limits.(
      maxFrameBytes := ack.maxFrameBytes, maxPayloadBytes := ack.maxPayloadBytes,
      maxInFlight := ack.maxInFlight, managementReserved := ack.managementReserved)
  }

  lemma TakeOverLimits(setup: Setup, s: State, e: Event)
    requires setup.limits.Valid() && Orderly(setup, s) && Enabled(s, e) && TakesOver(setup, s, e)
    ensures Step(setup, s, e).limits == Acknowledged(setup, DispatchOf(setup, s, e).value.ack)
    ensures ValidateFor(DispatchOf(setup, s, e).value.ack, e.request.hello).None?
  {
    LimitsStep(setup, s, e);
    AcknowledgedStep(setup, e.request);
    hide Step, DispatchStep, Initialize, ValidateFor, ReserveFault;
  }

  // --- Prompt starts ---

  /** Every spawned task starts before the next frame is read, as it does under an event loop whose
      ready queue is first in, first out. */
  ghost predicate IsPrompt(events: seq<Event>, states: seq<State>)
    requires |events| <= |states|
  {
    forall i | 0 <= i < |events| && events[i].ReadFrame? :: AllStarted(states[i])
  }

  lemma UnnegotiatedIsIdle(setup: Setup, s: State)
    requires Exact(s) && Orderly(setup, s) && AllStarted(s) && !s.dispatcher.negotiated
    ensures s.inFlight == map[] && s.activeNonManagement == 0
  {
    assert forall k :: k !in s.inFlight;
    assert WorkSerials(map[]) == {};
  }

  /** With prompt starts the limits are taken over with nothing in flight, so the work in flight
      fits at every moment of every connection. */
  lemma {:induction false} PromptRunsAlwaysFit(setup: Setup, events: seq<Event>, states: seq<State>, n: nat)
    requires IsRun(setup, events, states) && IsPrompt(events, states) && n < |states|
    ensures Fits(states[n])
    ensures n < |events| && TakesOver(setup, states[n], events[n]) ==> states[n].inFlight == map[]
  {
    hide Step, Enabled, Fits, Exact, Orderly, TakesOver, AllStarted;
    if n == 0 {
      BookkeepingIsExact(setup, events, states, 0);
      OpenedFits(setup, states[0]);
    } else {
      PromptRunsAlwaysFit(setup, events, states, n - 1);
      PromptStepFits(setup, events, states, n - 1);
    }
    if n < |events| && TakesOver(setup, states[n], events[n]) {
      TakeOverIsUnnegotiated(setup, events, states, n);
    }
  }

  lemma OpenedFits(setup: Setup, s: State)
    requires s == Opened(setup) && Orderly(setup, s)
    ensures Fits(s)
  {
  }

  lemma TakeOverIsUnnegotiated(setup: Setup, events: seq<Event>, states: seq<State>, n: nat)
    requires IsRun(setup, events, states) && IsPrompt(events, states)
    requires n < |events| && TakesOver(setup, states[n], events[n])
    ensures states[n].inFlight == map[] && states[n].activeNonManagement == 0
  {
    hide Step, Enabled, Exact, Orderly;
    BookkeepingIsExact(setup, events, states, n);
    LimitsStep(setup, states[n], events[n]);
    UnnegotiatedIsIdle(setup, states[n]);
  }

  lemma PromptStepFits(setup: Setup, events: seq<Event>, states: seq<State>, n: nat)
    requires IsRun(setup, events, states) && IsPrompt(events, states) && n < |events| && Fits(states[n])
    ensures Fits(states[n + 1])
  {
    hide Step, Enabled, Exact, TakesOver, WireLimits.Valid, Settled;
    BookkeepingIsExact(setup, events, states, n);
    BookkeepingIsExact(setup, events, states, n + 1);
    LimitsStep(setup, states[n], events[n]);
    if TakesOver(setup, states[n], events[n]) {
      TakeOverIsUnnegotiated(setup, events, states, n);
      ValidLimitsLeaveWork(states[n + 1].limits);
    } else {
      FitsWhileLimitsStay(setup, states[n], events[n]);
    }
  }

  lemma ValidLimitsLeaveWork(limits: WireLimits)
    requires limits.Valid()
    ensures limits.WorkCapacity() >= 1
  {
  }

  // --- Management headroom ---

  lemma InFlightSplits(inFlight: map<nat, Entry>)
    ensures |inFlight| == |WorkSerials(inFlight)| + |ManagementSerials(inFlight)|
  {
    assert inFlight.Keys == WorkSerials(inFlight) + ManagementSerials(inFlight);
    assert WorkSerials(inFlight) !! ManagementSerials(inFlight);
  }

  /** While the work in flight fits, a management request with a new id is refused only if the
      whole management reserve is already in use by management requests. */
  lemma ManagementHeadroom(setup: Setup, events: seq<Event>, states: seq<State>, n: nat,
                           requestId: int, request: WireRequest)
    requires IsRun(setup, events, states) && n < |states| && Fits(states[n])
    requires IsManagementRequest(request) && ReserveFault(states[n], requestId, request).Some?
    requires forall k | k in states[n].inFlight :: states[n].inFlight[k].requestId != requestId
    ensures |ManagementSerials(states[n].inFlight)| >= states[n].limits.managementReserved > 0
  {
    var s := states[n];
    BookkeepingIsExact(setup, events, states, n);
    AdmissionIsExact(s, requestId, request);
    InFlightSplits(s.inFlight);
    hide WorkSerials, ManagementSerials, Ids, NoSharedIds, ReserveFault;
  }

  /** With prompt starts the headroom is there from the first frame to the last, across the change
      of limits. */
  lemma PromptManagementHeadroom(setup: Setup, events: seq<Event>, states: seq<State>, n: nat,
                                 requestId: int, request: WireRequest)
    requires IsRun(setup, events, states) && IsPrompt(events, states) && n < |states|
    requires IsManagementRequest(request) && ReserveFault(states[n], requestId, request).Some?
    requires forall k | k in states[n].inFlight :: states[n].inFlight[k].requestId != requestId
    ensures |ManagementSerials(states[n].inFlight)| >= states[n].limits.managementReserved > 0
  {
    hide IsRun, IsPrompt, Fits, ReserveFault;
    PromptRunsAlwaysFit(setup, events, states, n);
    ManagementHeadroom(setup, events, states, n, requestId, request);
  }

  // --- The handshake gate ---

  ghost predicate AcknowledgedAt(setup: Setup, events: seq<Event>, states: seq<State>, i: nat)
    requires IsRun(setup, events, states) && i < |events|
  {
    DispatchOf(setup, states[i], events[i]).Some? && DispatchOf(setup, states[i], events[i]).value.Acknowledged?
  }

  ghost predicate ForwardedAt(setup: Setup, events: seq<Event>, states: seq<State>, i: nat)
    requires IsRun(setup, events, states) && i < |events|
  {
    DispatchOf(setup, states[i], events[i]).Some? && DispatchOf(setup, states[i], events[i]).value.Forwarded?
  }

  // Only an acknowledged initialise makes a connection negotiated.
  lemma NegotiatedStep(setup: Setup, events: seq<Event>, states: seq<State>, i: nat)
    requires IsRun(setup, events, states) && i < |events|
    ensures states[i + 1].dispatcher.negotiated
       <==> states[i].dispatcher.negotiated || AcknowledgedAt(setup, events, states, i)
    ensures AcknowledgedAt(setup, events, states, i) ==> !states[i].dispatcher.negotiated
    ensures ForwardedAt(setup, events, states, i) ==> states[i].dispatcher.negotiated
  {
    hide ReserveFault, WithEntry, Initialize;
  }

  lemma {:induction false} NegotiatedMeansAcknowledgedBefore(
      setup: Setup, events: seq<Event>, states: seq<State>, n: nat)
    requires IsRun(setup, events, states) && n <= |events|
    ensures states[n].dispatcher.negotiated
       <==> exists i | 0 <= i < n :: AcknowledgedAt(setup, events, states, i)
  {
    hide Step, DispatchStep, Enabled, AcknowledgedAt;
    if n > 0 {
      NegotiatedMeansAcknowledgedBefore(setup, events, states, n - 1);
      NegotiatedStep(setup, events, states, n - 1);
    }
  }

  /** In every connection, whatever the interleaving: at most one initialise succeeds, and no call
      reaches the backend or the resource handler before it. */
  lemma ConnectionGate(setup: Setup, events: seq<Event>, states: seq<State>, j: nat)
    requires IsRun(setup, events, states) && j < |events|
    ensures AcknowledgedAt(setup, events, states, j) ==>
              forall i | 0 <= i < j :: !AcknowledgedAt(setup, events, states, i)
    ensures ForwardedAt(setup, events, states, j) ==>
              exists i | 0 <= i < j :: AcknowledgedAt(setup, events, states, i)
  {
    hide Step, DispatchStep, Enabled, AcknowledgedAt, ForwardedAt;
    NegotiatedMeansAcknowledgedBefore(setup, events, states, j);
    NegotiatedStep(setup, events, states, j);
  }
}
