/** Request dispatch: one successful initialise per connection, and nothing served before it. */
module Dispatcher {
  import opened WireTypes
  import opened Handshake
  import C = FrameCodec

  // The requests this endpoint serves. Their contents other than the hello stay abstract.
  datatype WireRequest =
    | InitializeRequest(hello: Hello)
    | RunBatchRequest(batch: string)
    | CancelRunnerRequest(invocation: string)
    | DisposeRunnerRequest(runner: string)
    | ExportPlanRequest(plan: string)
    | CommandPlanRequest(plan: string)
    | CommandBatchRequest(plan: string)
    | SagaPlanRequest(plan: string)

  function OpcodeOf(r: WireRequest): C.Opcode {
    match r
    case InitializeRequest(_) => 0x0001
    case RunBatchRequest(_) => 0x1001
    case CancelRunnerRequest(_) => 0x1002
    case DisposeRunnerRequest(_) => 0x1003
    case ExportPlanRequest(_) => 0x3004
    case CommandPlanRequest(_) => 0x3006
    case CommandBatchRequest(_) => 0x3007
    case SagaPlanRequest(_) => 0x3008
  }

  predicate IsManagementRequest(r: WireRequest) {
    r.InitializeRequest? || r.CancelRunnerRequest? || r.DisposeRunnerRequest?
  }

  predicate NeedsHandler(r: WireRequest) {
    r.ExportPlanRequest? || r.CommandPlanRequest? || r.CommandBatchRequest? || r.SagaPlanRequest?
  }

  // What a connection is set up with.
  datatype Setup = Setup(codec: string, hasResourceHandler: bool, limits: WireLimits)

  datatype DispatcherState = DispatcherState(limits: WireLimits, negotiated: bool)

  // `Forwarded`: the backend or the resource handler was called.
  datatype Dispatched = Acknowledged(ack: Hello) | Refused(error: Failure) | Forwarded

  function Opening(setup: Setup): DispatcherState {
    DispatcherState(setup.limits, false)
  }

  function DispatchStep(setup: Setup, d: DispatcherState, r: WireRequest): (DispatcherState, Dispatched) {
    if r.InitializeRequest? then
      if d.negotiated then (d, Refused(AlreadyInitialized))
      else
        match Initialize(r.hello, setup.codec, d.limits)
        case Err(e) => (d, Refused(e))
        case Ok((ack, updated)) => (DispatcherState(updated, true), Acknowledged(ack))
    else if !d.negotiated then (d, Refused(NotInitialized))
    else if r.RunBatchRequest? || r.CancelRunnerRequest? || r.DisposeRunnerRequest? then (d, Forwarded)
    else if !setup.hasResourceHandler then (d, Refused(ResourceHandlerMissing))
    else (d, Forwarded)
  }

  class RunnerRequestDispatcher {
    const setup: Setup
    var limits: WireLimits
    var negotiated: bool

    function State(): DispatcherState
      reads this
    {
      DispatcherState(limits, negotiated)
    }

    constructor (setup: Setup)
      ensures this.setup == setup && State() == Opening(setup)
    {
      this.setup := setup;
      limits, negotiated := setup.limits, false;
    }

    // `dispatch` up to its call into the backend or the resource handler.
    method Dispatch(r: WireRequest) returns (outcome: Dispatched)
      modifies this
      ensures (State(), outcome) == DispatchStep(setup, old(State()), r)
    {
      if r.InitializeRequest? {
        if negotiated {
          return Refused(AlreadyInitialized);
        }
        var ack := Negotiate(r.hello, setup.codec, limits);
        if ack.Err? {
          return Refused(ack.error);
        }
        var updated := Negotiated(limits, ack.value);
        if updated.Err? {
          return Refused(updated.error);
        }
        limits := updated.value;
        negotiated := true;
        return Acknowledged(ack.value);
      }
      if !negotiated {
        return Refused(NotInitialized);
      }
      if r.RunBatchRequest? || r.CancelRunnerRequest? || r.DisposeRunnerRequest? {
        return Forwarded;
      }
      if !setup.hasResourceHandler {
        return Refused(ResourceHandlerMissing);
      }
      outcome := Forwarded;
    }
  }

  // --- Whole connections ---

  function After(setup: Setup, requests: seq<WireRequest>, n: nat): DispatcherState
    requires n <= |requests|
  {
    if n == 0 then Opening(setup)
    else DispatchStep(setup, After(setup, requests, n - 1), requests[n - 1]).0
  }

  function OutcomeOf(setup: Setup, requests: seq<WireRequest>, i: nat): Dispatched
    requires i < |requests|
  {
    DispatchStep(setup, After(setup, requests, i), requests[i]).1
  }

  /** A connection is negotiated exactly when some request has been acknowledged, and until then
      its limits are the ones it was set up with. */
  lemma {:induction false} NegotiatedMeansAcknowledged(setup: Setup, requests: seq<WireRequest>, n: nat)
    requires n <= |requests|
    ensures After(setup, requests, n).negotiated
       <==> exists i | 0 <= i < n :: OutcomeOf(setup, requests, i).Acknowledged?
    ensures !After(setup, requests, n).negotiated ==> After(setup, requests, n) == Opening(setup)
  {
    if n > 0 {
      NegotiatedMeansAcknowledged(setup, requests, n - 1);
      var before, r := After(setup, requests, n - 1), requests[n - 1];
      assert OutcomeOf(setup, requests, n - 1) == DispatchStep(setup, before, r).1;
    }
  }

  lemma {:induction false} NegotiatedIsFinal(setup: Setup, requests: seq<WireRequest>, m: nat, n: nat)
    requires m <= n <= |requests| && After(setup, requests, m).negotiated
    ensures After(setup, requests, n) == After(setup, requests, m)
  {
    if m < n {
      NegotiatedIsFinal(setup, requests, m, n - 1);
    }
  }

  /** The handshake gate. At most one initialise succeeds; whatever reaches the backend or the
      handler comes after it; from then on the limits stay what it made them. */
  lemma HandshakeGate(setup: Setup, requests: seq<WireRequest>, i: nat, j: nat)
    requires i < j < |requests|
    ensures OutcomeOf(setup, requests, i).Acknowledged? ==> !OutcomeOf(setup, requests, j).Acknowledged?
    ensures OutcomeOf(setup, requests, i).Acknowledged? ==>
              After(setup, requests, j) == After(setup, requests, i + 1)
    ensures OutcomeOf(setup, requests, j).Forwarded? ==>
              exists k | 0 <= k < j :: OutcomeOf(setup, requests, k).Acknowledged?
  {
    NegotiatedMeansAcknowledged(setup, requests, j);
    if OutcomeOf(setup, requests, i).Acknowledged? {
      NegotiatedIsFinal(setup, requests, i + 1, j);
    }
  }

  /** The request is an initialise that meets the negotiation's conditions. */
  predicate IsAcceptable(setup: Setup, r: WireRequest) {
    r.InitializeRequest? && Initialize(r.hello, setup.codec, setup.limits).Ok?
  }

  lemma DispatchOutcome(setup: Setup, d: DispatcherState, r: WireRequest)
    ensures DispatchStep(setup, d, r).1.Acknowledged?
       <==> r.InitializeRequest? && !d.negotiated && Initialize(r.hello, setup.codec, d.limits).Ok?
    ensures !DispatchStep(setup, d, r).1.Acknowledged? ==> DispatchStep(setup, d, r).0 == d
    ensures DispatchStep(setup, d, r).1.Forwarded?
       <==> && d.negotiated && !r.InitializeRequest?
            && (NeedsHandler(r) ==> setup.hasResourceHandler)
  {
  }

  /** In every connection: the request that is acknowledged is the first acceptable initialise,
      judged by the limits the connection opened with, however many were refused before it; and
      exactly the other requests after it are served, those for resources only with a handler. */
  lemma {:induction false} FirstAcceptableSucceeds(setup: Setup, requests: seq<WireRequest>, j: nat)
    requires j < |requests|
    ensures OutcomeOf(setup, requests, j).Acknowledged?
       <==> IsAcceptable(setup, requests[j]) && forall i | 0 <= i < j :: !IsAcceptable(setup, requests[i])
    ensures OutcomeOf(setup, requests, j).Forwarded?
       <==> && (exists i | 0 <= i < j :: IsAcceptable(setup, requests[i]))
            && !requests[j].InitializeRequest?
            && (NeedsHandler(requests[j]) ==> setup.hasResourceHandler)
  {
    hide DispatchStep, IsAcceptable, NeedsHandler;
    NegotiatedMeansAcceptable(setup, requests, j);
    OutcomeStep(setup, requests, j);
  }

  lemma OutcomeStep(setup: Setup, requests: seq<WireRequest>, j: nat)
    requires j < |requests|
    ensures OutcomeOf(setup, requests, j).Acknowledged?
       <==> IsAcceptable(setup, requests[j]) && !After(setup, requests, j).negotiated
    ensures OutcomeOf(setup, requests, j).Forwarded?
       <==> && After(setup, requests, j).negotiated && !requests[j].InitializeRequest?
            && (NeedsHandler(requests[j]) ==> setup.hasResourceHandler)
    ensures After(setup, requests, j + 1).negotiated
       <==> After(setup, requests, j).negotiated || IsAcceptable(setup, requests[j])
  {
    hide Initialize, NeedsHandler;
    NegotiatedMeansAcknowledged(setup, requests, j);
    DispatchOutcome(setup, After(setup, requests, j), requests[j]);
  }

  lemma {:induction false} NegotiatedMeansAcceptable(setup: Setup, requests: seq<WireRequest>, n: nat)
    requires n <= |requests|
    ensures After(setup, requests, n).negotiated <==> exists i | 0 <= i < n :: IsAcceptable(setup, requests[i])
  {
    hide DispatchStep, IsAcceptable;
    if n > 0 {
      NegotiatedMeansAcceptable(setup, requests, n - 1);
      OutcomeStep(setup, requests, n - 1);
    }
  }

  /** What is acknowledged is what was negotiated: the limits in force afterwards are those of the
      acknowledgement, each the smaller of the offer's and the opening ones, the others stay, and the
      peer accepts it. */
  lemma AcknowledgementIsInForce(setup: Setup, requests: seq<WireRequest>, j: nat)
    requires setup.limits.Valid() && j < |requests| && OutcomeOf(setup, requests, j).Acknowledged?
    ensures requests[j].InitializeRequest?
    ensures var (hello, ack) := (requests[j].hello, OutcomeOf(setup, requests, j).ack);
            && After(setup, requests, j + 1).limits == setup.limits.(
                 maxFrameBytes := ack.maxFrameBytes, maxPayloadBytes := ack.maxPayloadBytes,
                 maxInFlight := ack.maxInFlight, managementReserved := ack.managementReserved)
            && After(setup, requests, j + 1).limits.Valid()
            && IsMeet(ack.maxFrameBytes, hello.maxFrameBytes, setup.limits.maxFrameBytes)
            && IsMeet(ack.maxPayloadBytes, hello.maxPayloadBytes, setup.limits.maxPayloadBytes)
            && IsMeet(ack.maxInFlight, hello.maxInFlight, setup.limits.maxInFlight)
            && IsMeet(ack.managementReserved, hello.managementReserved, setup.limits.managementReserved)
            && ack.codecId == setup.codec && ack.featureFlags == hello.featureFlags
            && ValidateFor(ack, hello).None?
  {
    NegotiatedMeansAcknowledged(setup, requests, j);
    AcknowledgedStep(setup, requests[j]);
    hide Initialize, ValidateFor;
  }

  lemma AcknowledgedStep(setup: Setup, r: WireRequest)
    requires setup.limits.Valid() && DispatchStep(setup, Opening(setup), r).1.Acknowledged?
    ensures r.InitializeRequest?
    ensures var (after, outcome) := DispatchStep(setup, Opening(setup), r);
            var ack := outcome.ack;
            && after.negotiated && Initialize(r.hello, setup.codec, setup.limits) == Ok((ack, after.limits))
            && after.limits == setup.limits.(
                 maxFrameBytes := ack.maxFrameBytes, maxPayloadBytes := ack.maxPayloadBytes,
                 maxInFlight := ack.maxInFlight, managementReserved := ack.managementReserved)
            && after.limits.Valid()
            && IsMeet(ack.maxFrameBytes, r.hello.maxFrameBytes, setup.limits.maxFrameBytes)
            && IsMeet(ack.maxPayloadBytes, r.hello.maxPayloadBytes, setup.limits.maxPayloadBytes)
            && IsMeet(ack.maxInFlight, r.hello.maxInFlight, setup.limits.maxInFlight)
            && IsMeet(ack.managementReserved, r.hello.managementReserved, setup.limits.managementReserved)
            && ack.codecId == setup.codec && ack.featureFlags == r.hello.featureFlags
            && ValidateFor(ack, r.hello).None?
  {
    hide ValidateFor, Negotiate, Negotiated;
    InitializeIsSoundMeet(r.hello, setup.codec, setup.limits);
    InitializeAnswers(r.hello, setup.codec, setup.limits);
    NegotiateAnswers(r.hello, setup.codec, setup.limits, HasFeatures);
    hide Initialize;
  }

  /** Every refusal has its one reason: a request before the handshake, a second handshake, a resource
      request without a handler; and a refused initialise before success is told its own fault. */
  lemma RefusalsAreExact(setup: Setup, requests: seq<WireRequest>, j: nat)
    requires setup.limits.Valid() && j < |requests|
    ensures var (r, outcome) := (requests[j], OutcomeOf(setup, requests, j));
            var open := exists i | 0 <= i < j :: IsAcceptable(setup, requests[i]);
            && (outcome == Refused(NotInitialized) <==> !r.InitializeRequest? && !open)
            && (outcome == Refused(AlreadyInitialized) <==> r.InitializeRequest? && open)
            && (outcome == Refused(ResourceHandlerMissing) <==>
                  NeedsHandler(r) && open && !setup.hasResourceHandler)
            && (r.InitializeRequest? && !open && !IsAcceptable(setup, r) ==>
                  outcome == Refused(Initialize(r.hello, setup.codec, setup.limits).error))
  {
    NegotiatedMeansAcceptable(setup, requests, j);
    NegotiatedMeansAcknowledged(setup, requests, j);
    if requests[j].InitializeRequest? {
      InitializeAnswers(requests[j].hello, setup.codec, setup.limits);
    }
    hide Initialize, After;
  }
}
