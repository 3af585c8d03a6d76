/** Sagas: commands run in order; at the first failure every compensation is attempted, last first. */
module Sagas {
  import opened WireTypes
  import opened ResourceStore

  datatype CommandPlan = CommandPlan(
    planId: string, capability: ResourceRef, operation: string, args: string, idempotencyKey: Option<string>)

  datatype SagaPlan = SagaPlan(sagaId: string, steps: seq<CommandPlan>, compensations: seq<CommandPlan>)

  datatype Receipt = Receipt(planId: string, resource: ResourceRef, args: string, idempotencyKey: Option<string>)

  // `Refuses` is a `RunnerInvokeError`; `Breaks` is any other exception.
  datatype Response = Responds | Refuses(error: string) | Breaks(what: string)

  datatype Attempt = Done(receipt: Receipt) | Refused(error: string) | Broken(what: string)

  type Trace = seq<ResourceRef>

  // How a gateway answers its latest call, given every call so far.
  type Behaviour = Trace -> Response

  class Gateway {
    const behaviour: Behaviour
    var calls: Trace

    constructor (behaviour: Behaviour)
      ensures this.behaviour == behaviour && calls == []
    {
      this.behaviour := behaviour;
      calls := [];
    }

    method ReadResource(ref: ResourceRef) returns (r: Response)
      modifies this
      ensures calls == old(calls) + [ref] && r == behaviour(calls)
    {
      calls := calls + [ref];
      r := behaviour(calls);
    }
  }

  /** What executing `plan` leads to after `calls`. */
  function AttemptAfter(b: Behaviour, calls: Trace, plan: CommandPlan): Attempt {
    match b(calls + [plan.capability])
    case Refuses(error) => Refused(error)
    case Breaks(what) => Broken(what)
    case Responds =>
      if plan.capability.semantic != CapabilityResource then Refused("resource.semantic_mismatch")
      else if plan.operation != "query" then Refused("resource.command_unsupported")
      else Done(Receipt(plan.planId, plan.capability, plan.args, plan.idempotencyKey))
  }

  /** What the executor owes for `plan` when the gateway's read of its capability gave `response`: a
      receipt of a query on a capability resource, and otherwise the first reason against it. */
  predicate IsAnswer(plan: CommandPlan, response: Response, a: Attempt) {
    match response
    case Refuses(error) => a == Refused(error)
    case Breaks(what) => a == Broken(what)
    case Responds =>
      && (plan.capability.semantic != CapabilityResource ==> a == Refused("resource.semantic_mismatch"))
      && (plan.capability.semantic == CapabilityResource && plan.operation != "query" ==>
            a == Refused("resource.command_unsupported"))
      && (plan.capability.semantic == CapabilityResource && plan.operation == "query" ==>
            a == Done(Receipt(plan.planId, plan.capability, plan.args, plan.idempotencyKey)))
  }

  method ExecuteCommandPlan(g: Gateway, plan: CommandPlan) returns (a: Attempt)
    modifies g
    ensures g.calls == old(g.calls) + [plan.capability]
    ensures a == AttemptAfter(g.behaviour, old(g.calls), plan)
    ensures IsAnswer(plan, g.behaviour(g.calls), a)
  {
    var read := g.ReadResource(plan.capability);
    if read.Refuses? {
      return Refused(read.error);
    }
    if read.Breaks? {
      return Broken(read.what);
    }
    if plan.capability.semantic != CapabilityResource {
      return Refused("resource.semantic_mismatch");
    }
    if plan.operation != "query" {
      return Refused("resource.command_unsupported");
    }
    a := Done(Receipt(plan.planId, plan.capability, plan.args, plan.idempotencyKey));
  }

  // --- What a saga must do ---

  // The gateway calls that executing `plans` makes.
  function Calls(plans: seq<CommandPlan>): Trace {
    seq(|plans|, i requires 0 <= i < |plans| => plans[i].capability)
  }

  function Reversed(plans: seq<CommandPlan>): seq<CommandPlan> {
    seq(|plans|, i requires 0 <= i < |plans| => plans[|plans| - 1 - i])
  }

  /** Attempt `i` when `plans` are executed one after another from `calls` on. */
  function Nth(b: Behaviour, calls: Trace, plans: seq<CommandPlan>, i: nat): Attempt
    requires i < |plans|
  {
    AttemptAfter(b, calls + Calls(plans[..i]), plans[i])
  }

  /** The first `i` plans all yield receipts. */
  predicate Succeed(b: Behaviour, calls: Trace, plans: seq<CommandPlan>, i: nat)
    requires i <= |plans|
  {
    forall j | 0 <= j < i :: Nth(b, calls, plans, j).Done?
  }

  /** None of the first `i` plans breaks. */
  predicate Unbroken(b: Behaviour, calls: Trace, plans: seq<CommandPlan>, i: nat)
    requires i <= |plans|
  {
    forall j | 0 <= j < i :: !Nth(b, calls, plans, j).Broken?
  }

  function Refusals(b: Behaviour, calls: Trace, plans: seq<CommandPlan>, i: nat): set<nat>
    requires i <= |plans|
  {
    set j: nat | j < i && Nth(b, calls, plans, j).Refused?
  }

  datatype SagaResult =
    | Receipts(receipts: seq<Receipt>)
    | SagaFailed(failedStep: nat, compensationAttempts: nat, compensationFailures: nat, cause: string)
    | SagaBroken(what: string)

  /** The calls up to and including step `k`. */
  function ThroughStep(calls: Trace, saga: SagaPlan, k: nat): Trace
    requires k < |saga.steps|
  {
    calls + Calls(saga.steps[..k + 1])
  }

  predicate FailsAt(b: Behaviour, calls: Trace, saga: SagaPlan, k: nat)
    requires k < |saga.steps|
  {
    Succeed(b, calls, saga.steps, k) && Nth(b, calls, saga.steps, k).Refused?
  }

  /** All steps succeed: one receipt each, in order, and no compensation runs. */
  ghost predicate AllSucceed(b: Behaviour, calls: Trace, saga: SagaPlan, after: Trace, r: SagaResult) {
    && Succeed(b, calls, saga.steps, |saga.steps|)
    && r.Receipts? && |r.receipts| == |saga.steps|
    && (forall i | 0 <= i < |saga.steps| :: Nth(b, calls, saga.steps, i) == Done(r.receipts[i]))
    && after == calls + Calls(saga.steps)
  }

  /** Step `k` is the first to fail: the calls of steps 0 to `k`, then all compensations in
      reverse, each attempted once whatever the others do, and an exact report. */
  ghost predicate Compensates(b: Behaviour, calls: Trace, saga: SagaPlan, k: nat, after: Trace, r: SagaResult) {
    && k < |saga.steps| && FailsAt(b, calls, saga, k)
    && var (failed, undo) := (ThroughStep(calls, saga, k), Reversed(saga.compensations));
    && Unbroken(b, failed, undo, |undo|)
    && after == failed + Calls(undo)
    && r == SagaFailed(k, |saga.compensations|, |Refusals(b, failed, undo, |undo|)|,
                       Nth(b, calls, saga.steps, k).error)
  }

  /** Another kind of exception escapes at once: from step `k` before any compensation, or from
      compensation `m` of a failed saga. */
  ghost predicate BreaksInStep(b: Behaviour, calls: Trace, saga: SagaPlan, k: nat, after: Trace, r: SagaResult) {
    && k < |saga.steps| && Succeed(b, calls, saga.steps, k)
    && Nth(b, calls, saga.steps, k).Broken?
    && after == ThroughStep(calls, saga, k)
    && r == SagaBroken(Nth(b, calls, saga.steps, k).what)
  }

  ghost predicate BreaksInUndo(
      b: Behaviour, calls: Trace, saga: SagaPlan, k: nat, m: nat, after: Trace, r: SagaResult)
  {
    && k < |saga.steps| && FailsAt(b, calls, saga, k)
    && var (failed, undo) := (ThroughStep(calls, saga, k), Reversed(saga.compensations));
    && m < |undo| && Unbroken(b, failed, undo, m) && Nth(b, failed, undo, m).Broken?
    && after == failed + Calls(undo[..m + 1])
    && r == SagaBroken(Nth(b, failed, undo, m).what)
  }

  ghost predicate SagaOutcome(b: Behaviour, calls: Trace, saga: SagaPlan, after: Trace, r: SagaResult) {
    || AllSucceed(b, calls, saga, after, r)
    || (exists k :: Compensates(b, calls, saga, k, after, r))
    || (exists k :: BreaksInStep(b, calls, saga, k, after, r))
    || (exists k, m :: BreaksInUndo(b, calls, saga, k, m, after, r))
  }

  // --- The executor ---

  lemma CallsSnoc(plans: seq<CommandPlan>, i: nat)
    requires i < |plans|
    ensures Calls(plans[..i + 1]) == Calls(plans[..i]) + [plans[i].capability]
  {
  }

  method ExecuteSagaPlan(g: Gateway, saga: SagaPlan) returns (r: SagaResult)
    modifies g
    ensures SagaOutcome(g.behaviour, old(g.calls), saga, g.calls, r)
  {
    ghost var calls := g.calls;
    var receipts: seq<Receipt> := [];
    for i := 0 to |saga.steps|
      invariant g.calls == calls + Calls(saga.steps[..i]) && |receipts| == i
      invariant forall j | 0 <= j < i :: Nth(g.behaviour, calls, saga.steps, j) == Done(receipts[j])
    {
      CallsSnoc(saga.steps, i);
      var attempt := ExecuteCommandPlan(g, saga.steps[i]);
      assert attempt == Nth(g.behaviour, calls, saga.steps, i);
      assert g.calls == ThroughStep(calls, saga, i);
      if attempt.Broken? {
        assert BreaksInStep(g.behaviour, calls, saga, i, g.calls, SagaBroken(attempt.what));
        return SagaBroken(attempt.what);
      }
      if attempt.Refused? {
        r := Compensate(g, saga, i, attempt.error, calls);
        return;
      }
      receipts := receipts + [attempt.receipt];
    }
    assert saga.steps[..|saga.steps|] == saga.steps;
    r := Receipts(receipts);
  }

  // The `except` block: attempt every compensation, count the failures, report.
  method Compensate(g: Gateway, saga: SagaPlan, failedStep: nat, cause: string, ghost calls: Trace)
    returns (r: SagaResult)
    requires failedStep < |saga.steps| && FailsAt(g.behaviour, calls, saga, failedStep)
    requires cause == Nth(g.behaviour, calls, saga.steps, failedStep).error
    requires g.calls == ThroughStep(calls, saga, failedStep)
    modifies g
    ensures SagaOutcome(g.behaviour, calls, saga, g.calls, r)
  {
    var undo := Reversed(saga.compensations);
    ghost var failed := g.calls;
    var failures := 0;
    for j := 0 to |undo|
      invariant g.calls == failed + Calls(undo[..j])
      invariant Unbroken(g.behaviour, failed, undo, j)
      invariant failures == |Refusals(g.behaviour, failed, undo, j)|
    {
      CallsSnoc(undo, j);
      var attempt := ExecuteCommandPlan(g, undo[j]);
      assert attempt == Nth(g.behaviour, failed, undo, j);
      if attempt.Broken? {
        assert BreaksInUndo(g.behaviour, calls, saga, failedStep, j, g.calls, SagaBroken(attempt.what));
        return SagaBroken(attempt.what);
      }
      RefusalsSnoc(g.behaviour, failed, undo, j);
      if attempt.Refused? {
        failures := failures + 1;
      }
    }
    assert undo[..|undo|] == undo;
    r := SagaFailed(failedStep, |saga.compensations|, failures, cause);
    assert Compensates(g.behaviour, calls, saga, failedStep, g.calls, r);
  }

  lemma RefusalsSnoc(b: Behaviour, calls: Trace, plans: seq<CommandPlan>, i: nat)
    requires i < |plans|
    ensures |Refusals(b, calls, plans, i + 1)|
         == |Refusals(b, calls, plans, i)| + (if Nth(b, calls, plans, i).Refused? then 1 else 0)
  {
    var before := Refusals(b, calls, plans, i);
    assert Refusals(b, calls, plans, i + 1)
        == if Nth(b, calls, plans, i).Refused? then before + {i} else before;
  }

  /** For every gateway the outcome is determined: the description above leaves the executor no
      choice of calls, of report, or of whether to compensate. */
  lemma OutcomeIsDetermined(
      b: Behaviour, calls: Trace, saga: SagaPlan,
      after: Trace, r: SagaResult, otherAfter: Trace, other: SagaResult)
    requires SagaOutcome(b, calls, saga, after, r) && SagaOutcome(b, calls, saga, otherAfter, other)
    ensures after == otherAfter && r == other
  {
    if AllSucceed(b, calls, saga, after, r) {
      assert AllSucceed(b, calls, saga, otherAfter, other);
    } else {
      var k := StoppingStep(b, calls, saga, after, r);
      var j := StoppingStep(b, calls, saga, otherAfter, other);
      assert k == j;
      if Nth(b, calls, saga.steps, k).Refused? {
        OneUndo(b, calls, saga, k, after, r, otherAfter, other);
      }
    }
  }

  /** A saga whose step `k` is the first to fail compensates, unless a compensation breaks. */
  lemma FirstFailureCompensates(b: Behaviour, calls: Trace, saga: SagaPlan, k: nat, after: Trace, r: SagaResult)
    requires SagaOutcome(b, calls, saga, after, r)
    requires k < |saga.steps| && FailsAt(b, calls, saga, k)
    requires var undo := Reversed(saga.compensations);
             Unbroken(b, ThroughStep(calls, saga, k), undo, |undo|)
    ensures Compensates(b, calls, saga, k, after, r)
  {
    assert !AllSucceed(b, calls, saga, after, r);
    var j := StoppingStep(b, calls, saga, after, r);
    assert j == k;
  }

  // The step at which a saga that does not succeed stops.
  lemma StoppingStep(b: Behaviour, calls: Trace, saga: SagaPlan, after: Trace, r: SagaResult) returns (k: nat)
    requires SagaOutcome(b, calls, saga, after, r) && !AllSucceed(b, calls, saga, after, r)
    ensures k < |saga.steps| && Succeed(b, calls, saga.steps, k) && !Nth(b, calls, saga.steps, k).Done?
    ensures Nth(b, calls, saga.steps, k).Broken? ==> BreaksInStep(b, calls, saga, k, after, r)
    ensures Nth(b, calls, saga.steps, k).Refused? ==>
              || Compensates(b, calls, saga, k, after, r)
              || exists m :: BreaksInUndo(b, calls, saga, k, m, after, r)
  {
    if i :| Compensates(b, calls, saga, i, after, r) {
      k := i;
    } else if i :| BreaksInStep(b, calls, saga, i, after, r) {
      k := i;
    } else {
      var i, m :| BreaksInUndo(b, calls, saga, i, m, after, r);
      k := i;
    }
  }

  lemma OneUndo(
      b: Behaviour, calls: Trace, saga: SagaPlan, k: nat,
      after: Trace, r: SagaResult, otherAfter: Trace, other: SagaResult)
    requires || Compensates(b, calls, saga, k, after, r)
             || exists m :: BreaksInUndo(b, calls, saga, k, m, after, r)
    requires || Compensates(b, calls, saga, k, otherAfter, other)
             || exists m :: BreaksInUndo(b, calls, saga, k, m, otherAfter, other)
    ensures after == otherAfter && r == other
  {
    if m :| BreaksInUndo(b, calls, saga, k, m, after, r) {
      var n :| BreaksInUndo(b, calls, saga, k, n, otherAfter, other);
      assert m == n;
    }
  }

  // --- In plain terms ---

  /** The command goes through: the gateway responds, and it is a query on a capability resource. */
  predicate Passes(response: Response, plan: CommandPlan) {
    response.Responds? && plan.capability.semantic == CapabilityResource && plan.operation == "query"
  }

  lemma AttemptAnswers(b: Behaviour, calls: Trace, plan: CommandPlan)
    ensures IsAnswer(plan, b(calls + [plan.capability]), AttemptAfter(b, calls, plan))
    ensures AttemptAfter(b, calls, plan).Done? <==> Passes(b(calls + [plan.capability]), plan)
    ensures AttemptAfter(b, calls, plan).Broken? <==> b(calls + [plan.capability]).Breaks?
  {
  }

  /** The gateway's answer to call `m` of a trace. */
  function AnswerTo(b: Behaviour, trace: Trace, m: nat): Response
    requires m < |trace|
  {
    b(trace[..m + 1])
  }

  /** From call `from` on, the trace attempts the first `n` plans, and `attempts(i)` is what came of
      the `i`-th. */
  ghost predicate Attempted(b: Behaviour, after: Trace, from: nat, plans: seq<CommandPlan>, n: nat) {
    && n <= |plans| && from + n <= |after|
    && forall i | 0 <= i < n ::
         && after[from + i] == plans[i].capability
         && IsAnswer(plans[i], AnswerTo(b, after, from + i), Nth(b, after[..from], plans, i))
         && (Nth(b, after[..from], plans, i).Done? <==> Passes(AnswerTo(b, after, from + i), plans[i]))
         && (Nth(b, after[..from], plans, i).Broken? <==> AnswerTo(b, after, from + i).Breaks?)
  }

  lemma AttemptsAnswer(b: Behaviour, calls: Trace, plans: seq<CommandPlan>, n: nat, rest: Trace)
    requires n <= |plans|
    ensures Attempted(b, calls + Calls(plans[..n]) + rest, |calls|, plans, n)
    ensures (calls + Calls(plans[..n]) + rest)[..|calls|] == calls
  {
    var after := calls + Calls(plans[..n]) + rest;
    assert after[..|calls|] == calls;
    forall i | 0 <= i < n
      ensures && after[|calls| + i] == plans[i].capability
              && IsAnswer(plans[i], AnswerTo(b, after, |calls| + i), Nth(b, calls, plans, i))
              && (Nth(b, calls, plans, i).Done? <==> Passes(AnswerTo(b, after, |calls| + i), plans[i]))
              && (Nth(b, calls, plans, i).Broken? <==> AnswerTo(b, after, |calls| + i).Breaks?)
    {
      var before := calls + Calls(plans[..i]);
      assert after[..|calls| + i + 1] == before + [plans[i].capability];
      AttemptAnswers(b, before, plans[i]);
    }
  }

  // `SagaOutcome` by call numbers: the steps up to `k` and, after a failure, the compensations.
  lemma StepsAnswer(b: Behaviour, calls: Trace, saga: SagaPlan, k: nat, rest: Trace)
    requires k <= |saga.steps|
    ensures Attempted(b, calls + Calls(saga.steps[..k]) + rest, |calls|, saga.steps, k)
    ensures (calls + Calls(saga.steps[..k]) + rest)[..|calls|] == calls
    ensures |calls + Calls(saga.steps[..k]) + rest| == |calls| + k + |rest|
  {
    AttemptsAnswer(b, calls, saga.steps, k, rest);
  }

  /** A saga that does not return receipts has come to a first step that does not pass. */
  lemma StopAnswers(b: Behaviour, calls: Trace, saga: SagaPlan, after: Trace, r: SagaResult) returns (k: nat)
    requires SagaOutcome(b, calls, saga, after, r) && !r.Receipts?
    ensures k < |saga.steps| && |calls| + k < |after| && after[..|calls|] == calls
    ensures forall i | 0 <= i <= k :: after[|calls| + i] == saga.steps[i].capability
    ensures forall i | 0 <= i < k :: Passes(AnswerTo(b, after, |calls| + i), saga.steps[i])
    ensures !Passes(AnswerTo(b, after, |calls| + k), saga.steps[k])
  {
    hide Nth, Calls, AnswerTo, Reversed, Passes, IsAnswer, ThroughStep;
    var undo := Reversed(saga.compensations);
    if i: nat :| Compensates(b, calls, saga, i, after, r) {
      k := i;
      StepStops(b, calls, saga, k, Calls(undo));
    } else if i: nat :| BreaksInStep(b, calls, saga, i, after, r) {
      k := i;
      StepStops(b, calls, saga, k, []);
      assert after + [] == after;
    } else {
      var i: nat, n: nat :| BreaksInUndo(b, calls, saga, i, n, after, r);
      k := i;
      StepStops(b, calls, saga, k, Calls(undo[..n + 1]));
    }
    hide Compensates, BreaksInStep, BreaksInUndo, AllSucceed;
  }

  lemma StepStops(b: Behaviour, calls: Trace, saga: SagaPlan, k: nat, rest: Trace)
    requires k < |saga.steps| && Succeed(b, calls, saga.steps, k) && !Nth(b, calls, saga.steps, k).Done?
    ensures var after := ThroughStep(calls, saga, k) + rest;
            && |calls| + k < |after| && after[..|calls|] == calls
            && (forall i | 0 <= i <= k :: after[|calls| + i] == saga.steps[i].capability)
            && (forall i | 0 <= i < k :: Passes(AnswerTo(b, after, |calls| + i), saga.steps[i]))
            && !Passes(AnswerTo(b, after, |calls| + k), saga.steps[k])
  {
    hide Nth, Calls, AnswerTo, Passes, IsAnswer;
    StepsAnswer(b, calls, saga, k + 1, rest);
  }

  /** A saga that returns receipts has passed every step: one receipt for each, in order, after one
      call for each. */
  lemma ReceiptsAnswer(b: Behaviour, calls: Trace, saga: SagaPlan, after: Trace, r: SagaResult)
    requires SagaOutcome(b, calls, saga, after, r) && r.Receipts?
    ensures |r.receipts| == |saga.steps| && |after| == |calls| + |saga.steps| && after[..|calls|] == calls
    ensures forall i | 0 <= i < |saga.steps| ::
              && after[|calls| + i] == saga.steps[i].capability
              && Passes(AnswerTo(b, after, |calls| + i), saga.steps[i])
              && r.receipts[i] == Receipt(saga.steps[i].planId, saga.steps[i].capability, saga.steps[i].args,
                                          saga.steps[i].idempotencyKey)
  {
    hide Nth, Calls, AnswerTo;
    assert AllSucceed(b, calls, saga, after, r);
    assert saga.steps[..|saga.steps|] == saga.steps && after + [] == after;
    StepsAnswer(b, calls, saga, |saga.steps|, []);
  }

  /** The compensation attempted as number `j`: the last one comes first. */
  function Undo(saga: SagaPlan, j: nat): CommandPlan
    requires j < |saga.compensations|
  {
    saga.compensations[|saga.compensations| - 1 - j]
  }

  lemma ReversedIsLastFirst(saga: SagaPlan)
    ensures |Reversed(saga.compensations)| == |saga.compensations|
    ensures forall j | 0 <= j < |saga.compensations| :: Reversed(saga.compensations)[j] == Undo(saga, j)
  {
  }

  // The compensations among the calls of a trace that do not pass.
  function FailedUndos(b: Behaviour, after: Trace, from: nat, saga: SagaPlan): set<nat>
    requires from + |saga.compensations| == |after|
  {
    set j: nat | j < |saga.compensations| && !Passes(AnswerTo(b, after, from + j), Undo(saga, j))
  }

  /** A saga fails at the first step that does not pass. It has called for the steps up to that one and
      then for all compensations, last one first, and reports how many of those did not pass. */
  lemma FailureAnswers(b: Behaviour, calls: Trace, saga: SagaPlan, after: Trace, r: SagaResult)
    requires SagaOutcome(b, calls, saga, after, r) && r.SagaFailed?
    ensures r.failedStep < |saga.steps| && |after| == |calls| + r.failedStep + 1 + |saga.compensations|
    ensures after[..|calls|] == calls
    ensures forall i | 0 <= i <= r.failedStep :: after[|calls| + i] == saga.steps[i].capability
    ensures forall i | 0 <= i < r.failedStep :: Passes(AnswerTo(b, after, |calls| + i), saga.steps[i])
    ensures IsAnswer(saga.steps[r.failedStep], AnswerTo(b, after, |calls| + r.failedStep), Refused(r.cause))
    ensures forall j | 0 <= j < |saga.compensations| ::
              after[|calls| + r.failedStep + 1 + j] == Undo(saga, j).capability
    ensures r.compensationAttempts == |saga.compensations|
    ensures r.compensationFailures == |FailedUndos(b, after, |calls| + r.failedStep + 1, saga)|
  {
    hide Nth, Calls, AnswerTo, Reversed, Passes, IsAnswer, Undo;
    var k: nat :| Compensates(b, calls, saga, k, after, r);
    var (failed, undo) := (ThroughStep(calls, saga, k), Reversed(saga.compensations));
    ReversedIsLastFirst(saga);
    StepsAnswer(b, calls, saga, k + 1, Calls(undo));
    StepsAnswer(b, calls, saga, k + 1, []);
    assert failed + [] == failed;
    assert undo[..|undo|] == undo && after + [] == after;
    AttemptsAnswer(b, failed, undo, |undo|, []);
    CallsAreAsMany(undo);
    UndosAnswer(b, failed, saga, after);
  }

  lemma CallsAreAsMany(plans: seq<CommandPlan>)
    ensures |Calls(plans)| == |plans|
  {
  }

  lemma UndosAnswer(b: Behaviour, failed: Trace, saga: SagaPlan, after: Trace)
    requires |after| == |failed| + |saga.compensations| && after[..|failed|] == failed
    requires Attempted(b, after, |failed|, Reversed(saga.compensations), |saga.compensations|)
    requires var undo := Reversed(saga.compensations); Unbroken(b, failed, undo, |undo|)
    ensures forall j | 0 <= j < |saga.compensations| :: after[|failed| + j] == Undo(saga, j).capability
    ensures Refusals(b, failed, Reversed(saga.compensations), |saga.compensations|)
         == FailedUndos(b, after, |failed|, saga)
  {
    hide Nth, Calls, AnswerTo, Reversed, Passes, IsAnswer, Undo;
    ReversedIsLastFirst(saga);
  }

  /** Any other exception ends a saga at once: it is the gateway's answer to the last call. */
  lemma BreakAnswers(b: Behaviour, calls: Trace, saga: SagaPlan, after: Trace, r: SagaResult)
    requires SagaOutcome(b, calls, saga, after, r) && r.SagaBroken?
    ensures |after| > |calls| && after[..|calls|] == calls
    ensures AnswerTo(b, after, |after| - 1) == Breaks(r.what)
    ensures forall m | |calls| <= m < |after| - 1 :: !AnswerTo(b, after, m).Breaks?
  {
    if k: nat :| BreaksInStep(b, calls, saga, k, after, r) {
      StepBreakAnswers(b, calls, saga, k, after, r);
    } else {
      var k: nat, n: nat :| BreaksInUndo(b, calls, saga, k, n, after, r);
      UndoBreakAnswers(b, calls, saga, k, n, after, r);
    }
    hide BreaksInStep, BreaksInUndo, Compensates, AllSucceed;
  }

  lemma StepBreakAnswers(b: Behaviour, calls: Trace, saga: SagaPlan, k: nat, after: Trace, r: SagaResult)
    requires BreaksInStep(b, calls, saga, k, after, r)
    ensures |after| > |calls| && after[..|calls|] == calls
    ensures AnswerTo(b, after, |after| - 1) == Breaks(r.what)
    ensures forall m | |calls| <= m < |after| - 1 :: !AnswerTo(b, after, m).Breaks?
  {
    hide Nth, Calls, AnswerTo, Passes;
    StepsAnswer(b, calls, saga, k + 1, []);
    assert after + [] == after;
    hide IsAnswer;
    LastBreaks(b, after, |calls|, saga.steps, k);
  }

  lemma UndoBreakAnswers(b: Behaviour, calls: Trace, saga: SagaPlan, k: nat, n: nat, after: Trace, r: SagaResult)
    requires BreaksInUndo(b, calls, saga, k, n, after, r)
    ensures |after| > |calls| && after[..|calls|] == calls
    ensures AnswerTo(b, after, |after| - 1) == Breaks(r.what)
    ensures forall m | |calls| <= m < |after| - 1 :: !AnswerTo(b, after, m).Breaks?
  {
    hide Nth, Calls, AnswerTo, Reversed, Passes, IsAnswer;
    var (failed, undo) := (ThroughStep(calls, saga, k), Reversed(saga.compensations));
    StepsAnswer(b, calls, saga, k + 1, []);
    StepsAnswer(b, calls, saga, k + 1, Calls(undo[..n + 1]));
    CallsAreAsMany(undo[..n + 1]);
    assert failed + [] == failed && after + [] == after;
    AttemptsAnswer(b, failed, undo, n + 1, []);
    LastBreaks(b, after, |failed|, undo, n);
    NoneBreaks(b, after, |calls|, saga.steps, k + 1);
  }

  // Of the attempts from call `from` on, number `k` breaks and is the last.
  lemma LastBreaks(b: Behaviour, after: Trace, from: nat, plans: seq<CommandPlan>, k: nat)
    requires Attempted(b, after, from, plans, k + 1) && |after| == from + k + 1
    requires Unbroken(b, after[..from], plans, k) && Nth(b, after[..from], plans, k).Broken?
    ensures AnswerTo(b, after, |after| - 1) == Breaks(Nth(b, after[..from], plans, k).what)
    ensures forall m | from <= m < |after| - 1 :: !AnswerTo(b, after, m).Breaks?
  {
    hide Nth, AnswerTo, Passes;
    forall m | from <= m < |after| - 1 ensures !AnswerTo(b, after, m).Breaks? {
      assert !Nth(b, after[..from], plans, m - from).Broken?;
      assert from + (m - from) == m;
    }
    assert from + k == |after| - 1;
  }

  lemma NoneBreaks(b: Behaviour, after: Trace, from: nat, plans: seq<CommandPlan>, n: nat)
    requires Attempted(b, after, from, plans, n) && Unbroken(b, after[..from], plans, n)
    ensures forall m | from <= m < from + n :: !AnswerTo(b, after, m).Breaks?
  {
    hide Nth, AnswerTo, Passes, IsAnswer;
    forall m | from <= m < from + n ensures !AnswerTo(b, after, m).Breaks? {
      assert !Nth(b, after[..from], plans, m - from).Broken?;
      assert from + (m - from) == m;
    }
  }
}
