/** The backend's record of running invocations and of cancels that arrived before their run. */
module CancelLedger {

  type RunnerId = string
  type Invocation = (RunnerId, string)  // a runner and an invocation id

  datatype Context = Context(invocationId: string, taskLeaseIds: seq<string>, cancelRequested: bool)

  datatype Ledger = Ledger(runners: set<RunnerId>, active: set<Invocation>, pending: set<Invocation>)

  // The atomic stretches of the backend's coroutines: a run is its start and its end.
  datatype Event =
    | Register(runner: RunnerId)
    | Begin(runner: RunnerId, ctx: Context, batchLeaseIds: seq<string>)
    | End(invocation: Invocation)
    | Cancel(runner: RunnerId, invocationId: string)
    | Dispose(runner: RunnerId)

  // `Started` carries the cancel flag that the runner is handed.
  datatype Reply = Done | Started(cancelRequested: bool) | ClaimConflict | RunnerNotFound | Exhausted

  const EMPTY := Ledger({}, {}, {})

  function Step(l: Ledger, e: Event, limit: nat): (Ledger, Reply) {
    match e
    case Register(runner) => (l.(runners := l.runners + {runner}), Done)
    case Begin(runner, ctx, batchLeaseIds) =>
      var invocation := (runner, ctx.invocationId);
      if batchLeaseIds != ctx.taskLeaseIds || invocation in l.active then (l, ClaimConflict)
      else
        var taken := l.(pending := l.pending - {invocation});
        if runner !in l.runners then (taken, RunnerNotFound)
        else (taken.(active := l.active + {invocation}),
              Started(ctx.cancelRequested || invocation in l.pending))
    case End(invocation) => (l.(active := l.active - {invocation}), Done)
    case Cancel(runner, invocationId) =>
      var invocation := (runner, invocationId);
      if runner !in l.runners then (l, RunnerNotFound)
      else if invocation in l.active then (l, Done)
      else if invocation !in l.pending && |l.pending| >= limit then (l, Exhausted)
      else (l.(pending := l.pending + {invocation}), Done)
    case Dispose(runner) =>
      if runner !in l.runners then (l, RunnerNotFound)
      else (l.(pending := set p | p in l.pending && p.0 != runner), Done)
  }

  class PythonRunnerBackend<R> {
    var runners: map<RunnerId, R>
    var cancelledInvocations: set<Invocation>
    var activeInvocations: set<Invocation>
    const maxPendingCancels: nat

    function State(): Ledger
      reads this
    {
      Ledger(runners.Keys, activeInvocations, cancelledInvocations)
    }

    constructor (maxPendingCancels: nat)
      requires maxPendingCancels > 0
      ensures State() == EMPTY && this.maxPendingCancels == maxPendingCancels
    {
      runners, cancelledInvocations, activeInvocations := map[], {}, {};
      this.maxPendingCancels := maxPendingCancels;
    }

    method RegisterRunner(id: RunnerId, runner: R)
      modifies this
      ensures State() == Step(old(State()), Register(id), maxPendingCancels).0
      ensures runners == old(runners)[id := runner]
    {
      runners := runners[id := runner];
    }

    // `run_batch_runner` up to the point where it awaits the runner.
    method BeginRun(runnerId: RunnerId, ctx: Context, batchLeaseIds: seq<string>) returns (r: Reply)
      modifies this`activeInvocations, this`cancelledInvocations
      ensures (State(), r) == Step(old(State()), Begin(runnerId, ctx, batchLeaseIds), maxPendingCancels)
    {
      if batchLeaseIds != ctx.taskLeaseIds {
        return ClaimConflict;
      }
      var invocation := (runnerId, ctx.invocationId);
      if invocation in activeInvocations {
        return ClaimConflict;
      }
      var cancelRequested := ctx.cancelRequested || invocation in cancelledInvocations;
      cancelledInvocations := cancelledInvocations - {invocation};
      if runnerId !in runners {
        return RunnerNotFound;
      }
      activeInvocations := activeInvocations + {invocation};
      r := Started(cancelRequested);
    }

    // The `finally` of `run_batch_runner`.
    method EndRun(invocation: Invocation)
      modifies this`activeInvocations
      ensures State() == Step(old(State()), End(invocation), maxPendingCancels).0
    {
      activeInvocations := activeInvocations - {invocation};
    }

    method CancelRunner(runnerId: RunnerId, invocationId: string) returns (r: Reply)
      modifies this`cancelledInvocations
      ensures (State(), r) == Step(old(State()), Cancel(runnerId, invocationId), maxPendingCancels)
    {
      if runnerId !in runners {
        return RunnerNotFound;
      }
      var invocation := (runnerId, invocationId);
      if && invocation !in activeInvocations
         && invocation !in cancelledInvocations
         && |cancelledInvocations| >= maxPendingCancels {
        return Exhausted;
      }
      if invocation !in activeInvocations {
        cancelledInvocations := cancelledInvocations + {invocation};
      }
      r := Done;
    }

    method DisposeRunner(runnerId: RunnerId) returns (r: Reply)
      modifies this`cancelledInvocations
      ensures (State(), r) == Step(old(State()), Dispose(runnerId), maxPendingCancels)
    {
      if runnerId !in runners {
        return RunnerNotFound;
      }
      cancelledInvocations := set p | p in cancelledInvocations && p.0 != runnerId;
      r := Done;
    }
  }

  // --- Histories ---

  /** The ledger after the first `n` events. */
  function After(events: seq<Event>, n: nat, limit: nat): Ledger
    requires n <= |events|
  {
    if n == 0 then EMPTY else Step(After(events, n - 1, limit), events[n - 1], limit).0
  }

  function ReplyTo(events: seq<Event>, i: nat, limit: nat): Reply
    requires i < |events|
  {
    Step(After(events, i, limit), events[i], limit).1
  }

  predicate StartedAt(events: seq<Event>, i: nat, p: Invocation, limit: nat)
    requires i < |events|
  {
    && events[i].Begin? && (events[i].runner, events[i].ctx.invocationId) == p
    && ReplyTo(events, i, limit).Started?
  }

  predicate EndedAt(events: seq<Event>, i: nat, p: Invocation)
    requires i < |events|
  {
    events[i] == End(p)
  }

  /** Before event `n`, some accepted start of `p` has not ended. */
  predicate Running(events: seq<Event>, n: nat, p: Invocation, limit: nat)
    requires n <= |events|
  {
    exists i | 0 <= i < n :: StartedAt(events, i, p, limit) && forall j | i < j < n :: !EndedAt(events, j, p)
  }

  /** A cancel of `p` was accepted while `p` was not running. */
  predicate BankedAt(events: seq<Event>, i: nat, p: Invocation, limit: nat)
    requires i < |events|
  {
    && events[i].Cancel? && (events[i].runner, events[i].invocationId) == p
    && ReplyTo(events, i, limit).Done?
    && !Running(events, i, p, limit)
  }

  /** `p` was started, or its runner disposed. */
  predicate ClearedAt(events: seq<Event>, i: nat, p: Invocation, limit: nat)
    requires i < |events|
  {
    || StartedAt(events, i, p, limit)
    || (events[i] == Dispose(p.0) && ReplyTo(events, i, limit).Done?)
  }

  /** Before event `n`, `p` has a banked cancel that neither a start nor a dispose has cleared. */
  predicate Banked(events: seq<Event>, n: nat, p: Invocation, limit: nat)
    requires n <= |events|
  {
    exists i | 0 <= i < n :: BankedAt(events, i, p, limit) && forall j | i < j < n :: !ClearedAt(events, j, p, limit)
  }

  lemma RunningStep(events: seq<Event>, n: nat, p: Invocation, limit: nat)
    requires 0 < n <= |events|
    ensures Running(events, n, p, limit)
       <==> || StartedAt(events, n - 1, p, limit)
            || (Running(events, n - 1, p, limit) && !EndedAt(events, n - 1, p))
  {
  }

  lemma BankedStep(events: seq<Event>, n: nat, p: Invocation, limit: nat)
    requires 0 < n <= |events|
    ensures Banked(events, n, p, limit)
       <==> || BankedAt(events, n - 1, p, limit)
            || (Banked(events, n - 1, p, limit) && !ClearedAt(events, n - 1, p, limit))
  {
  }

  /** A run and a pending cancel never coexist, pending cancels are bounded, and only registered
      runners have any. */
  predicate Consistent(l: Ledger, limit: nat) {
    && l.active !! l.pending
    && |l.pending| <= limit
    && forall p | p in l.pending :: p.0 in l.runners
  }

  lemma StepStaysConsistent(l: Ledger, e: Event, limit: nat)
    requires Consistent(l, limit)
    ensures Consistent(Step(l, e, limit).0, limit)
  {
    var after := Step(l, e, limit).0;
    if after.pending <= l.pending {
      SubsetIsSmaller(after.pending, l.pending);
    }
  }

  lemma {:induction false} SubsetIsSmaller<T>(a: set<T>, b: set<T>)
    requires a <= b
    ensures |a| <= |b|
  {
    assert b == a + (b - a);
  }

  lemma {:induction false} AlwaysConsistent(events: seq<Event>, n: nat, limit: nat)
    requires n <= |events|
    ensures Consistent(After(events, n, limit), limit)
  {
    if n > 0 {
      AlwaysConsistent(events, n - 1, limit);
      StepStaysConsistent(After(events, n - 1, limit), events[n - 1], limit);
    }
  }

  // What one event does to one invocation.
  lemma ActiveStep(events: seq<Event>, n: nat, p: Invocation, limit: nat)
    requires 0 < n <= |events|
    ensures p in After(events, n, limit).active
       <==> || StartedAt(events, n - 1, p, limit)
            || (p in After(events, n - 1, limit).active && !EndedAt(events, n - 1, p))
  {
  }

  lemma PendingStep(events: seq<Event>, n: nat, p: Invocation, limit: nat)
    requires 0 < n <= |events| && Consistent(After(events, n - 1, limit), limit)
    requires p in After(events, n - 1, limit).active <==> Running(events, n - 1, p, limit)
    ensures p in After(events, n, limit).pending
       <==> || BankedAt(events, n - 1, p, limit)
            || (p in After(events, n - 1, limit).pending && !ClearedAt(events, n - 1, p, limit))
  {
    hide Running, Step;
    PendingAfterStep(After(events, n - 1, limit), events[n - 1], p, limit);
  }

  lemma PendingAfterStep(l: Ledger, e: Event, p: Invocation, limit: nat)
    requires Consistent(l, limit)
    ensures p in Step(l, e, limit).0.pending
       <==> || (e == Cancel(p.0, p.1) && Step(l, e, limit).1.Done? && p !in l.active)
            || (&& p in l.pending
                && !(e.Begin? && (e.runner, e.ctx.invocationId) == p && Step(l, e, limit).1.Started?)
                && !(e == Dispose(p.0) && Step(l, e, limit).1.Done?))
  {
  }

  /** Over every run the two sets say exactly what the history says. */
  lemma {:induction false} LedgerIsHistory(events: seq<Event>, n: nat, p: Invocation, limit: nat)
    requires n <= |events|
    ensures p in After(events, n, limit).active <==> Running(events, n, p, limit)
    ensures p in After(events, n, limit).pending <==> Banked(events, n, p, limit)
  {
    if n > 0 {
      LedgerIsHistory(events, n - 1, p, limit);
      AlwaysConsistent(events, n - 1, limit);
      RunningStep(events, n, p, limit);
      BankedStep(events, n, p, limit);
      ActiveStep(events, n, p, limit);
      PendingStep(events, n, p, limit);
    }
    hide Step, Running, Banked, StartedAt, BankedAt, ClearedAt;
  }

  /** The flag a runner is handed: the context's own, or a cancel accepted while the invocation
      was inactive, since its last accepted start and its runner's last dispose. */
  lemma CancelFlagIsHistory(events: seq<Event>, i: nat, p: Invocation, limit: nat)
    requires i < |events| && StartedAt(events, i, p, limit)
    ensures ReplyTo(events, i, limit)
         == Started(events[i].ctx.cancelRequested || Banked(events, i, p, limit))
    ensures !Running(events, i, p, limit)
  {
    LedgerIsHistory(events, i, p, limit);
  }

  /** Discarding before the runner is looked up loses nothing: a start that finds no runner
      leaves the whole ledger as it was. */
  lemma RefusedStartChangesNothing(events: seq<Event>, i: nat, limit: nat)
    requires i < |events| && events[i].Begin? && !ReplyTo(events, i, limit).Started?
    ensures After(events, i + 1, limit) == After(events, i, limit)
  {
    AlwaysConsistent(events, i, limit);
  }

  predicate RegisteredBefore(events: seq<Event>, n: nat, runner: RunnerId)
    requires n <= |events|
  {
    exists i | 0 <= i < n :: events[i] == Register(runner)
  }

  lemma RunnersStep(l: Ledger, e: Event, limit: nat)
    ensures Step(l, e, limit).0.runners == if e.Register? then l.runners + {e.runner} else l.runners
  {
  }

  lemma {:induction false} RegisteredIsHistory(events: seq<Event>, n: nat, runner: RunnerId, limit: nat)
    requires n <= |events|
    ensures runner in After(events, n, limit).runners <==> RegisteredBefore(events, n, runner)
  {
    if n > 0 {
      RegisteredIsHistory(events, n - 1, runner, limit);
      RunnersStep(After(events, n - 1, limit), events[n - 1], limit);
    }
    hide Step;
  }

  /** A start is accepted exactly for the leases it claims, on a registered runner, while its
      invocation is not running; claimed leases and a running invocation conflict before the runner
      is looked for. */
  lemma StartAnswers(events: seq<Event>, i: nat, limit: nat)
    requires i < |events| && events[i].Begin?
    ensures var (e, p) := (events[i], (events[i].runner, events[i].ctx.invocationId));
            var free := e.batchLeaseIds == e.ctx.taskLeaseIds && !Running(events, i, p, limit);
            && (ReplyTo(events, i, limit).Started? <==> free && RegisteredBefore(events, i, e.runner))
            && (ReplyTo(events, i, limit).ClaimConflict? <==> !free)
            && (ReplyTo(events, i, limit).RunnerNotFound? <==> free && !RegisteredBefore(events, i, e.runner))
  {
    LedgerIsHistory(events, i, (events[i].runner, events[i].ctx.invocationId), limit);
    RegisteredIsHistory(events, i, events[i].runner, limit);
    hide After, Running, RegisteredBefore;
  }

  /** A cancel is done exactly when its runner is registered and its invocation is running, is banked
      already, or can be banked beside fewer than `limit` others; `banked` are those others. */
  lemma CancelAnswers(events: seq<Event>, i: nat, banked: set<Invocation>, limit: nat)
    requires i < |events| && events[i].Cancel?
    requires forall p :: p in banked <==> Banked(events, i, p, limit)
    ensures var (e, p) := (events[i], (events[i].runner, events[i].invocationId));
            var room := Running(events, i, p, limit) || p in banked || |banked| < limit;
            && (ReplyTo(events, i, limit).RunnerNotFound? <==> !RegisteredBefore(events, i, e.runner))
            && (ReplyTo(events, i, limit).Exhausted? <==> RegisteredBefore(events, i, e.runner) && !room)
            && (ReplyTo(events, i, limit).Done? <==> RegisteredBefore(events, i, e.runner) && room)
  {
    var p := (events[i].runner, events[i].invocationId);
    LedgerIsHistory(events, i, p, limit);
    RegisteredIsHistory(events, i, events[i].runner, limit);
    AlwaysConsistent(events, i, limit);
    forall q ensures q in banked <==> q in After(events, i, limit).pending {
      LedgerIsHistory(events, i, q, limit);
    }
    assert banked == After(events, i, limit).pending;
    hide After, Running, RegisteredBefore, Banked;
  }

  /** A dispose is done exactly on a registered runner; registrations and ends always are. */
  lemma OtherAnswers(events: seq<Event>, i: nat, limit: nat)
    requires i < |events| && !events[i].Begin? && !events[i].Cancel?
    ensures ReplyTo(events, i, limit)
         == if events[i].Dispose? && !RegisteredBefore(events, i, events[i].runner) then RunnerNotFound else Done
  {
    if events[i].Dispose? {
      RegisteredIsHistory(events, i, events[i].runner, limit);
    }
    hide After, RegisteredBefore;
  }
}
