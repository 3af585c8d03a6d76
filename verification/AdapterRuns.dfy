/** Whole runs of the adapter: its tables stay linked, tasks do not disturb each other, and a
    task driven by polls behaves as if its coroutine had run straight through. */
module AdapterRuns {
  import opened AsyncAdapter
  import opened WireTypes
  import opened Ids

  datatype Event =
    | Run(ctx: RunnerContext, task: Task, client: Client)
    | CancelCall(invocationId: string)
    | DisposeCall

  // A run's reply, or `None` for a cancel or dispose.
  function Next<S>(p: Program<S>, t: Tables<S>, e: Event): (Tables<S>, Option<Reply>) {
    match e
    case Run(ctx, task, client) =>
      var (after, reply) := RunOneStep(p, t, ctx, task, client);
      (after, Some(reply))
    case CancelCall(invocationId) => (CancelInvocation(t, invocationId), None)
    case DisposeCall => (Tables(map[], map[]), None)
  }

  // A program and everything that was done to its adapter.
  datatype History<!S> = History(program: Program<S>, events: seq<Event>) {
    function After(n: nat): Tables<S>
      requires n <= |events|
    {
      if n == 0 then Tables(map[], map[]) else Next(program, After(n - 1), events[n - 1]).0
    }

    function ReplyTo(i: nat): Option<Reply>
      requires i < |events|
    {
      Next(program, After(i), events[i]).1
    }

    predicate Polls(i: nat, id: TaskId)
      requires i < |events|
    {
      events[i].Run? && events[i].task.taskId == id
    }

    /** A poll of `id` that comes before the awaited outcome is known. */
    predicate Early(i: nat, id: TaskId)
      requires i < |events|
    {
      && Polls(i, id) && id in After(i).invocations
      && var pending := After(i).invocations[id].pending;
      && pending.Some? && events[i].client(pending.value.await.child.taskId).None?
    }

    /** Event `i` ran its task under `invocationId`. */
    predicate Tracks(i: nat, invocationId: string)
      requires i < |events|
    {
      && events[i].Run? && events[i].ctx.invocationId == invocationId != ""
      && (|| events[i].task.taskId in After(i).invocations
          || program.launch(events[i].ctx, events[i].task).Launched?)
    }

    /** Resumptions of `id` in events `b` to `n`. */
    function Sends(b: nat, n: nat, id: TaskId): nat
      requires b <= n <= |events|
    {
      if n == b then 0 else Sends(b, n - 1, id) + (if Polls(n - 1, id) && !Early(n - 1, id) then 1 else 0)
    }

    /** Child tasks submitted by waiting replies about `id` in events `b` to `n`. */
    function Emitted(b: nat, n: nat, id: TaskId): seq<Task>
      requires b <= n <= |events|
    {
      if n == b then []
      else
        var reply := ReplyTo(n - 1);
        Emitted(b, n - 1, id)
        + (if Polls(n - 1, id) && reply.value.Waiting? then reply.value.tasks else [])
    }
  }

  // --- Table consistency and isolation ---

  predicate Linked<S>(t: Tables<S>) {
    forall i | i in t.tasks :: t.tasks[i] in t.invocations
  }

  /** Every invocation id points to a coroutine in progress, after any run. */
  lemma {:induction false} TablesStayLinked<S>(h: History<S>, n: nat)
    requires n <= |h.events|
    ensures Linked(h.After(n))
  {
    if n > 0 {
      TablesStayLinked(h, n - 1);
      StepStaysLinked(h.program, h.After(n - 1), h.events[n - 1]);
    }
  }

  lemma RemoveStaysLinked<S>(t: Tables<S>, id: TaskId)
    requires Linked(t)
    ensures Linked(Remove(t, id))
  {
  }

  lemma PollStaysLinked<S>(p: Program<S>, t: Tables<S>, id: TaskId, client: Client)
    requires Linked(t) && id in t.invocations
    ensures Linked(Poll(p, t, id, client).0)
  {
    RemoveStaysLinked(t, id);
    hide Remove;
  }

  lemma StepStaysLinked<S>(p: Program<S>, t: Tables<S>, e: Event)
    requires Linked(t)
    ensures Linked(Next(p, t, e).0)
  {
    match e
    case Run(ctx, task, client) =>
      var id := task.taskId;
      if id in t.invocations {
        PollStaysLinked(p, Track(t, id, ctx.invocationId), id, client);
      } else if p.launch(ctx, task).Launched? {
        var stored := Store(t, id, Suspended(p.launch(ctx, task).coroutine, None));
        PollStaysLinked(p, Track(stored, id, ctx.invocationId), id, client);
      }
      hide Poll;
    case CancelCall(invocationId) =>
      if invocationId in t.tasks {
        RemoveStaysLinked(t, t.tasks[invocationId]);
      }
    case DisposeCall =>
  }

  // `e` is about the coroutine of `id`.
  predicate Concerns<S>(t: Tables<S>, e: Event, id: TaskId) {
    match e
    case Run(_, task, _) => task.taskId == id
    case CancelCall(invocationId) => invocationId in t.tasks && t.tasks[invocationId] == id
    case DisposeCall => true
  }

  /** What is not about a task leaves its stored coroutine as it is. */
  lemma StepsAreIsolated<S>(p: Program<S>, t: Tables<S>, e: Event, id: TaskId)
    requires !Concerns(t, e, id)
    ensures id in Next(p, t, e).0.invocations <==> id in t.invocations
    ensures id in t.invocations ==> Next(p, t, e).0.invocations[id] == t.invocations[id]
    ensures e.CancelCall? ==> forall i | i in t.tasks && t.tasks[i] == id ::
              i in Next(p, t, e).0.tasks && Next(p, t, e).0.tasks[i] == id
  {
    match e
    case Run(ctx, task, client) =>
      if task.taskId in t.invocations {
        PollIsIsolated(p, Track(t, task.taskId, ctx.invocationId), task.taskId, client, id);
      } else if p.launch(ctx, task).Launched? {
        var stored := Store(t, task.taskId, Suspended(p.launch(ctx, task).coroutine, None));
        PollIsIsolated(p, Track(stored, task.taskId, ctx.invocationId), task.taskId, client, id);
      }
      hide Poll;
    case CancelCall(_) =>
    case DisposeCall =>
  }

  lemma PollIsIsolated<S>(p: Program<S>, t: Tables<S>, id: TaskId, client: Client, other: TaskId)
    requires id in t.invocations && other != id
    ensures other in Poll(p, t, id, client).0.invocations <==> other in t.invocations
    ensures other in t.invocations ==> Poll(p, t, id, client).0.invocations[other] == t.invocations[other]
  {
  }

  lemma PollKeepsOwners<S>(p: Program<S>, t: Tables<S>, id: TaskId, client: Client, invocationId: string)
    requires id in t.invocations && invocationId in Poll(p, t, id, client).0.tasks
    ensures invocationId in t.tasks && t.tasks[invocationId] == Poll(p, t, id, client).0.tasks[invocationId]
  {
  }

  // An owner is either set by the step or was there before it.
  lemma OwnerStep<S>(h: History<S>, n: nat, invocationId: string)
    requires n < |h.events| && invocationId in h.After(n + 1).tasks
    ensures h.Tracks(n, invocationId) ==>
              h.After(n + 1).tasks[invocationId] == h.events[n].task.taskId
    ensures !h.Tracks(n, invocationId) ==>
              && invocationId in h.After(n).tasks
              && h.After(n).tasks[invocationId] == h.After(n + 1).tasks[invocationId]
  {
    var t, e := h.After(n), h.events[n];
    assert h.After(n + 1) == Next(h.program, t, e).0;
    if e.Run? {
      var id := e.task.taskId;
      if id in t.invocations {
        PollKeepsOwners(h.program, Track(t, id, e.ctx.invocationId), id, e.client, invocationId);
      } else if h.program.launch(e.ctx, e.task).Launched? {
        var stored := Store(t, id, Suspended(h.program.launch(e.ctx, e.task).coroutine, None));
        PollKeepsOwners(h.program, Track(stored, id, e.ctx.invocationId), id, e.client, invocationId);
      }
      hide Poll;
    }
  }

  lemma {:induction false} OwnerWasTracked<S>(h: History<S>, n: nat, invocationId: string) returns (k: nat)
    requires n <= |h.events| && invocationId in h.After(n).tasks
    ensures k < n && h.Tracks(k, invocationId)
    ensures h.events[k].task.taskId == h.After(n).tasks[invocationId]
    ensures forall j | k < j < n :: !h.Tracks(j, invocationId)
  {
    hide Next;
    OwnerStep(h, n - 1, invocationId);
    if h.Tracks(n - 1, invocationId) {
      k := n - 1;
    } else {
      k := OwnerWasTracked(h, n - 1, invocationId);
    }
  }

  lemma PollKeepsLiveOwners<S>(p: Program<S>, t: Tables<S>, id: TaskId, client: Client, invocationId: string)
    requires id in t.invocations && invocationId in t.tasks && t.tasks[invocationId] == id
    requires id in Poll(p, t, id, client).0.invocations
    ensures invocationId in Poll(p, t, id, client).0.tasks
    ensures Poll(p, t, id, client).0.tasks[invocationId] == id
  {
  }

  /** A run that leaves its coroutine in progress can be cancelled under its invocation id. */
  lemma RunIsCancellable<S>(h: History<S>, n: nat)
    requires n < |h.events| && h.events[n].Run? && h.Tracks(n, h.events[n].ctx.invocationId)
    requires h.events[n].task.taskId in h.After(n + 1).invocations
    ensures h.events[n].ctx.invocationId in h.After(n + 1).tasks
    ensures h.After(n + 1).tasks[h.events[n].ctx.invocationId] == h.events[n].task.taskId
  {
    var t, e := h.After(n), h.events[n];
    var id, invocationId := e.task.taskId, e.ctx.invocationId;
    assert h.After(n + 1) == Next(h.program, t, e).0;
    if id in t.invocations {
      PollKeepsLiveOwners(h.program, Track(t, id, invocationId), id, e.client, invocationId);
    } else {
      var stored := Store(t, id, Suspended(h.program.launch(e.ctx, e.task).coroutine, None));
      PollKeepsLiveOwners(h.program, Track(stored, id, invocationId), id, e.client, invocationId);
    }
    hide Poll;
  }

  /** Cancelling an invocation removes the task last run under it, with every invocation id that
      points to that task, and nothing else. */
  lemma CancelRemovesLastTracked<S>(h: History<S>, n: nat, invocationId: string)
    requires n < |h.events| && h.events[n] == CancelCall(invocationId)
    ensures invocationId !in h.After(n).tasks ==> h.After(n + 1) == h.After(n)
    ensures invocationId in h.After(n).tasks ==>
              exists k | 0 <= k < n ::
                && h.Tracks(k, invocationId) && (forall j | k < j < n :: !h.Tracks(j, invocationId))
                && RemovesExactly(h.After(n), h.After(n + 1), h.events[k].task.taskId)
  {
    TablesStayLinked(h, n);
    if invocationId in h.After(n).tasks {
      var k := OwnerWasTracked(h, n, invocationId);
      assert RemovesExactly(h.After(n), h.After(n + 1), h.events[k].task.taskId);
    }
  }

  // `after` is `before` without the coroutine of `id` and the invocation ids that point to it.
  ghost predicate RemovesExactly<S>(before: Tables<S>, after: Tables<S>, id: TaskId) {
    && id in before.invocations
    && after.invocations == before.invocations - {id}
    && (forall i :: i in after.tasks <==> i in before.tasks && before.tasks[i] != id)
    && (forall i | i in after.tasks :: after.tasks[i] == before.tasks[i])
  }

  // --- What a run replies ---

  /** `reply` is what the adapter owes for `r`: a call awaited waits, with its child if that is still
      to be submitted; a runner result completes; anything else fails with its reason. */
  predicate IsAnswer<S>(id: TaskId, r: Resumption<S>, reply: Option<Reply>) {
    match r
    case Yields(PendingCall(Some(task), await), _) => reply == Some(Waiting(id, [task], await))
    case Yields(PendingCall(None, await), _) => reply == Some(Waiting(id, [], await))
    case Returns(Some(result)) => reply == Some(Completed(result))
    case Returns(None) => reply == Some(Failed(InvalidResult))
    case YieldsForeign(Closed) => reply == Some(Failed(AwaitableUnsupported))
    case YieldsForeign(CloseRaises(error, _)) => reply == Some(Failed(error))
    case Raises(error, _) => reply == Some(Failed(error))
  }

  /** A run completes with a result exactly when the coroutine returned that result, and waits exactly
      when it awaits a call. */
  lemma AnswersTellEndings<S>(id: TaskId, r: Resumption<S>, reply: Option<Reply>, result: RunnerResult)
    requires IsAnswer(id, r, reply)
    ensures reply == Some(Completed(result)) <==> r == Returns(Some(result))
    ensures reply.Some? && (reply.value.Waiting? <==> r.Yields?)
  {
  }

  /** A run of a task that is not in the table starts its coroutine and answers for its first
      resumption; if it does not start, the run fails with the reason and changes nothing. */
  lemma LaunchAnswers<S>(h: History<S>, i: nat, id: TaskId)
    requires i < |h.events| && h.Polls(i, id) && id !in h.After(i).invocations
    ensures match h.program.launch(h.events[i].ctx, h.events[i].task)
            case LaunchRaises(error) => h.ReplyTo(i) == Some(Failed(error)) && h.After(i + 1) == h.After(i)
            case Launched(start) => IsAnswer(id, h.program.resume(start, None), h.ReplyTo(i))
  {
  }

  /** A poll that is not early answers for the resumption it makes. */
  lemma PollAnswers<S>(h: History<S>, i: nat, id: TaskId)
    requires i < |h.events| && h.Polls(i, id) && id in h.After(i).invocations && !h.Early(i, id)
    ensures IsAnswer(id, Resumed(h, i, id), h.ReplyTo(i))
  {
    var t, e := h.After(i), h.events[i];
    assert h.ReplyTo(i) == Some(Poll(h.program, Track(t, id, e.ctx.invocationId), id, e.client).1);
  }

  // --- How long a task stays in the table ---

  /** The resumption that event `i` makes of `id`, a task in the table. */
  function Resumed<S>(h: History<S>, i: nat, id: TaskId): Resumption<S>
    requires i < |h.events| && h.Polls(i, id) && id in h.After(i).invocations
  {
    var s := h.After(i).invocations[id];
    h.program.resume(
      s.coroutine,
      if s.pending.None? then None else h.events[i].client(s.pending.value.await.child.taskId))
  }

  /** The coroutine returned, or yielded something foreign and was closed. */
  predicate IsOver<S>(r: Resumption<S>) {
    r.Returns? || (r.YieldsForeign? && r.closing.Closed?)
  }

  /** Event `i` takes `id` out of the table: a cancel or dispose that concerns it, or a poll, not an
      early one, at which its coroutine is over. */
  predicate TakesOut<S>(h: History<S>, i: nat, id: TaskId)
    requires i < |h.events|
  {
    && id in h.After(i).invocations
    && if h.Polls(i, id) then !h.Early(i, id) && IsOver(Resumed(h, i, id))
       else Concerns(h.After(i), h.events[i], id)
  }

  /** A poll leaves its task in the table exactly when it is early, or the coroutine yields another
      call, raises, or raises while it is closed. */
  lemma PollLeaves<S>(h: History<S>, i: nat, id: TaskId)
    requires i < |h.events| && h.Polls(i, id) && id in h.After(i).invocations
    ensures id in h.After(i + 1).invocations <==> h.Early(i, id) || !IsOver(Resumed(h, i, id))
  {
    var t, e := h.After(i), h.events[i];
    assert h.After(i + 1) == Poll(h.program, Track(t, id, e.ctx.invocationId), id, e.client).0;
  }

  /** What a raise leaves behind is what the next resumption gets, with the same awaited call. */
  lemma RaiseKeepsCall<S>(h: History<S>, i: nat, id: TaskId)
    requires i < |h.events| && h.Polls(i, id) && id in h.After(i).invocations && !h.Early(i, id)
    requires var r := Resumed(h, i, id); r.Raises? || (r.YieldsForeign? && r.closing.CloseRaises?)
    ensures id in h.After(i + 1).invocations
    ensures var r := Resumed(h, i, id);
            h.After(i + 1).invocations[id]
            == Suspended(if r.Raises? then r.coroutine else r.closing.coroutine, h.After(i).invocations[id].pending)
    ensures IsAnswer(id, Resumed(h, i, id), h.ReplyTo(i))
  {
    var t, e := h.After(i), h.events[i];
    assert h.After(i + 1) == Poll(h.program, Track(t, id, e.ctx.invocationId), id, e.client).0;
  }

  lemma TakesOutStep<S>(h: History<S>, i: nat, id: TaskId)
    requires i < |h.events| && id in h.After(i).invocations
    ensures id in h.After(i + 1).invocations <==> !TakesOut(h, i, id)
  {
    if h.Polls(i, id) {
      PollLeaves(h, i, id);
    } else if Concerns(h.After(i), h.events[i], id) {
    } else {
      StepsAreIsolated(h.program, h.After(i), h.events[i], id);
    }
    hide RunOneStep;
  }

  /** From event `b` to event `n` the task never left the table. */
  ghost predicate StaysIn<S>(h: History<S>, b: nat, n: nat, id: TaskId)
    requires b <= n <= |h.events|
  {
    forall m | b <= m <= n :: id in h.After(m).invocations
  }

  ghost predicate NotTakenOut<S>(h: History<S>, b: nat, n: nat, id: TaskId)
    requires b <= n <= |h.events|
  {
    forall i | b <= i < n :: !TakesOut(h, i, id)
  }

  /** No poll in events `b` to `n` found the task missing and started it afresh. */
  ghost predicate NotRestarted<S>(h: History<S>, b: nat, n: nat, id: TaskId)
    requires b <= n <= |h.events|
  {
    forall i | b <= i < n && h.Polls(i, id) :: id in h.After(i).invocations
  }

  lemma SplitAtLast<S>(h: History<S>, b: nat, n: nat, id: TaskId)
    requires b < n <= |h.events|
    ensures StaysIn(h, b, n, id) <==> StaysIn(h, b, n - 1, id) && id in h.After(n).invocations
    ensures StaysIn(h, b, n - 1, id) ==> id in h.After(n - 1).invocations
    ensures NotTakenOut(h, b, n, id) <==> NotTakenOut(h, b, n - 1, id) && !TakesOut(h, n - 1, id)
    ensures NotRestarted(h, b, n, id)
       <==> NotRestarted(h, b, n - 1, id) && (h.Polls(n - 1, id) ==> id in h.After(n - 1).invocations)
  {
    hide Next, TakesOut;
  }

  /** Over every run: a task that is in the table, raised or waiting, has stayed there until event `n`
      exactly when no event since took it out. If no run started it afresh in between, that decides
      whether it is there at all. */
  lemma {:induction false} TaskStaysUntilTakenOut<S>(h: History<S>, b: nat, n: nat, id: TaskId)
    requires b <= n <= |h.events| && id in h.After(b).invocations
    ensures StaysIn(h, b, n, id) <==> NotTakenOut(h, b, n, id)
    ensures NotRestarted(h, b, n, id) ==> (id in h.After(n).invocations <==> NotTakenOut(h, b, n, id))
  {
    hide Next, TakesOut;
    if b < n {
      hide StaysIn, NotTakenOut, NotRestarted;
      TaskStaysUntilTakenOut(h, b, n - 1, id);
      SplitAtLast(h, b, n, id);
      if id in h.After(n - 1).invocations {
        TakesOutStep(h, n - 1, id);
      } else if !h.Polls(n - 1, id) {
        AbsentStaysAbsent(h, n - 1, id);
      }
    }
  }

  lemma AbsentStaysAbsent<S>(h: History<S>, i: nat, id: TaskId)
    requires i < |h.events| && id !in h.After(i).invocations && !h.Polls(i, id)
    ensures id !in h.After(i + 1).invocations
  {
    var t, e := h.After(i), h.events[i];
    if !Concerns(t, e, id) {
      StepsAreIsolated(h.program, t, e, id);
    }
    hide RunOneStep;
  }

  /** A coroutine that can only raise once it has raised, as a native one does. */
  ghost predicate IsSpent<S>(p: Program<S>, coroutine: S) {
    forall outcome :: p.resume(coroutine, outcome).Raises? && p.resume(coroutine, outcome).coroutine == coroutine
  }

  /** A spent coroutine stays until it is cancelled or disposed, however often it is polled. */
  lemma {:induction false} SpentTaskStays<S>(h: History<S>, b: nat, n: nat, id: TaskId)
    requires b <= n <= |h.events| && id in h.After(b).invocations
    requires IsSpent(h.program, h.After(b).invocations[id].coroutine)
    requires forall i | b <= i < n && !h.events[i].Run? :: !Concerns(h.After(i), h.events[i], id)
    ensures id in h.After(n).invocations && h.After(n).invocations[id] == h.After(b).invocations[id]
  {
    hide Next;
    if b < n {
      SpentTaskStays(h, b, n - 1, id);
      if !h.Polls(n - 1, id) {
        StepsAreIsolated(h.program, h.After(n - 1), h.events[n - 1], id);
      } else if h.Early(n - 1, id) {
        EarlyPoll(h, n - 1, id);
      } else {
        RaiseKeepsCall(h, n - 1, id);
      }
    }
  }

  /** A raise alone does not keep a task: this coroutine raises, returns at the next poll, and is
      gone without a cancel or dispose. */
  lemma RaisedTaskCanEnd(ctx: RunnerContext, task: Task, client: Client, error: Error) returns (h: History<nat>)
    ensures h.events == [Run(ctx, task, client), Run(ctx, task, client)]
    ensures task.taskId in h.After(1).invocations && h.ReplyTo(0) == Some(Failed(error))
    ensures task.taskId !in h.After(2).invocations && h.ReplyTo(1) == Some(Failed(InvalidResult))
  {
    var program := Program(
      (_: RunnerContext, _: Task) => Launched(0),
      (s: nat, _: Option<TaskOutcome>) => if s == 0 then Raises(error, 1) else Returns(None));
    h := History(program, [Run(ctx, task, client), Run(ctx, task, client)]);
    assert h.After(0) == Tables(map[], map[]);
    assert h.After(1).invocations[task.taskId] == Suspended(1, None);
  }

  // --- Suspension preserves meaning ---

  /** Direct execution: the coroutine after its first `k` awaits have returned their answers. */
  function Direct<S>(p: Program<S>, answers: TaskId -> TaskOutcome, start: S, k: nat): Resumption<S> {
    if k == 0 then p.resume(start, None)
    else
      match Direct(p, answers, start, k - 1)
      case Yields(pending, coroutine) => p.resume(coroutine, Some(answers(pending.await.child.taskId)))
      case ended => ended
  }

  // The child tasks of the first `k` awaits.
  function DirectTasks<S>(p: Program<S>, answers: TaskId -> TaskOutcome, start: S, k: nat): seq<Task> {
    if k == 0 then []
    else
      var last := Direct(p, answers, start, k - 1);
      DirectTasks(p, answers, start, k - 1)
      + (if last.Yields? && last.pending.task.Some? then [last.pending.task.value] else [])
  }

  /** Whatever a poll learns about a child is that child's one answer. */
  ghost predicate StableAnswers(events: seq<Event>, answers: TaskId -> TaskOutcome) {
    forall i, child: TaskId | 0 <= i < |events| && events[i].Run? && events[i].client(child).Some? ::
      events[i].client(child).value == answers(child)
  }

  /** Event `b` launches the coroutine of `id` at `start`. */
  predicate LaunchedAt<S(==)>(h: History<S>, b: nat, id: TaskId, start: S) {
    && b < |h.events| && h.Polls(b, id) && id !in h.After(b).invocations
    && h.program.launch(h.events[b].ctx, h.events[b].task) == Launched(start)
  }

  /** In events `b` to `n`, `id` is neither cancelled nor disposed, and its polls all wait. */
  predicate KeepsWaiting<S>(h: History<S>, b: nat, n: nat, id: TaskId)
    requires b <= n <= |h.events|
  {
    forall i | b <= i < n ::
      && (h.Polls(i, id) ==> h.ReplyTo(i).value.Waiting?)
      && (!h.events[i].Run? ==> !Concerns(h.After(i), h.events[i], id))
  }

  // A poll that comes too early leaves every stored coroutine alone and submits nothing.
  lemma EarlyPoll<S>(h: History<S>, i: nat, id: TaskId)
    requires i < |h.events| && h.Early(i, id)
    ensures h.After(i + 1).invocations == h.After(i).invocations
    ensures var pending := h.After(i).invocations[id].pending.value;
            h.ReplyTo(i) == Some(Waiting(id, [], pending.await))
  {
  }

  /** In events `b` to `n`, `id` is neither cancelled nor disposed, and its polls all come too early. */
  ghost predicate OnlyEarly<S>(h: History<S>, b: nat, n: nat, id: TaskId)
    requires b <= n <= |h.events|
  {
    forall i | b <= i < n ::
      && (h.Polls(i, id) ==> h.Early(i, id))
      && (!h.events[i].Run? ==> !Concerns(h.After(i), h.events[i], id))
  }

  /** Any number of early polls, mixed with anything done to other tasks, leaves a task's coroutine
      and its await as they were, submits no child and resumes nothing. */
  lemma {:induction false} EarlyPollsChangeNothing<S>(h: History<S>, b: nat, n: nat, id: TaskId)
    requires b <= n <= |h.events| && id in h.After(b).invocations && OnlyEarly(h, b, n, id)
    ensures id in h.After(n).invocations && h.After(n).invocations[id] == h.After(b).invocations[id]
    ensures h.Emitted(b, n, id) == [] && h.Sends(b, n, id) == 0
  {
    hide Next;
    if b < n {
      EarlyPollsChangeNothing(h, b, n - 1, id);
      if h.Polls(n - 1, id) {
        EarlyPoll(h, n - 1, id);
      } else {
        StepsAreIsolated(h.program, h.After(n - 1), h.events[n - 1], id);
      }
    }
  }

  // Before event `n` the adapter holds `id` where `r` left it.
  ghost predicate StoredAt<S>(h: History<S>, n: nat, id: TaskId, r: Resumption<S>)
    requires n <= |h.events| && r.Yields?
  {
    && id in h.After(n).invocations
    && h.After(n).invocations[id] == Suspended(r.coroutine, Some(r.pending))
  }

  // A poll that is not early resumes the coroutine.
  lemma PollResumes<S>(h: History<S>, answers: TaskId -> TaskOutcome, i: nat, id: TaskId)
    requires i < |h.events| && h.Polls(i, id) && !h.Early(i, id)
    requires id in h.After(i).invocations && h.After(i).invocations[id].pending.Some?
    requires StableAnswers(h.events, answers)
    ensures var s := h.After(i).invocations[id];
            var r := h.program.resume(s.coroutine, Some(answers(s.pending.value.await.child.taskId)));
            && IsAnswer(id, r, h.ReplyTo(i))
            && (r.Yields? ==> StoredAt(h, i + 1, id, r))
  {
    var child := h.After(i).invocations[id].pending.value.await.child.taskId;
    assert h.events[i].client(child).value == answers(child);
  }

  lemma LaunchResumes<S>(h: History<S>, b: nat, id: TaskId, start: S)
    requires LaunchedAt(h, b, id, start)
    ensures !h.Early(b, id)
    ensures var r := h.program.resume(start, None);
            && IsAnswer(id, r, h.ReplyTo(b))
            && (r.Yields? ==> StoredAt(h, b + 1, id, r))
  {
  }

  /** Before event `n` the stored coroutine is where direct execution would be, and each await
      so far has submitted its child exactly once, in order. */
  ghost predicate FollowsDirect<S>(
      h: History<S>, answers: TaskId -> TaskOutcome, b: nat, n: nat, id: TaskId, start: S)
    requires b <= n <= |h.events|
  {
    && h.Sends(b, n, id) >= 1
    && var r := Direct(h.program, answers, start, h.Sends(b, n, id) - 1);
    && r.Yields? && StoredAt(h, n, id, r)
    && h.Emitted(b, n, id) == DirectTasks(h.program, answers, start, h.Sends(b, n, id))
  }

  /** As long as a task keeps waiting it follows direct execution. */
  lemma {:induction false} WaitingFollowsDirect<S>(
      h: History<S>, answers: TaskId -> TaskOutcome, b: nat, n: nat, id: TaskId, start: S)
    requires LaunchedAt(h, b, id, start) && b < n <= |h.events|
    requires StableAnswers(h.events, answers) && KeepsWaiting(h, b, n, id)
    ensures FollowsDirect(h, answers, b, n, id, start)
  {
    hide *;
    KeepsWaitingSplits(h, b, n, id);
    if n == b + 1 {
      FirstWait(h, answers, b, id, start);
    } else {
      WaitingFollowsDirect(h, answers, b, n - 1, id, start);
      WaitingStep(h, answers, b, n - 1, id, start);
    }
  }

  lemma KeepsWaitingSplits<S>(h: History<S>, b: nat, n: nat, id: TaskId)
    requires b < n <= |h.events| && KeepsWaiting(h, b, n, id)
    ensures KeepsWaiting(h, b, n - 1, id) && KeepsWaiting(h, n - 1, n, id)
  {
  }

  lemma FirstWait<S>(h: History<S>, answers: TaskId -> TaskOutcome, b: nat, id: TaskId, start: S)
    requires LaunchedAt(h, b, id, start) && KeepsWaiting(h, b, b + 1, id)
    ensures FollowsDirect(h, answers, b, b + 1, id, start)
  {
    LaunchResumes(h, b, id, start);
    hide Next;
    assert h.Sends(b, b, id) == 0 && h.Emitted(b, b, id) == [];
    assert DirectTasks(h.program, answers, start, 0) == [];
    assert h.Sends(b, b + 1, id) == 1;
  }

  lemma WaitingStep<S>(
      h: History<S>, answers: TaskId -> TaskOutcome, b: nat, n: nat, id: TaskId, start: S)
    requires b <= n < |h.events| && FollowsDirect(h, answers, b, n, id, start)
    requires StableAnswers(h.events, answers) && KeepsWaiting(h, n, n + 1, id)
    ensures FollowsDirect(h, answers, b, n + 1, id, start)
  {
    hide Next, RunOneStep;
    if !h.Polls(n, id) {
      StepsAreIsolated(h.program, h.After(n), h.events[n], id);
    } else if h.Early(n, id) {
      EarlyPoll(h, n, id);
    } else {
      PollResumes(h, answers, n, id);
    }
  }

  /** The task's run ends exactly as direct execution on the same answers ends. */
  lemma SuspensionPreservesMeaning<S>(
      h: History<S>, answers: TaskId -> TaskOutcome, b: nat, n: nat, id: TaskId, start: S)
    requires LaunchedAt(h, b, id, start) && b <= n < |h.events|
    requires StableAnswers(h.events, answers) && KeepsWaiting(h, b, n, id)
    requires h.Polls(n, id) && !h.Early(n, id)
    ensures IsAnswer(id, Direct(h.program, answers, start, h.Sends(b, n, id)), h.ReplyTo(n))
    ensures h.Emitted(b, n, id) == DirectTasks(h.program, answers, start, h.Sends(b, n, id))
  {
    hide Next, RunOneStep, KeepsWaiting;
    if n == b {
      LaunchResumes(h, b, id, start);
    } else {
      WaitingFollowsDirect(h, answers, b, n, id, start);
      PollResumes(h, answers, n, id);
    }
  }

  lemma {:induction false} DirectStaysEnded<S>(
      p: Program<S>, answers: TaskId -> TaskOutcome, start: S, k: nat, later: nat)
    requires !Direct(p, answers, start, k).Yields? && k <= later
    ensures Direct(p, answers, start, later) == Direct(p, answers, start, k)
  {
    if k < later {
      DirectStaysEnded(p, answers, start, k, later - 1);
    }
  }

  /** If direct execution ends after `k` awaits, the polls resume the coroutine at most `k` times
      before its run ends, and then with that same ending. */
  lemma RunEndsWhenDirectEnds<S>(
      h: History<S>, answers: TaskId -> TaskOutcome, b: nat, n: nat, id: TaskId, start: S, k: nat)
    requires LaunchedAt(h, b, id, start) && b <= n < |h.events|
    requires StableAnswers(h.events, answers) && KeepsWaiting(h, b, n, id)
    requires !Direct(h.program, answers, start, k).Yields?
    ensures h.Sends(b, n, id) <= k
    ensures h.Polls(n, id) && !h.ReplyTo(n).value.Waiting? ==>
              IsAnswer(id, Direct(h.program, answers, start, k), h.ReplyTo(n))
    ensures h.Polls(n, id) && !h.Early(n, id) && h.Sends(b, n, id) == k ==>
              IsAnswer(id, Direct(h.program, answers, start, k), h.ReplyTo(n))
  {
    var sends := h.Sends(b, n, id);
    forall later: nat | k <= later
      ensures Direct(h.program, answers, start, later) == Direct(h.program, answers, start, k)
    {
      DirectStaysEnded(h.program, answers, start, k, later);
    }
    if b < n {
      WaitingFollowsDirect(h, answers, b, n, id, start);
    }
    if h.Polls(n, id) {
      if h.Early(n, id) {
        EarlyPoll(h, n, id);
      } else {
        SuspensionPreservesMeaning(h, answers, b, n, id, start);
        if !Direct(h.program, answers, start, sends).Yields? {
          DirectStaysEnded(h.program, answers, start, sends, k);
        }
      }
    }
  }

  // --- Child ids ---

  /** The `n`-th await of a coroutine for task `parent` submits the child task that its context built
      as call `number(n)`. */
  ghost predicate NumbersChildren<S>(
      p: Program<S>, answers: TaskId -> TaskOutcome, start: S, parent: TaskId, number: nat -> nat)
  {
    forall k: nat | Direct(p, answers, start, k).Yields? ::
      var pending := Direct(p, answers, start, k).pending;
      pending.task.Some? && pending.task.value.taskId == ChildId(parent, number(k))
  }

  ghost predicate AllDiffer(number: nat -> nat) {
    forall i: nat, j: nat | number(i) == number(j) :: i == j
  }

  lemma {:induction false} DirectTasksAreNumbered<S>(
      p: Program<S>, answers: TaskId -> TaskOutcome, start: S, k: nat, parent: TaskId, number: nat -> nat)
    requires NumbersChildren(p, answers, start, parent, number)
    requires k == 0 || Direct(p, answers, start, k - 1).Yields?
    ensures |DirectTasks(p, answers, start, k)| == k
    ensures forall i | 0 <= i < k :: DirectTasks(p, answers, start, k)[i].taskId == ChildId(parent, number(i))
  {
    if k > 0 {
      DirectTasksAreNumbered(p, answers, start, k - 1, parent, number);
      assert Direct(p, answers, start, k - 1).Yields?;
    }
    hide ChildId;
  }

  /** The children that one launch of a task submits are those its context numbered, in order; they
      are all different when no call is awaited twice. */
  lemma SubmittedChildrenDiffer<S>(
      h: History<S>, answers: TaskId -> TaskOutcome, b: nat, n: nat, id: TaskId, start: S, number: nat -> nat)
    requires LaunchedAt(h, b, id, start) && b < n <= |h.events|
    requires StableAnswers(h.events, answers) && KeepsWaiting(h, b, n, id)
    requires NumbersChildren(h.program, answers, start, id, number)
    ensures |h.Emitted(b, n, id)| == h.Sends(b, n, id)
    ensures forall i | 0 <= i < |h.Emitted(b, n, id)| ::
              h.Emitted(b, n, id)[i].taskId == ChildId(id, number(i))
    ensures AllDiffer(number) ==>
              forall i, j | 0 <= i < j < |h.Emitted(b, n, id)| ::
                h.Emitted(b, n, id)[i].taskId != h.Emitted(b, n, id)[j].taskId
  {
    hide Next, KeepsWaiting, StableAnswers, NumbersChildren, ChildId, LaunchedAt;
    WaitingFollowsDirect(h, answers, b, n, id, start);
    DirectTasksAreNumbered(h.program, answers, start, h.Sends(b, n, id), id, number);
    var tasks := h.Emitted(b, n, id);
    if AllDiffer(number) {
      forall i, j | 0 <= i < j < |tasks| ensures tasks[i].taskId != tasks[j].taskId {
        if tasks[i].taskId == tasks[j].taskId {
          ChildIdsNeverCollide(id, number(i), id, number(j));
        }
      }
    }
  }

  /** Different tasks never submit the same child, whatever their numbering. */
  lemma ChildrenOfTasksDiffer<S>(
      h: History<S>, answers: TaskId -> TaskOutcome,
      b: nat, n: nat, id: TaskId, start: S, number: nat -> nat,
      c: nat, m: nat, other: TaskId, otherStart: S, otherNumber: nat -> nat, i: nat, j: nat)
    requires LaunchedAt(h, b, id, start) && b < n <= |h.events| && KeepsWaiting(h, b, n, id)
    requires LaunchedAt(h, c, other, otherStart) && c < m <= |h.events| && KeepsWaiting(h, c, m, other)
    requires StableAnswers(h.events, answers) && id != other
    requires NumbersChildren(h.program, answers, start, id, number)
    requires NumbersChildren(h.program, answers, otherStart, other, otherNumber)
    requires i < |h.Emitted(b, n, id)| && j < |h.Emitted(c, m, other)|
    ensures h.Emitted(b, n, id)[i].taskId != h.Emitted(c, m, other)[j].taskId
  {
    hide Next, KeepsWaiting, StableAnswers, NumbersChildren, ChildId, LaunchedAt;
    SubmittedChildrenDiffer(h, answers, b, n, id, start, number);
    SubmittedChildrenDiffer(h, answers, c, m, other, otherStart, otherNumber);
    if h.Emitted(b, n, id)[i].taskId == h.Emitted(c, m, other)[j].taskId {
      ChildIdsNeverCollide(id, number(i), other, otherNumber(j));
    }
  }

  /** A task that is started afresh, after a cancel say, begins its numbering again: of two launches
      from the same state the one that is resumed less often submits a first part of the children
      that the other submits. */
  lemma RestartSubmitsAgain<S>(
      h: History<S>, answers: TaskId -> TaskOutcome, id: TaskId, start: S, b: nat, n: nat, c: nat, m: nat)
    requires LaunchedAt(h, b, id, start) && b < n <= |h.events| && KeepsWaiting(h, b, n, id)
    requires LaunchedAt(h, c, id, start) && c < m <= |h.events| && KeepsWaiting(h, c, m, id)
    requires StableAnswers(h.events, answers) && h.Sends(b, n, id) <= h.Sends(c, m, id)
    ensures h.Emitted(b, n, id) <= h.Emitted(c, m, id)
  {
    hide Next, KeepsWaiting, StableAnswers, LaunchedAt;
    WaitingFollowsDirect(h, answers, b, n, id, start);
    WaitingFollowsDirect(h, answers, c, m, id, start);
    DirectTasksGrow(h.program, answers, start, h.Sends(b, n, id), h.Sends(c, m, id));
  }

  lemma {:induction false} DirectTasksGrow<S>(
      p: Program<S>, answers: TaskId -> TaskOutcome, start: S, k: nat, later: nat)
    requires k <= later
    ensures DirectTasks(p, answers, start, k) <= DirectTasks(p, answers, start, later)
  {
    if k < later {
      DirectTasksGrow(p, answers, start, k, later - 1);
    }
  }

  /** So it is with a run, a cancel and a run: the same child is submitted twice. */
  lemma CancelledTaskSubmitsAgain(ctx: RunnerContext, task: Task, call: PendingCall, client: Client)
    returns (h: History<nat>)
    requires ctx.invocationId != "" && call.task.Some?
    ensures h.events == [Run(ctx, task, client), CancelCall(ctx.invocationId), Run(ctx, task, client)]
    ensures h.ReplyTo(0) == h.ReplyTo(2) == Some(Waiting(task.taskId, [call.task.value], call.await))
    ensures task.taskId !in h.After(2).invocations
  {
    var program := Program(
      (_: RunnerContext, _: Task) => Launched(0),
      (s: nat, _: Option<TaskOutcome>) => if s == 0 then Yields(call, 1) else Returns(None));
    h := History(program, [Run(ctx, task, client), CancelCall(ctx.invocationId), Run(ctx, task, client)]);
    assert h.After(0) == Tables(map[], map[]);
    assert h.After(1).invocations[task.taskId] == Suspended(1, Some(call));
    assert h.After(1).tasks[ctx.invocationId] == task.taskId;
  }
}
