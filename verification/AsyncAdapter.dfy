/** The adapter that drives a coroutine one suspension at a time: every awaited call becomes a
    child task, and the coroutine is resumed once the child's outcome is known. */
module AsyncAdapter {
  import opened Ids
  import opened WireTypes

  type TaskId = string

  datatype CancelPolicy = Cascade | Detach | Shield

  datatype Task = Task(
    taskId: TaskId,
    protocolId: string,
    payload: string,
    targetBindingId: Option<string>,
    runnerHint: Option<string>,
    traceId: Option<string>,
    correlationId: Option<string>)

  datatype TaskHandle = TaskHandle(
    taskId: TaskId,
    protocolId: string,
    targetBindingId: Option<string>,
    cancelPolicy: CancelPolicy,
    traceId: Option<string>,
    correlationId: Option<string>)

  datatype TaskAwait = TaskAwait(parentTaskId: TaskId, child: TaskHandle, cancelPolicy: CancelPolicy)

  // A call that a coroutine awaits; `task` is the child to submit, if it is still to be submitted.
  datatype PendingCall = PendingCall(task: Option<Task>, await: TaskAwait) {
    function Tasks(): seq<Task> {
      if task.None? then [] else [task.value]
    }

    function WithoutTask(): PendingCall {
      this.(task := None)
    }
  }

  datatype TaskOutcome = TaskOutcome(taskId: TaskId, status: string, output: string)

  datatype RunnerResult = RunnerResult(taskId: TaskId, output: string)

  datatype Error = SelfCallBlocked | InvalidResult | AwaitableUnsupported | Raised(what: string)

  datatype RunnerContext = RunnerContext(invocationId: string, cancelRequested: bool)

  // --- Building calls ---

  class AsyncRunnerContext {
    const parentTask: Task
    const currentRunnerId: string
    const allowSelfCall: bool
    var nextCall: nat
    ghost var built: seq<PendingCall>

    /** The n-th built call carries the n-th child id. */
    ghost predicate Valid()
      reads this
    {
      && |built| == nextCall
      && forall i | 0 <= i < |built| ::
           && built[i].task.Some? && built[i].task.value.taskId == ChildId(parentTask.taskId, i + 1)
           && built[i].await.child.taskId == ChildId(parentTask.taskId, i + 1)
    }

    constructor (parentTask: Task, currentRunnerId: string, allowSelfCall: bool)
      ensures Valid() && built == []
      ensures this.parentTask == parentTask
    {
      this.parentTask := parentTask;
      this.currentRunnerId := currentRunnerId;
      this.allowSelfCall := allowSelfCall;
      nextCall, built := 0, [];
    }

    method BuildCall(protocolId: string, payload: string, bindingId: Option<string>,
                     runnerHint: Option<string>, cancelPolicy: CancelPolicy)
      returns (call: Option<PendingCall>)
      requires Valid()
      modifies this
      ensures Valid()
      ensures call.None? <==> runnerHint == Some(currentRunnerId) && !allowSelfCall
      ensures call.None? ==> nextCall == old(nextCall) && built == old(built)
      ensures call.Some? ==>
                && built == old(built) + [call.value]
                && call.value.task == Some(Task(
                     ChildId(parentTask.taskId, nextCall), protocolId, payload, bindingId, runnerHint,
                     parentTask.traceId, parentTask.correlationId))
                && call.value.await == TaskAwait(
                     parentTask.taskId,
                     TaskHandle(ChildId(parentTask.taskId, nextCall), protocolId, bindingId, cancelPolicy,
                                parentTask.traceId, parentTask.correlationId),
                     cancelPolicy)
    {
      if runnerHint == Some(currentRunnerId) && !allowSelfCall {
        return None;
      }
      nextCall := nextCall + 1;
      var taskId := ChildId(parentTask.taskId, nextCall);
      var task := Task(taskId, protocolId, payload, bindingId, runnerHint,
                       parentTask.traceId, parentTask.correlationId);
      var handle := TaskHandle(task.taskId, task.protocolId, bindingId, cancelPolicy,
                               task.traceId, task.correlationId);
      call := Some(PendingCall(Some(task), TaskAwait(parentTask.taskId, handle, cancelPolicy)));
      built := built + [call.value];
    }

    /** No two calls of one context share a child id. */
    lemma BuiltIdsAreDistinct(i: nat, j: nat)
      requires Valid() && i < |built| && j < |built|
      requires built[i].await.child.taskId == built[j].await.child.taskId
      ensures i == j
    {
      ChildIdsNeverCollide(parentTask.taskId, i + 1, parentTask.taskId, j + 1);
    }
  }

  // --- Coroutines ---

  // What one `send` into a coroutine leads to. A coroutine that raises stays where it is: a
  // later `send` meets whatever it left behind.
  datatype Resumption<+S> =
    | Yields(pending: PendingCall, coroutine: S)
    | YieldsForeign(closing: Closing<S>)
    | Returns(result: Option<RunnerResult>)  // `None`: something other than a runner result
    | Raises(error: Error, coroutine: S)

  // Closing a coroutine runs its clean-up code, which may raise.
  datatype Closing<+S> = Closed | CloseRaises(error: Error, coroutine: S)

  datatype Launch<+S> = Launched(coroutine: S) | LaunchRaises(error: Error)

  datatype Program<!S> = Program(
    launch: (RunnerContext, Task) -> Launch<S>,
    resume: (S, Option<TaskOutcome>) -> Resumption<S>)

  type Client = TaskId -> Option<TaskOutcome>

  // --- The adapter ---

  datatype Suspended<+S> = Suspended(coroutine: S, pending: Option<PendingCall>)

  // The coroutines in progress by task, and the task each invocation id was last seen with.
  datatype Tables<+S> = Tables(invocations: map<TaskId, Suspended<S>>, tasks: map<string, TaskId>)

  datatype Reply =
    | Waiting(taskId: TaskId, tasks: seq<Task>, await: TaskAwait)
    | Completed(result: RunnerResult)
    | Failed(error: Error)

  function WaitingReply(taskId: TaskId, pending: PendingCall): Reply {
    Waiting(taskId, pending.Tasks(), pending.await)
  }

  function Remove<S>(t: Tables<S>, taskId: TaskId): Tables<S> {
    if taskId !in t.invocations then t
    else Tables(t.invocations - {taskId}, map i | i in t.tasks && t.tasks[i] != taskId :: t.tasks[i])
  }

  function Track<S>(t: Tables<S>, taskId: TaskId, invocationId: string): Tables<S> {
    if invocationId == "" then t else t.(tasks := t.tasks[invocationId := taskId])
  }

  function Store<S>(t: Tables<S>, taskId: TaskId, s: Suspended<S>): Tables<S> {
    t.(invocations := t.invocations[taskId := s])
  }

  function RunOneStep<S>(p: Program<S>, t: Tables<S>, ctx: RunnerContext, task: Task, client: Client): (Tables<S>, Reply) {
    var id := task.taskId;
    if id in t.invocations then
      Poll(p, Track(t, id, ctx.invocationId), id, client)
    else
      match p.launch(ctx, task)
      case LaunchRaises(e) => (t, Failed(e))
      case Launched(coroutine) =>
        Poll(p, Track(Store(t, id, Suspended(coroutine, None)), id, ctx.invocationId), id, client)
  }

  function Poll<S>(p: Program<S>, t: Tables<S>, id: TaskId, client: Client): (Tables<S>, Reply)
    requires id in t.invocations
  {
    var suspended := t.invocations[id];
    if suspended.pending.Some? && client(suspended.pending.value.await.child.taskId).None? then
      (t, WaitingReply(id, suspended.pending.value.WithoutTask()))
    else
      var outcome := if suspended.pending.None? then None
                     else client(suspended.pending.value.await.child.taskId);
      Settle(t, id, p.resume(suspended.coroutine, outcome))
  }

  function Settle<S>(t: Tables<S>, id: TaskId, r: Resumption<S>): (Tables<S>, Reply)
    requires id in t.invocations
  {
    match r
    case Yields(pending, coroutine) =>
      (Store(t, id, Suspended(coroutine, Some(pending))), WaitingReply(id, pending))
    case YieldsForeign(Closed) => (Remove(t, id), FinalReply(r))
    case YieldsForeign(CloseRaises(_, coroutine)) =>
      (Store(t, id, t.invocations[id].(coroutine := coroutine)), FinalReply(r))
    case Returns(_) => (Remove(t, id), FinalReply(r))
    case Raises(_, coroutine) =>
      (Store(t, id, t.invocations[id].(coroutine := coroutine)), FinalReply(r))
  }

  // The result of a coroutine that does not suspend again.
  function FinalReply<S>(r: Resumption<S>): Reply
    requires !r.Yields?
  {
    match r
    case YieldsForeign(Closed) => Failed(AwaitableUnsupported)
    case YieldsForeign(CloseRaises(e, _)) => Failed(e)
    case Returns(None) => Failed(InvalidResult)
    case Returns(Some(result)) => Completed(result)
    case Raises(e, _) => Failed(e)
  }

  function CancelInvocation<S>(t: Tables<S>, invocationId: string): Tables<S> {
    if invocationId in t.tasks then Remove(t, t.tasks[invocationId]) else t
  }

  class TaskAwaitRunnerAdapter<S> {
    const program: Program<S>
    var invocations: map<TaskId, Suspended<S>>
    var invocationTasks: map<string, TaskId>

    function State(): Tables<S>
      reads this
    {
      Tables(invocations, invocationTasks)
    }

    constructor (program: Program<S>)
      ensures this.program == program && State() == Tables(map[], map[])
    {
      this.program := program;
      invocations, invocationTasks := map[], map[];
    }

    method RunOne(ctx: RunnerContext, task: Task, client: Client) returns (reply: Reply)
      modifies this
      ensures (State(), reply) == RunOneStep(program, old(State()), ctx, task, client)
    {
      var id := task.taskId;
      if id !in invocations {
        match program.launch(ctx, task) {
          case LaunchRaises(e) => return Failed(e);
          case Launched(coroutine) => invocations := invocations[id := Suspended(coroutine, None)];
        }
      }
      TrackInvocation(id, ctx.invocationId);
      var outcome: Option<TaskOutcome> := None;
      var pending := invocations[id].pending;
      if pending.Some? {
        outcome := client(pending.value.await.child.taskId);
        if outcome.None? {
          return WaitingReply(id, pending.value.WithoutTask());
        }
      }
      match program.resume(invocations[id].coroutine, outcome) {
        case Returns(result) =>
          RemoveInvocation(id);
          reply := if result.None? then Failed(InvalidResult) else Completed(result.value);
        case Raises(e, coroutine) =>
          invocations := invocations[id := invocations[id].(coroutine := coroutine)];
          reply := Failed(e);
        case YieldsForeign(CloseRaises(e, coroutine)) =>
          invocations := invocations[id := invocations[id].(coroutine := coroutine)];
          reply := Failed(e);
        case YieldsForeign(Closed) =>
          RemoveInvocation(id);
          reply := Failed(AwaitableUnsupported);
        case Yields(next, coroutine) =>
          invocations := invocations[id := Suspended(coroutine, Some(next))];
          reply := WaitingReply(id, next);
      }
    }

    method Cancel(invocationId: string)
      modifies this
      ensures State() == CancelInvocation(old(State()), invocationId)
    {
      if invocationId in invocationTasks {
        RemoveInvocation(invocationTasks[invocationId]);
      }
    }

    method Dispose()
      modifies this
      ensures State() == Tables(map[], map[])
    {
      invocations, invocationTasks := map[], map[];
    }

    method TrackInvocation(taskId: TaskId, invocationId: string)
      modifies this`invocationTasks
      ensures State() == Track(old(State()), taskId, invocationId)
    {
      if invocationId != "" {
        invocationTasks := invocationTasks[invocationId := taskId];
      }
    }

    method RemoveInvocation(taskId: TaskId)
      modifies this
      ensures State() == Remove(old(State()), taskId)
    {
      if taskId !in invocations {
        return;
      }
      invocations := invocations - {taskId};
      invocationTasks := map i | i in invocationTasks && invocationTasks[i] != taskId :: invocationTasks[i];
    }
  }
}
