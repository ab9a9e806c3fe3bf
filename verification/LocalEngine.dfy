/** What one task, one handler and one playbook of a local deployment come to, step by step. */
module LocalEngine {
  import opened Values

  datatype MetaAction = Noop | FlushHandlers | EndHost | EndPlay

  /** What the engine looks at in a task.  `earlier` says that it names a module that is tried
      before a reboot. */
  datatype Task = Task(id: nat, earlier: bool, reboot: bool, includes: bool, looped: bool, meta: Option<MetaAction>)

  datatype Kind = Module | Reboot | Include

  /** The first case of the dispatch that applies. */
  function KindOf(task: Task): Kind {
    if task.earlier then Module
    else if task.reboot then Reboot
    else if task.includes then Include
    else Module
  }

  datatype Verdict<S> = Verdict(state: S, hasResult: bool, failed: bool)

  /** Everything the engine does not decide itself, as arbitrary functions of the state. */
  datatype World<!S> = World(
    load: (nat, S) -> Option<seq<Task>>,               // the expanded tasks of a playbook, as it is run
    cancelled: S -> bool,                              // the context has ended
    prepare: (Task, S) -> bool,                        // register name, variables and templates are in order
    metaWhen: (Task, S) -> Option<bool>,               // condition of a meta task
    loopItems: (Task, S) -> Option<Option<nat>>,       // not a loop, or the number of items
    loopIncludes: (Task, S) -> Option<seq<Task>>,      // tasks a looped include brings in
    settle: (Task, S) -> Option<Verdict<S>>,           // ended before the dispatch
    runModule: (Task, S) -> Verdict<S>,
    included: (Task, S) -> Option<(seq<Task>, S)>,     // tasks an include brings in, and the state it leaves
    renderReboot: (Task, S) -> bool,
    reboot: (Task, S) -> (S, bool),
    afterwards: (Task, S) -> (S, bool),                // changed_when and notifications, and whether they are in order
    nextHandlerTask: S -> Option<Task>,                // what a flush turns to next
    forceHandlers: nat -> bool)                        // options of the run, or configuration of the playbook

  /** A reboot is recorded with the states it was issued in and has left. */
  datatype Event<S> =
    | PlaybookStarted(playbook: nat)
    | TaskStarted(playbook: nat, index: nat, queued: nat, task: Task)
    | HandlerTaskStarted
    | RebootIssued(before: S, ok: bool, after: S)

  /** How the turn of one task ends. */
  datatype Turn = GoOn(rebooted: bool) | FailedHere | HostEnded | TurnsUp

  datatype RunResult = RunResult(failed: bool, rebootInitiated: bool)

  datatype Ending =
    | Finished(result: RunResult)
    | Cancelled
    | CutOff          // the turns allowed for this run are used up

  function Splice<T>(queue: seq<T>, taskIdx: nat, included: seq<T>): seq<T>
    requires taskIdx < |queue|
  {
    queue[..taskIdx + 1] + included + queue[taskIdx + 1..]
  }

  // ----- One execution of a task

  /** The state it leaves, whether there is a result, whether that is a failure, whether a reboot has
      been issued and has worked, and the tasks it includes. */
  datatype Attempt<S> = Attempt(state: S, hasResult: bool, failed: bool, rebooted: bool, included: Option<seq<Task>>)

  function Try<S>(world: World<S>, task: Task, s: S, allowReboot: bool): Attempt<S> {
    match world.settle(task, s)
    case Some(v) => Attempt(v.state, v.hasResult, v.failed, false, None)
    case None =>
      match KindOf(task)
      case Module => var v := world.runModule(task, s); Attempt(v.state, v.hasResult, v.failed, false, None)
      case Reboot =>
        if !allowReboot then Attempt(s, true, true, false, None)
        else if !world.renderReboot(task, s) then Attempt(s, false, false, false, None)
        else var (after, ok) := world.reboot(task, s); Attempt(after, true, !ok, ok, None)
      case Include =>
        match world.included(task, s)
        case None => Attempt(s, true, true, false, None)
        case Some((tasks, after)) => Attempt(after, false, false, false, Some(tasks))
  }

  /** The same without the cases: a module that is tried before a reboot comes first, then the reboot,
      then the include; a task that is none of these is a module. */
  lemma TryMeans<S>(world: World<S>, task: Task, s: S, allowReboot: bool)
    requires world.settle(task, s).None?
    ensures var a := Try(world, task, s, allowReboot);
      && (task.earlier || (!task.reboot && !task.includes) ==>
            var v := world.runModule(task, s);
            a.state == v.state && a.hasResult == v.hasResult && a.failed == v.failed && !a.rebooted)
      && (!task.earlier && task.reboot && !allowReboot ==> a.state == s && a.hasResult && a.failed && !a.rebooted)
      && (!task.earlier && task.reboot && allowReboot && world.renderReboot(task, s) ==>
            a.hasResult && (a.state, a.rebooted) == world.reboot(task, s) && a.failed == !a.rebooted)
      && (!task.earlier && task.reboot && allowReboot && !world.renderReboot(task, s) ==>
            a.state == s && !a.hasResult && !a.rebooted)
      && (!task.earlier && !task.reboot && task.includes && world.included(task, s).None? ==>
            a.state == s && a.hasResult && a.failed)
      && (!task.earlier && !task.reboot && task.includes && world.included(task, s).Some? ==>
            !a.hasResult && !a.failed && Some((a.included.value, a.state)) == world.included(task, s))
  {
  }

  // ----- Loops and handlers

  predicate ItemFails<S>(world: World<S>, task: Task, s: S) {
    var a := Try(world, task, s, false);
    !a.hasResult || a.failed
  }

  ghost predicate LoopStates<S>(world: World<S>, task: Task, s: S, items: nat, states: seq<S>) {
    && |states| == items + 1 && states[0] == s
    && forall k :: 0 <= k < items ==> states[k + 1] == Try(world, task, states[k], false).state
  }

  /** A loop goes through all its items, each in the state the one before has left; it has failed if
      any item has failed or has no result. */
  ghost predicate LoopEnds<S(!new)>(world: World<S>, task: Task, s: S, items: nat, t: S, failed: bool) {
    exists states: seq<S> :: LoopStates(world, task, s, items, states) && t == states[items]
      && (failed <==> exists k :: 0 <= k < items && ItemFails(world, task, states[k]))
  }

  lemma {:induction false} LoopStatesUnique<S>(world: World<S>, task: Task, s: S, items: nat, a: seq<S>, b: seq<S>)
    requires LoopStates(world, task, s, items, a) && LoopStates(world, task, s, items, b)
    ensures a == b
    decreases items
  {
    hide Try;
    if items > 0 {
      LoopStatesUnique(world, task, s, items - 1, a[..items], b[..items]);
      assert a[..items][items - 1] == a[items - 1] && b[..items][items - 1] == b[items - 1];
      assert a == a[..items] + [a[items]] && b == b[..items] + [b[items]];
    } else {
      assert a == [s] && b == [s];
    }
  }

  /** One task of a handler: the state after it, and whether the flush fails there. */
  function HandlerTask<S>(world: World<S>, task: Task, s: S): (S, bool) {
    if task.meta.Some? && task.meta != Some(Noop) then (s, true)
    else
      var a := Try(world, task, s, false);
      if a.hasResult then
        var (settled, inOrder) := world.afterwards(task, a.state);
        (settled, a.failed || !inOrder)
      else (a.state, !task.includes)
  }

  /** A handler fails at a task that steers the engine, at one without a result that includes nothing,
      and at one whose result is a failure or whose notifications are not in order; otherwise it
      goes on in the state that the notifications leave. */
  lemma HandlerTaskMeans<S>(world: World<S>, task: Task, s: S)
    ensures var steers := task.meta.Some? && !task.meta.value.Noop?;
      var a, (t, failed) := Try(world, task, s, false), HandlerTask(world, task, s);
      && (failed <==>
            || steers || (!a.hasResult && !task.includes)
            || (a.hasResult && (a.failed || !world.afterwards(task, a.state).1)))
      && (!steers && a.hasResult ==> t == world.afterwards(task, a.state).0)
      && (!steers && !a.hasResult ==> t == a.state)
  {
  }

  /** A flush from `s` starts `n` handler tasks, each of which is due, and ends in `t`: at one that
      fails, or because no more is due. */
  ghost predicate Flushes<S>(world: World<S>, s: S, n: nat, t: S, failed: bool)
    decreases n
  {
    match world.nextHandlerTask(s)
    case None => n == 0 && t == s && !failed
    case Some(task) =>
      n > 0 &&
      var (s1, bad) := HandlerTask(world, task, s);
      if bad then n == 1 && t == s1 && failed else Flushes(world, s1, n - 1, t, failed)
  }

  /** A flush starts something exactly when a handler is due, and leaves none due unless it fails. */
  lemma {:induction false} FlushIsComplete<S>(world: World<S>, s: S, n: nat, t: S, failed: bool)
    requires Flushes(world, s, n, t, failed)
    ensures n > 0 <==> world.nextHandlerTask(s).Some?
    ensures !failed ==> world.nextHandlerTask(t).None?
    decreases n
  {
    match world.nextHandlerTask(s)
    case None =>
    case Some(task) =>
      var (s1, bad) := HandlerTask(world, task, s);
      if !bad {
        FlushIsComplete(world, s1, n - 1, t, failed);
      }
  }

  /** A flush from `s` that has got through `n` handler tasks to the state `t`. */
  ghost predicate FlushedTo<S>(world: World<S>, s: S, n: nat, t: S)
    decreases n
  {
    if n == 0 then t == s
    else
      match world.nextHandlerTask(s)
      case None => false
      case Some(task) =>
        !HandlerTask(world, task, s).1 && FlushedTo(world, HandlerTask(world, task, s).0, n - 1, t)
  }

  lemma FlushStarts<S>(world: World<S>, s: S)
    ensures FlushedTo(world, s, 0, s)
  {
  }

  /** What comes of the next handler task, if there is one. */
  lemma {:induction false} FlushGoesOn<S>(world: World<S>, s: S, n: nat, t: S)
    requires FlushedTo(world, s, n, t)
    ensures match world.nextHandlerTask(t)
      case None => Flushes(world, s, n, t, false)
      case Some(task) =>
        var (t1, bad) := HandlerTask(world, task, t);
        if bad then Flushes(world, s, n + 1, t1, true) else FlushedTo(world, s, n + 1, t1)
    decreases n
  {
    hide HandlerTask;
    if n > 0 {
      FlushGoesOn(world, HandlerTask(world, world.nextHandlerTask(s).value, s).0, n - 1, t);
    }
  }

  // ----- One turn of the queue

  ghost predicate MetaTurned<S>(world: World<S>, task: Task, s: S, handlers: nat, turn: Turn, t: S)
    requires task.meta.Some?
  {
    match world.metaWhen(task, s)
    case None => turn == FailedHere && t == s && handlers == 0
    case Some(false) => turn == GoOn(false) && t == s && handlers == 0
    case Some(true) =>
      match task.meta.value
      case Noop => turn == GoOn(false) && t == s && handlers == 0
      case FlushHandlers =>
        turn in {GoOn(false), FailedHere} && Flushes(world, s, handlers, t, turn == FailedHere)
      case EndHost => turn == HostEnded && t == s && handlers == 0
      case EndPlay => turn == HostEnded && t == s && handlers == 0
  }

  /** What follows a result: notifications, and the end of the host if anything has failed. */
  ghost predicate Settles<S>(world: World<S>, task: Task, s: S, bad: bool, turn: Turn, t: S) {
    var (settled, inOrder) := world.afterwards(task, s);
    t == settled && turn == if bad || !inOrder then FailedHere else GoOn(false)
  }

  ghost predicate LoopTurned<S(!new)>(world: World<S>, task: Task, s: S, queue: seq<Task>, i: nat, items: nat,
                                      rest: seq<Task>, turn: Turn, t: S)
    requires i < |queue|
  {
    if task.includes then
      match world.loopIncludes(task, s)
      case None => turn == FailedHere && t == s && rest == queue
      case Some(tasks) => turn == GoOn(false) && t == s && rest == Splice(queue, i, tasks)
    else if items == 0 then turn == GoOn(false) && t == s && rest == queue
    else
      rest == queue && exists s1, bad ::
        LoopEnds(world, task, s, items, s1, bad) && Settles(world, task, s1, bad, turn, t)
  }

  ghost predicate OnceTurned<S>(world: World<S>, task: Task, s: S, queue: seq<Task>, i: nat, allowReboot: bool,
                                rest: seq<Task>, turn: Turn, t: S)
    requires i < |queue|
  {
    var a := Try(world, task, s, allowReboot);
    && rest == (if a.included.Some? then Splice(queue, i, a.included.value) else queue)
    && if a.hasResult then
         var (settled, inOrder) := world.afterwards(task, a.state);
         t == settled && turn == if a.failed || !inOrder then FailedHere else GoOn(a.rebooted)
       else t == a.state && turn == if task.includes then GoOn(false) else FailedHere
  }

  /** One turn of the queue as it was gone through: the task, the state and the queue before and
      after, how it ended and how many handler tasks it started. */
  datatype Step<S> = Step(task: Task, before: S, queue: seq<Task>, handlers: nat, turn: Turn, after: S, rest: seq<Task>)

  ghost predicate Turned<S(!new)>(world: World<S>, step: Step<S>, i: nat, mayReboot: bool) {
    var task, s := step.task, step.before;
    && i < |step.queue| && task == step.queue[i] && step.turn != TurnsUp
    && if !world.prepare(task, s) then
         step.turn == FailedHere && step.after == s && step.rest == step.queue && step.handlers == 0
       else if task.meta.Some? && task.meta != Some(Noop) then
         step.rest == step.queue && MetaTurned(world, task, s, step.handlers, step.turn, step.after)
       else
         step.handlers == 0 &&
         match world.loopItems(task, s)
         case None => step.turn == FailedHere && step.after == s && step.rest == step.queue
         case Some(Some(items)) => LoopTurned(world, task, s, step.queue, i, items, step.rest, step.turn, step.after)
         case Some(None) =>
           OnceTurned(world, task, s, step.queue, i, mayReboot && i == |step.queue| - 1,
                      step.rest, step.turn, step.after)
  }

  /** What an ordinary task that is run once comes to.  It fails the host if its result is a failure, if
      its notifications are not in order, or if it has no result and includes nothing; only what it
      includes goes into the queue, right behind it. */
  lemma OnceMeans<S(!new)>(world: World<S>, step: Step<S>, i: nat, mayReboot: bool)
    requires Turned(world, step, i, mayReboot) && world.prepare(step.task, step.before)
    requires step.task.meta in {None, Some(Noop)} && world.loopItems(step.task, step.before) == Some(None)
    ensures var a := Try(world, step.task, step.before, mayReboot && i + 1 == |step.queue|);
      && (step.turn.FailedHere? <==>
            if a.hasResult then a.failed || !world.afterwards(step.task, a.state).1 else !step.task.includes)
      && (step.turn == GoOn(true) ==> a.rebooted)
      && step.after == (if a.hasResult then world.afterwards(step.task, a.state).0 else a.state)
      && (a.included.None? ==> step.rest == step.queue)
      && (a.included.Some? ==> step.rest == step.queue[..i] + [step.task] + a.included.value + step.queue[i + 1..])
  {
    assert step.queue[..i + 1] == step.queue[..i] + [step.task];
  }

  /** What a task with a loop comes to, when it goes through the given states: it fails the host if any
      item fails or has no result, or if the notifications are not in order. */
  lemma LoopedMeans<S(!new)>(world: World<S>, step: Step<S>, i: nat, mayReboot: bool, items: nat, states: seq<S>)
    requires Turned(world, step, i, mayReboot) && world.prepare(step.task, step.before)
    requires step.task.meta in {None, Some(Noop)} && world.loopItems(step.task, step.before) == Some(Some(items))
    requires !step.task.includes && LoopStates(world, step.task, step.before, items, states) && items > 0
    ensures var settled := world.afterwards(step.task, states[items]);
      && (step.turn.FailedHere? <==>
            || !settled.1
            || exists k :: 0 <= k < items &&
                 var a := Try(world, step.task, states[k], false); !a.hasResult || a.failed)
      && step.after == settled.0 && step.rest == step.queue
  {
    hide Try, Splice;
    var s1, bad :| LoopEnds(world, step.task, step.before, items, s1, bad)
      && Settles(world, step.task, s1, bad, step.turn, step.after);
    var others: seq<S> :| LoopStates(world, step.task, step.before, items, others) && s1 == others[items]
      && (bad <==> exists k :: 0 <= k < items && ItemFails(world, step.task, others[k]));
    LoopStatesUnique(world, step.task, step.before, items, states, others);
    assert forall k :: 0 <= k < items ==>
      (ItemFails(world, step.task, states[k]) <==>
         var a := Try(world, step.task, states[k], false); !a.hasResult || a.failed);
  }

  /** Handlers are started in the course of the queue exactly by a task that flushes them while one is
      due; and it leaves none due unless it fails.  Only a task that says so ends the host. */
  lemma MetaMeans<S(!new)>(world: World<S>, step: Step<S>, i: nat, mayReboot: bool)
    requires Turned(world, step, i, mayReboot)
    ensures var meant := world.prepare(step.task, step.before) && world.metaWhen(step.task, step.before) == Some(true);
      && (step.handlers > 0 <==>
            meant && step.task.meta == Some(FlushHandlers) && world.nextHandlerTask(step.before).Some?)
      && (meant && step.task.meta == Some(FlushHandlers) && !step.turn.FailedHere? ==>
            world.nextHandlerTask(step.after).None?)
      && (step.turn.HostEnded? <==> meant && step.task.meta in {Some(EndHost), Some(EndPlay)})
  {
    hide Try, Splice, LoopEnds;
    var task, s := step.task, step.before;
    if task.meta == Some(FlushHandlers) && world.prepare(task, s) && world.metaWhen(task, s) == Some(true) {
      FlushIsComplete(world, s, step.handlers, step.after, step.turn == FailedHere);
    }
  }

  /** The task gets as far as issuing a reboot. */
  predicate Dispatches<S>(world: World<S>, task: Task, s: S, allowReboot: bool) {
    allowReboot && KindOf(task) == Reboot && world.settle(task, s).None? && world.renderReboot(task, s)
  }

  /** The step issues a reboot. */
  predicate RebootsAt<S>(world: World<S>, step: Step<S>, i: nat, mayReboot: bool) {
    && world.prepare(step.task, step.before) && (step.task.meta.None? || step.task.meta == Some(Noop))
    && world.loopItems(step.task, step.before) == Some(None)
    && Dispatches(world, step.task, step.before, mayReboot && i == |step.queue| - 1)
  }

  ghost function Handlers<S>(n: nat): (r: seq<Event<S>>)
    ensures |r| == n && forall k :: 0 <= k < n ==> r[k] == HandlerTaskStarted
  {
    seq(n, _ => HandlerTaskStarted)
  }

  /** What a step adds to the log. */
  ghost function Trace<S>(world: World<S>, playbook: nat, step: Step<S>, i: nat, mayReboot: bool): seq<Event<S>> {
    [TaskStarted(playbook, i, |step.queue|, step.task)]
    + (if RebootsAt(world, step, i, mayReboot) then
         [RebootIssued(step.before, world.reboot(step.task, step.before).1, world.reboot(step.task, step.before).0)]
       else [])
    + Handlers(step.handlers)
  }

  /** A step that ends before its task is dispatched. */
  lemma FailsEarly<S(!new)>(world: World<S>, playbook: nat, step: Step<S>, i: nat, mayReboot: bool)
    requires i < |step.queue| && step.task == step.queue[i] && step.handlers == 0
    requires step.turn.FailedHere? && step.after == step.before && step.rest == step.queue
    requires !world.prepare(step.task, step.before)
      || (step.task.meta in {None, Some(Noop)} && world.loopItems(step.task, step.before).None?)
    ensures Turned(world, step, i, mayReboot)
    ensures Trace(world, playbook, step, i, mayReboot) == [TaskStarted(playbook, i, |step.queue|, step.task)]
  {
  }

  lemma Steers<S(!new)>(world: World<S>, playbook: nat, step: Step<S>, i: nat, mayReboot: bool)
    requires i < |step.queue| && step.task == step.queue[i] && world.prepare(step.task, step.before)
    requires step.task.meta.Some? && step.task.meta != Some(Noop) && step.rest == step.queue && step.turn != TurnsUp
    requires MetaTurned(world, step.task, step.before, step.handlers, step.turn, step.after)
    ensures Turned(world, step, i, mayReboot)
    ensures Trace(world, playbook, step, i, mayReboot) ==
      [TaskStarted(playbook, i, |step.queue|, step.task)] + Handlers(step.handlers)
  {
    hide MetaTurned;
  }

  lemma Loops<S(!new)>(world: World<S>, playbook: nat, step: Step<S>, i: nat, mayReboot: bool, items: nat)
    requires i < |step.queue| && step.task == step.queue[i] && world.prepare(step.task, step.before)
    requires step.task.meta in {None, Some(Noop)} && step.handlers == 0 && step.turn != TurnsUp
    requires world.loopItems(step.task, step.before) == Some(Some(items))
    requires LoopTurned(world, step.task, step.before, step.queue, i, items, step.rest, step.turn, step.after)
    ensures Turned(world, step, i, mayReboot)
    ensures Trace(world, playbook, step, i, mayReboot) == [TaskStarted(playbook, i, |step.queue|, step.task)]
  {
    hide LoopTurned;
  }

  lemma RunsOnce<S(!new)>(world: World<S>, playbook: nat, step: Step<S>, i: nat, mayReboot: bool)
    requires i < |step.queue| && step.task == step.queue[i] && world.prepare(step.task, step.before)
    requires step.task.meta in {None, Some(Noop)} && step.handlers == 0 && step.turn != TurnsUp
    requires world.loopItems(step.task, step.before) == Some(None)
    requires OnceTurned(world, step.task, step.before, step.queue, i, mayReboot && i == |step.queue| - 1,
                        step.rest, step.turn, step.after)
    ensures Turned(world, step, i, mayReboot)
    ensures var (after, ok) := world.reboot(step.task, step.before);
      Trace(world, playbook, step, i, mayReboot) ==
        [TaskStarted(playbook, i, |step.queue|, step.task)]
        + if Dispatches(world, step.task, step.before, mayReboot && i == |step.queue| - 1)
          then [RebootIssued(step.before, ok, after)] else []
  {
    hide OnceTurned, Dispatches;
  }

  lemma NoHandlers<S>(world: World<S>, playbook: nat, step: Step<S>, i: nat, mayReboot: bool)
    requires step.handlers == 0
    ensures Trace(world, playbook, step, i, mayReboot) ==
      [TaskStarted(playbook, i, |step.queue|, step.task)]
      + if RebootsAt(world, step, i, mayReboot)
        then [RebootIssued(step.before, world.reboot(step.task, step.before).1, world.reboot(step.task, step.before).0)]
        else []
  {
    hide RebootsAt;
  }

  // ----- One playbook

  function CountRebootTasks(tasks: seq<Task>): nat {
    if tasks == [] then 0 else (if tasks[0].reboot then 1 else 0) + CountRebootTasks(tasks[1..])
  }

  lemma {:induction false} NoRebootTask(tasks: seq<Task>)
    ensures CountRebootTasks(tasks) == 0 <==> forall t <- tasks :: !t.reboot
  {
    if tasks != [] {
      NoRebootTask(tasks[1..]);
      assert tasks == [tasks[0]] + tasks[1..];
    }
  }

  /** The queue is refused exactly when two of its entries reboot. */
  lemma {:induction false} TwoReboots(tasks: seq<Task>)
    ensures CountRebootTasks(tasks) > 1 <==> exists i, j :: 0 <= i < j < |tasks| && tasks[i].reboot && tasks[j].reboot
  {
    if tasks != [] {
      var rest := tasks[1..];
      TwoReboots(rest);
      NoRebootTask(rest);
      if i, j :| 0 <= i < j < |rest| && rest[i].reboot && rest[j].reboot {
        assert tasks[i + 1].reboot && tasks[j + 1].reboot;
      }
      if i, j :| 0 <= i < j < |tasks| && tasks[i].reboot && tasks[j].reboot {
        assert rest[j - 1].reboot && (i > 0 ==> rest[i - 1].reboot);
      }
      if t :| t in rest && t.reboot {
        var j :| 0 <= j < |rest| && rest[j] == t;
        assert tasks[j + 1].reboot;
      }
    }
  }

  function StateAt<S>(s: S, walk: seq<Step<S>>, i: nat): S
    requires i <= |walk|
  {
    if i == 0 then s else walk[i - 1].after
  }

  function QueueAt<S>(tasks: seq<Task>, walk: seq<Step<S>>, i: nat): seq<Task>
    requires i <= |walk|
  {
    if i == 0 then tasks else walk[i - 1].rest
  }

  predicate GoesOn<S>(walk: seq<Step<S>>) {
    walk == [] || walk[|walk| - 1].turn.GoOn?
  }

  /** The walk goes from entry to entry of the growing queue, on the state each has left. */
  ghost predicate Walked<S(!new)>(world: World<S>, tasks: seq<Task>, s: S, mayReboot: bool, walk: seq<Step<S>>) {
    forall i :: 0 <= i < |walk| ==>
      && walk[i].before == StateAt(s, walk, i) && walk[i].queue == QueueAt(tasks, walk, i)
      && !world.cancelled(walk[i].before) && CountRebootTasks(walk[i].queue) <= 1
      && Turned(world, walk[i], i, mayReboot)
      && (i < |walk| - 1 ==> walk[i].turn.GoOn?)
  }

  /** The log of a walk. */
  ghost function Traces<S>(world: World<S>, playbook: nat, walk: seq<Step<S>>, mayReboot: bool): seq<Event<S>> {
    if walk == [] then []
    else
      Traces(world, playbook, walk[..|walk| - 1], mayReboot)
      + Trace(world, playbook, walk[|walk| - 1], |walk| - 1, mayReboot)
  }

  lemma SameBefore<S>(tasks: seq<Task>, s: S, walk: seq<Step<S>>, step: Step<S>, i: nat)
    requires i <= |walk|
    ensures StateAt(s, walk + [step], i) == StateAt(s, walk, i)
    ensures QueueAt(tasks, walk + [step], i) == QueueAt(tasks, walk, i)
  {
  }

  lemma OneMoreStep<S(!new)>(world: World<S>, playbook: nat, tasks: seq<Task>, s: S, mayReboot: bool,
                             walk: seq<Step<S>>, step: Step<S>)
    requires Walked(world, tasks, s, mayReboot, walk) && GoesOn(walk)
    requires step.before == StateAt(s, walk, |walk|) && step.queue == QueueAt(tasks, walk, |walk|)
    requires !world.cancelled(step.before) && CountRebootTasks(step.queue) <= 1
    requires Turned(world, step, |walk|, mayReboot)
    ensures Walked(world, tasks, s, mayReboot, walk + [step])
    ensures Traces(world, playbook, walk + [step], mayReboot) ==
      Traces(world, playbook, walk, mayReboot) + Trace(world, playbook, step, |walk|, mayReboot)
  {
    hide Turned, Trace, CountRebootTasks, StateAt, QueueAt;
    var more := walk + [step];
    assert more[..|walk|] == walk;
    forall i | 0 <= i < |more|
      ensures more[i].before == StateAt(s, more, i) && more[i].queue == QueueAt(tasks, more, i)
      ensures !world.cancelled(more[i].before) && CountRebootTasks(more[i].queue) <= 1
      ensures Turned(world, more[i], i, mayReboot) && (i < |more| - 1 ==> more[i].turn.GoOn?)
    {
      SameBefore(tasks, s, walk, step, i);
      if i < |walk| {
        assert more[i] == walk[i];
      }
    }
  }

  /** The task loop has come to its end: a task has failed, there are two reboots in the queue, the
      host has been ended, or the queue has. */
  predicate LoopFailed<S>(tasks: seq<Task>, walk: seq<Step<S>>) {
    || (walk != [] && walk[|walk| - 1].turn.FailedHere?)
    || (GoesOn(walk) && |walk| < |QueueAt(tasks, walk, |walk|)| && CountRebootTasks(QueueAt(tasks, walk, |walk|)) > 1)
  }

  predicate HostEndedBy<S>(walk: seq<Step<S>>) {
    walk != [] && walk[|walk| - 1].turn.HostEnded?
  }

  predicate HasRebooted<S>(walk: seq<Step<S>>) {
    walk != [] && walk[|walk| - 1].turn == GoOn(true)
  }

  /** What a whole playbook comes to: its walk, `n` handler tasks started after it, and the state and
      result in the end.  Handlers are flushed unless the host has been ended, or has failed and
      they are not forced. */
  ghost predicate Plays<S(!new)>(world: World<S>, playbook: nat, tasks: seq<Task>, s: S, mayReboot: bool,
                                 walk: seq<Step<S>>, n: nat, t: S, result: RunResult) {
    && Walked(world, tasks, s, mayReboot, walk)
    && (GoesOn(walk) ==> |walk| == |QueueAt(tasks, walk, |walk|)| || LoopFailed(tasks, walk))
    && result.rebootInitiated == HasRebooted(walk)
    && if HostEndedBy(walk) || (LoopFailed(tasks, walk) && !world.forceHandlers(playbook)) then
         n == 0 && t == StateAt(s, walk, |walk|) && result.failed == LoopFailed(tasks, walk)
       else
         exists bad :: Flushes(world, StateAt(s, walk, |walk|), n, t, bad)
           && result.failed == (LoopFailed(tasks, walk) || bad)
  }

  lemma PlaysWithFlush<S(!new)>(world: World<S>, playbook: nat, tasks: seq<Task>, s: S, mayReboot: bool,
                                walk: seq<Step<S>>, n: nat, t: S, bad: bool)
    requires Walked(world, tasks, s, mayReboot, walk)
    requires GoesOn(walk) ==> |walk| == |QueueAt(tasks, walk, |walk|)| || LoopFailed(tasks, walk)
    requires !HostEndedBy(walk) && (LoopFailed(tasks, walk) ==> world.forceHandlers(playbook))
    requires Flushes(world, StateAt(s, walk, |walk|), n, t, bad)
    ensures Plays(world, playbook, tasks, s, mayReboot, walk, n, t,
                  RunResult(LoopFailed(tasks, walk) || bad, HasRebooted(walk)))
  {
    hide Walked, GoesOn, LoopFailed, HostEndedBy, HasRebooted, QueueAt, StateAt, Flushes;
  }

  lemma PlaysWithoutFlush<S(!new)>(world: World<S>, playbook: nat, tasks: seq<Task>, s: S, mayReboot: bool,
                                   walk: seq<Step<S>>)
    requires Walked(world, tasks, s, mayReboot, walk)
    requires GoesOn(walk) ==> |walk| == |QueueAt(tasks, walk, |walk|)| || LoopFailed(tasks, walk)
    requires HostEndedBy(walk) || (LoopFailed(tasks, walk) && !world.forceHandlers(playbook))
    ensures Plays(world, playbook, tasks, s, mayReboot, walk, 0, StateAt(s, walk, |walk|),
                  RunResult(LoopFailed(tasks, walk), HasRebooted(walk)))
  {
    hide Walked, GoesOn, LoopFailed, HostEndedBy, HasRebooted, QueueAt, StateAt, Flushes;
  }

  /** After the task loop handlers are started exactly when one is due and they are flushed at all;
      and a playbook that ends well leaves none due. */
  lemma PlaysFlushes<S(!new)>(world: World<S>, playbook: nat, tasks: seq<Task>, s: S, mayReboot: bool,
                              walk: seq<Step<S>>, n: nat, t: S, result: RunResult)
    requires Plays(world, playbook, tasks, s, mayReboot, walk, n, t, result)
    ensures n > 0 <==>
      && !HostEndedBy(walk) && (!LoopFailed(tasks, walk) || world.forceHandlers(playbook))
      && world.nextHandlerTask(StateAt(s, walk, |walk|)).Some?
    ensures !result.failed && !HostEndedBy(walk) ==> world.nextHandlerTask(t).None?
  {
    hide Walked, LoopFailed;
    if !HostEndedBy(walk) && (!LoopFailed(tasks, walk) || world.forceHandlers(playbook)) {
      var bad :| Flushes(world, StateAt(s, walk, |walk|), n, t, bad)
        && result.failed == (LoopFailed(tasks, walk) || bad);
      FlushIsComplete(world, StateAt(s, walk, |walk|), n, t, bad);
    }
  }

  // ----- The whole deployment

  /** One playbook that has been gone through to its end. */
  datatype Play<S> = Play(tasks: seq<Task>, before: S, walk: seq<Step<S>>, flushed: nat, after: S, result: RunResult)

  function PlayedTo<S>(s: S, plays: seq<Play<S>>, p: nat): S
    requires p <= |plays|
  {
    if p == 0 then s else plays[p - 1].after
  }

  /** The `p`-th playbook goes on from the one before. */
  ghost predicate PlayedAt<S(!new)>(world: World<S>, total: nat, p: nat, before: S, play: Play<S>) {
    && play.before == before && world.load(p, before) == Some(play.tasks)
    && Plays(world, p, play.tasks, before, p == total - 1, play.walk, play.flushed, play.after, play.result)
  }

  lemma IsPlayed<S(!new)>(world: World<S>, total: nat, p: nat, play: Play<S>)
    requires world.load(p, play.before) == Some(play.tasks)
    requires Plays(world, p, play.tasks, play.before, p == total - 1, play.walk, play.flushed, play.after, play.result)
    ensures PlayedAt(world, total, p, play.before, play)
  {
    hide Plays;
  }

  /** The playbooks follow each other, each as it is loaded in the state the one before has left, and
      only the last of all may reboot. */
  ghost predicate Deployed<S(!new)>(world: World<S>, total: nat, s: S, plays: seq<Play<S>>) {
    && |plays| <= total
    && forall p :: 0 <= p < |plays| ==>
      PlayedAt(world, total, p, PlayedTo(s, plays, p), plays[p]) && (p < |plays| - 1 ==> !plays[p].result.failed)
  }

  /** The log of a deployment. */
  ghost function LogOf<S>(world: World<S>, total: nat, plays: seq<Play<S>>): seq<Event<S>> {
    if plays == [] then []
    else
      var p := |plays| - 1;
      LogOf(world, total, plays[..p]) + [PlaybookStarted(p)] + Traces(world, p, plays[p].walk, p == total - 1)
      + Handlers(plays[p].flushed)
  }

  lemma OneMorePlay<S(!new)>(world: World<S>, total: nat, s: S, plays: seq<Play<S>>, play: Play<S>)
    requires Deployed(world, total, s, plays) && (plays != [] ==> !plays[|plays| - 1].result.failed)
    requires |plays| < total && PlayedAt(world, total, |plays|, PlayedTo(s, plays, |plays|), play)
    ensures Deployed(world, total, s, plays + [play]) && PlayedTo(s, plays + [play], |plays| + 1) == play.after
    ensures LogOf(world, total, plays + [play]) ==
      LogOf(world, total, plays) + [PlaybookStarted(|plays|)]
      + Traces(world, |plays|, play.walk, |plays| == total - 1) + Handlers(play.flushed)
  {
    hide PlayedAt, Traces;
    var more := plays + [play];
    assert more[..|plays|] == plays;
    forall p | 0 <= p < |more|
      ensures PlayedAt(world, total, p, PlayedTo(s, more, p), more[p])
      ensures p < |more| - 1 ==> !more[p].result.failed
    {
      assert p > 0 ==> more[p - 1] == plays[p - 1];
      if p < |plays| {
        assert more[p] == plays[p];
      }
    }
  }

  /** Of a deployment in which no playbook has failed, each has left no handler due, unless a task has
      ended the host; and in any, handlers were started after the tasks of a playbook exactly when
      one was due and they were flushed at all. */
  lemma DeployedFlushes<S(!new)>(world: World<S>, total: nat, s: S, plays: seq<Play<S>>, p: nat)
    requires Deployed(world, total, s, plays) && p < |plays|
    ensures !plays[p].result.failed && !HostEndedBy(plays[p].walk) ==> world.nextHandlerTask(plays[p].after).None?
    ensures plays[p].flushed > 0 <==>
      && !HostEndedBy(plays[p].walk) && (!LoopFailed(plays[p].tasks, plays[p].walk) || world.forceHandlers(p))
      && world.nextHandlerTask(StateAt(plays[p].before, plays[p].walk, |plays[p].walk|)).Some?
  {
    hide Plays, LoopFailed, HostEndedBy;
    var play := plays[p];
    assert PlayedAt(world, total, p, PlayedTo(s, plays, p), play);
    PlaysFlushes(world, p, play.tasks, play.before, p == total - 1, play.walk, play.flushed, play.after, play.result);
  }
}
