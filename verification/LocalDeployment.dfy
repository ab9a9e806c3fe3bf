/** A deployment carried out on the local machine: a project of playbooks, whose last task may
    reboot the machine. */
module LocalDeployment {
  import opened Values
  import opened LocalEngine

  // ----- What must hold of every log

  ghost predicate NoReboot<S>(log: seq<Event<S>>) {
    forall e <- log :: !e.RebootIssued?
  }

  /** At most one reboot is issued, right after the start of the last queued task of the
      playbook `last`, and nothing is started after it. */
  ghost predicate Safe<S>(log: seq<Event<S>>, last: int) {
    forall i :: 0 <= i < |log| && log[i].RebootIssued? ==>
      && i > 0 && log[i - 1].TaskStarted? && log[i - 1].playbook == last
      && log[i - 1].index == log[i - 1].queued - 1
      && forall j :: i < j < |log| ==> log[j].HandlerTaskStarted?
  }

  /** The log has grown by handler tasks only. */
  ghost predicate OnlyHandlersAdded<S>(before: seq<Event<S>>, log: seq<Event<S>>) {
    before <= log && forall i :: |before| <= i < |log| ==> log[i].HandlerTaskStarted?
  }

  /** What a log starts, apart from handlers: playbooks, and entries of their queues. */
  datatype Start = Playbook(playbook: nat) | Entry(playbook: nat, index: nat)

  function Starts<S>(log: seq<Event<S>>): seq<Start> {
    if log == [] then []
    else
      Starts(log[..|log| - 1]) +
      match log[|log| - 1]
      case PlaybookStarted(p) => [Playbook(p)]
      case TaskStarted(p, i, _, _) => [Entry(p, i)]
      case HandlerTaskStarted => []
      case RebootIssued(_, _, _) => []
  }

  /** The first `n` entries of the queue of a playbook, in order. */
  function Entries(playbook: nat, n: nat): (r: seq<Start>)
    ensures |r| == n && forall i :: 0 <= i < n ==> r[i] == Entry(playbook, i)
  {
    seq(n, i requires 0 <= i < n => Entry(playbook, i))
  }

  /** Playbooks in order, of each as many entries as `counts` says, none passed over. */
  function InSequence(counts: seq<nat>): seq<Start> {
    if counts == [] then []
    else
      var p := |counts| - 1;
      InSequence(counts[..p]) + [Playbook(p)] + Entries(p, counts[p])
  }

  lemma StartsOne<S>(log: seq<Event<S>>, e: Event<S>)
    ensures Starts(log + [e]) == Starts(log) +
      if e.PlaybookStarted? then [Playbook(e.playbook)]
      else if e.TaskStarted? then [Entry(e.playbook, e.index)]
      else []
  {
    assert (log + [e])[..|log|] == log;
  }

  lemma {:induction false} HandlersStartNothing<S>(before: seq<Event<S>>, log: seq<Event<S>>)
    requires OnlyHandlersAdded(before, log)
    ensures Starts(log) == Starts(before)
    decreases |log|
  {
    if |log| > |before| {
      var init := log[..|log| - 1];
      HandlersStartNothing(before, init);
      assert log == init + [HandlerTaskStarted];
      StartsOne(init, HandlerTaskStarted);
    } else {
      assert log == before;
    }
  }

  lemma StartsNothing<S>(log: seq<Event<S>>)
    requires log == []
    ensures NoReboot(log) && Starts(log) == InSequence([])
  {
  }

  lemma OneMoreEntry(starts: seq<Start>, playbook: nat, n: nat)
    ensures starts + Entries(playbook, n) + [Entry(playbook, n)] == starts + Entries(playbook, n + 1)
    ensures starts + Entries(playbook, 0) == starts
  {
  }

  lemma OneMorePlaybook(counts: seq<nat>, n: nat)
    ensures InSequence(counts + [n]) == InSequence(counts) + [Playbook(|counts|)] + Entries(|counts|, n)
  {
    assert (counts + [n])[..|counts|] == counts;
  }

  ghost predicate Rebooted<S>(log: seq<Event<S>>) {
    exists e <- log :: e.RebootIssued? && e.ok
  }

  /** The reboot, if one is issued, is the very last thing the log shows. */
  predicate EndsWithReboot<S>(log: seq<Event<S>>) {
    log != [] && log[|log| - 1].RebootIssued?
  }

  lemma SafeHasOneReboot<S>(log: seq<Event<S>>, last: int, i: nat, j: nat)
    requires Safe(log, last) && i < |log| && j < |log| && log[i].RebootIssued? && log[j].RebootIssued?
    ensures i == j
  {
  }

  lemma NoRebootIsSafe<S>(log: seq<Event<S>>, last: int)
    requires NoReboot(log)
    ensures Safe(log, last)
  {
    forall i | 0 <= i < |log|
      ensures !log[i].RebootIssued?
    {
      assert log[i] in log;
    }
  }

  // ----- Preflight

  datatype PreflightError =
    | CannotLoad(playbook: nat)
    | LoopedReboot(task: Task)
    | MisplacedReboot(task: Task)
    | TooManyReboots

  /** Every reboot that can be seen in the expanded playbooks is an unlooped last task of the
      last playbook. */
  ghost predicate WellPlaced(playbooks: seq<seq<Task>>) {
    forall p, t :: 0 <= p < |playbooks| && 0 <= t < |playbooks[p]| && playbooks[p][t].reboot ==>
      !playbooks[p][t].looped && p == |playbooks| - 1 && t == |playbooks[p]| - 1
  }

  function Expanded(playbooks: seq<Option<seq<Task>>>): (r: seq<seq<Task>>)
    ensures |r| == |playbooks|
    ensures forall p :: 0 <= p < |r| ==> r[p] == if playbooks[p].Some? then playbooks[p].value else []
  {
    seq(|playbooks|, p requires 0 <= p < |playbooks| => if playbooks[p].Some? then playbooks[p].value else [])
  }

  /** The check that there is at most one reboot can never fail: by then the placement check
      has already refused. */
  method ValidateRebootPlacement(playbooks: seq<Option<seq<Task>>>) returns (err: Option<PreflightError>)
    ensures err.None? <==>
      (forall p :: 0 <= p < |playbooks| ==> playbooks[p].Some?) && WellPlaced(Expanded(playbooks))
    ensures err != Some(TooManyReboots)
  {
    var rebootCount := 0;
    for p := 0 to |playbooks|
      invariant forall q :: 0 <= q < p ==> playbooks[q].Some?
      invariant forall q, t :: 0 <= q < p && 0 <= t < |playbooks[q].value| && playbooks[q].value[t].reboot ==>
        !playbooks[q].value[t].looped && q == |playbooks| - 1 && t == |playbooks[q].value| - 1
      invariant rebootCount > 0 ==> p == |playbooks|
      invariant rebootCount <= 1
    {
      if playbooks[p].None? {
        return Some(CannotLoad(p));
      }
      var tasks := playbooks[p].value;
      for t := 0 to |tasks|
        invariant forall u :: 0 <= u < t && tasks[u].reboot ==>
          !tasks[u].looped && p == |playbooks| - 1 && u == |tasks| - 1
        invariant rebootCount > 0 ==> p == |playbooks| - 1 && t == |tasks|
        invariant rebootCount <= 1
      {
        assert Expanded(playbooks)[p][t] == tasks[t];
        if tasks[t].reboot {
          rebootCount := rebootCount + 1;
          if tasks[t].looped {
            return Some(LoopedReboot(tasks[t]));
          }
          var finalPlaybook := p == |playbooks| - 1;
          var finalTask := t == |tasks| - 1;
          if !finalPlaybook || !finalTask {
            return Some(MisplacedReboot(tasks[t]));
          }
        }
      }
    }
    if rebootCount > 1 {
      return Some(TooManyReboots);
    }
    err := None;
  }

  // ----- Running

  /** How the loop over the queue of a playbook ends. */
  datatype LoopEnd = Over(failed: bool, hostEnded: bool, rebootInitiated: bool) | Interrupted(ending: Ending)

  datatype Outcome =
    | Refused(error: PreflightError)
    | Failed(playbook: nat)
    | Done(rebooted: bool)
    | StillRunning

  /** The same for a task of the queue. */
  predicate RebootsIn<S>(world: World<S>, task: Task, s: S, mayReboot: bool) {
    && world.prepare(task, s) && task.meta.None? && world.loopItems(task, s) == Some(None)
    && Dispatches(world, task, s, mayReboot)
  }

  /** After the reboot of `task`, no handler is due, or none is run because the host has failed. */
  predicate NothingFollows<S>(world: World<S>, playbook: nat, task: Task, ok: bool, after: S) {
    var (settled, inOrder) := world.afterwards(task, after);
    world.nextHandlerTask(settled).None? || ((!ok || !inOrder) && !world.forceHandlers(playbook))
  }

  ghost predicate FromWorld<S>(world: World<S>, task: Task, e: Event<S>)
    requires e.RebootIssued?
  {
    && KindOf(task) == Reboot && world.renderReboot(task, e.before)
    && world.reboot(task, e.before).0 == e.after && world.reboot(task, e.before).1 == e.ok
  }

  /** Every reboot of the log is what the world makes of the task started just before it. */
  ghost predicate Genuine<S>(world: World<S>, log: seq<Event<S>>) {
    forall i :: 0 <= i < |log| && log[i].RebootIssued? ==>
      i > 0 && log[i - 1].TaskStarted? && FromWorld(world, log[i - 1].task, log[i])
  }

  /** A reboot is the end of the log exactly when nothing follows it. */
  ghost predicate Followed<S>(world: World<S>, log: seq<Event<S>>) {
    forall i :: 0 <= i < |log| && log[i].RebootIssued? ==>
      && i > 0 && log[i - 1].TaskStarted?
      && (i == |log| - 1 <==> NothingFollows(world, log[i - 1].playbook, log[i - 1].task, log[i].ok, log[i].after))
  }

  /** The log ends with a reboot that has been attended to, after which the host is in the given
      state and has failed or not. */
  ghost predicate JustRebooted<S>(world: World<S>, log: seq<Event<S>>, state: S, failed: bool) {
    var n := |log|;
    && n >= 2 && log[n - 1].RebootIssued? && log[n - 2].TaskStarted?
    && FromWorld(world, log[n - 2].task, log[n - 1])
    && var (settled, inOrder) := world.afterwards(log[n - 2].task, log[n - 1].after);
      settled == state && (failed <==> !log[n - 1].ok || !inOrder)
  }

  /** The playbook is one task that reboots, and the run is looked at for long enough. */
  predicate Single<S>(world: World<S>, tasks: seq<Task>, s: S, mayReboot: bool, turns: nat) {
    |tasks| == 1 && RebootsIn(world, tasks[0], s, mayReboot) && !world.cancelled(s) && turns > 1
  }

  /** What a flush of handlers adds, or its absence, settles what follows the reboot. */
  lemma FlushedAfterReboot<S>(world: World<S>, before: seq<Event<S>>, log: seq<Event<S>>, state: S, failed: bool,
                              playbook: nat)
    requires Safe(before, playbook) && OnlyHandlersAdded(before, log) && JustRebooted(world, before, state, failed)
    requires log == before <==>
      world.nextHandlerTask(state).None? || (failed && !world.forceHandlers(playbook))
    ensures Followed(world, log) && Genuine(world, log)
  {
    var n := |before|;
    forall i | 0 <= i < |log| && log[i].RebootIssued?
      ensures i == n - 1
    {
      assert i < n && before[i] == log[i];
    }
    assert log[n - 1] == before[n - 1] && log[n - 2] == before[n - 2];
  }

  lemma NothingToFollow<S>(world: World<S>, log: seq<Event<S>>)
    requires NoReboot(log)
    ensures Followed(world, log) && Genuine(world, log)
  {
    forall i | 0 <= i < |log|
      ensures !log[i].RebootIssued?
    {
      assert log[i] in log;
    }
  }

  lemma HandlersKeepSafe<S>(before: seq<Event<S>>, log: seq<Event<S>>, playbook: nat)
    requires Safe(before, playbook) && OnlyHandlersAdded(before, log)
    ensures Safe(log, playbook) && (NoReboot(before) <==> NoReboot(log))
  {
    forall e | e in log && e.RebootIssued?
      ensures e in before
    {
      var i :| 0 <= i < |log| && log[i] == e;
      assert before[i] == e;
    }
    forall e | e in before
      ensures e in log
    {
      var i :| 0 <= i < |before| && before[i] == e;
      assert log[i] == e;
    }
  }

  lemma HandlersAdded<S>(before: seq<Event<S>>, log: seq<Event<S>>)
    requires OnlyHandlersAdded(before, log)
    ensures |before| <= |log| && log == before + Handlers(|log| - |before|)
  {
  }

  lemma NoHandlersAdded<S>(log: seq<Event<S>>)
    ensures OnlyHandlersAdded(log, log)
  {
  }

  lemma OneHandlerAdded<S>(before: seq<Event<S>>, log: seq<Event<S>>)
    requires OnlyHandlersAdded(before, log)
    ensures OnlyHandlersAdded(before, log + [HandlerTaskStarted]) && log + [HandlerTaskStarted] != before
  {
  }

  /** How the log of a playbook ends, whether handlers have been flushed or not. */
  lemma PlaybookEnds<S>(world: World<S>, before: seq<Event<S>>, log: seq<Event<S>>, state: S, failed: bool,
                        playbook: nat)
    requires Safe(before, playbook) && OnlyHandlersAdded(before, log)
    requires !NoReboot(before) ==> JustRebooted(world, before, state, failed)
    ensures before <= log && Safe(log, playbook) && (NoReboot(before) <==> NoReboot(log))
    ensures Starts(log) == Starts(before) && (Rebooted(before) ==> Rebooted(log))
    ensures NoReboot(log)
      || (log == before <==> world.nextHandlerTask(state).None? || (failed && !world.forceHandlers(playbook)))
      ==> Followed(world, log) && Genuine(world, log)
  {
    hide Safe, NoReboot, JustRebooted, Starts, Followed, Genuine;
    HandlersKeepSafe(before, log, playbook);
    HandlersStartNothing(before, log);
    if NoReboot(log) {
      NothingToFollow(world, log);
    } else if log == before <==> world.nextHandlerTask(state).None? || (failed && !world.forceHandlers(playbook)) {
      FlushedAfterReboot(world, before, log, state, failed, playbook);
    }
  }

  lemma StillNoReboot<S>(log: seq<Event<S>>, e: Event<S>)
    requires NoReboot(log) && !e.RebootIssued?
    ensures NoReboot(log + [e])
  {
  }

  lemma RebootAtEndIsSafe<S>(before: seq<Event<S>>, log: seq<Event<S>>, playbook: nat, issued: bool, e: Event<S>)
    requires NoReboot(before) && before != []
    requires e.RebootIssued? && log == if issued then before + [e] else before
    requires issued ==>
      var start := before[|before| - 1];
      start.TaskStarted? && start.playbook == playbook && start.index == start.queued - 1
    ensures Safe(log, playbook) && before <= log
    ensures issued <==> !NoReboot(log)
    ensures issued ==> e in log
  {
    NoRebootIsSafe(before, playbook);
    if issued {
      assert log[|before|] == e;
    }
  }

  lemma RebootAttended<S>(world: World<S>, before: seq<Event<S>>, task: Task, e: Event<S>)
    requires before != [] && before[|before| - 1].TaskStarted? && before[|before| - 1].task == task
    requires e.RebootIssued? && FromWorld(world, task, e)
    ensures var (settled, inOrder) := world.afterwards(task, e.after);
      JustRebooted(world, before + [e], settled, !e.ok || !inOrder)
    ensures e.ok ==> Rebooted(before + [e])
  {
    assert (before + [e])[|before|] == e;
  }

  /** What the log shows of a task that has been run once, and has issued a reboot or not. */
  lemma OnceLogged<S>(world: World<S>, playbook: nat, task: Task, s: S, before: seq<Event<S>>, issued: bool, turn: Turn,
                      state: S, log: seq<Event<S>>)
    requires NoReboot(before) && before != [] && before[|before| - 1].TaskStarted?
    requires before[|before| - 1].playbook == playbook && before[|before| - 1].task == task
    requires !issued ==> log == before
    requires issued ==>
      var (after, ok) := world.reboot(task, s);
      var (settled, inOrder) := world.afterwards(task, after);
      && before[|before| - 1].index == before[|before| - 1].queued - 1
      && KindOf(task) == Reboot && world.renderReboot(task, s) && log == before + [RebootIssued(s, ok, after)]
      && state == settled && turn == if ok && inOrder then GoOn(true) else FailedHere
    ensures before <= log && Safe(log, playbook) && (issued <==> !NoReboot(log)) && Starts(log) == Starts(before)
    ensures issued ==> JustRebooted(world, log, state, turn.FailedHere?) && (turn == GoOn(true) ==> Rebooted(log))
  {
    hide Starts, Safe, NoReboot, JustRebooted, Rebooted;
    var event := RebootIssued(s, world.reboot(task, s).1, world.reboot(task, s).0);
    RebootAtEndIsSafe(before, log, playbook, issued, event);
    StartsOne(before, event);
    if issued {
      RebootAttended(world, before, task, event);
    }
  }

  lemma NothingIncluded<S>(world: World<S>, task: Task, s: S)
    requires !task.includes
    ensures Try(world, task, s, false).included.None?
  {
  }

  lemma OneTask(tasks: seq<Task>)
    requires |tasks| == 1
    ensures CountRebootTasks(tasks) <= 1
  {
    assert tasks[1..] == [];
  }

  lemma NoSteps<S(!new)>(world: World<S>, playbook: nat, tasks: seq<Task>, s: S, mayReboot: bool, log: seq<Event<S>>)
    ensures Walked(world, tasks, s, mayReboot, []) && log == log + Traces(world, playbook, [], mayReboot)
  {
  }

  lemma NothingPlayed<S(!new)>(world: World<S>, total: nat, s: S)
    ensures Deployed(world, total, s, []) && LogOf(world, total, []) == [] && PlayedTo(s, [], 0) == s
  {
  }

  lemma LogGrows<S>(log: seq<Event<S>>, a: seq<Event<S>>, b: seq<Event<S>>)
    ensures (log + a) + b == log + (a + b)
  {
  }

  /** `turns` bounds how many turns of its loops a run may take, so that a run that would never
      end can be looked at too: at any point. */
  class Runner<S(!new)> {
    const world: World<S>
    var state: S
    var turns: nat
    var log: seq<Event<S>>

    constructor (world: World<S>, state: S, turns: nat)
      ensures this.world == world && this.state == state && this.turns == turns && log == []
    {
      this.world, this.state, this.turns, this.log := world, state, turns, [];
    }

    /** Runs one task.  A reboot is issued only for a task that is dispatched to it, only where
        it is allowed, and then the queue stays as it is. */
    method ExecuteTaskOnce(task: Task, queue0: seq<Task>, taskIdx: nat, allowReboot: bool)
      returns (queue: seq<Task>, hasResult: bool, failed: bool, rebooted: bool, ghost issued: bool)
      requires taskIdx < |queue0|
      modifies this`state, this`log
      ensures taskIdx < |queue| && queue[..taskIdx + 1] == queue0[..taskIdx + 1]
      ensures var a := Try(world, task, old(state), allowReboot);
        && (state, hasResult, failed, rebooted) == (a.state, a.hasResult, a.failed, a.rebooted)
        && queue == if a.included.Some? then Splice(queue0, taskIdx, a.included.value) else queue0
      ensures log == if issued then old(log) + [RebootIssued(old(state), rebooted, state)] else old(log)
      ensures issued ==> allowReboot && KindOf(task) == Reboot && queue == queue0 && hasResult
      ensures rebooted <==> issued && !failed
      ensures issued <==> Dispatches(world, task, old(state), allowReboot)
      ensures issued ==> (state, rebooted) == world.reboot(task, old(state))
    {
      queue, hasResult, failed, rebooted, issued := queue0, true, false, false, false;
      match world.settle(task, state) {
        case Some(verdict) =>
          state, hasResult, failed := verdict.state, verdict.hasResult, verdict.failed;
          return;
        case None =>
      }
      match KindOf(task)
      case Module =>
        var verdict := world.runModule(task, state);
        state, hasResult, failed := verdict.state, verdict.hasResult, verdict.failed;
      case Reboot =>
        if !allowReboot {
          failed := true;
          return;
        }
        if !world.renderReboot(task, state) {
          hasResult := false;
          return;
        }
        var (after, ok) := world.reboot(task, state);
        state, log := after, log + [RebootIssued(state, ok, after)];
        failed, rebooted, issued := !ok, ok, true;
      case Include =>
        match world.included(task, state)
        case None =>
          failed := true;
        case Some((included, after)) =>
          queue, state := Splice(queue, taskIdx, included), after;
          hasResult := false;
    }

    /** Runs one task of a handler, which may not reboot. */
    method RunHandlerTask(task: Task) returns (failed: bool)
      modifies this`state, this`log
      ensures (state, failed) == HandlerTask(world, task, old(state)) && log == old(log)
    {
      hide Try;
      if task.meta.Some? && task.meta != Some(Noop) {
        return true;
      }
      var _, hasResult, taskFailed, _, _ := ExecuteTaskOnce(task, [task], 0, false);
      if hasResult {
        var (settled, inOrder) := world.afterwards(task, state);
        state := settled;
        return taskFailed || !inOrder;
      }
      failed := !task.includes;
    }

    /** Runs whatever handler tasks are due; none of them may reboot. */
    method Flush() returns (failed: bool, cutOff: bool)
      modifies this`state, this`log, this`turns
      ensures OnlyHandlersAdded(old(log), log) && turns <= old(turns)
      ensures log == old(log) <==> world.nextHandlerTask(old(state)).None? || old(turns) == 0
      ensures cutOff && log == old(log) ==> old(turns) == 0
      ensures !cutOff ==> Flushes(world, old(state), |log| - |old(log)|, state, failed)
    {
      hide OnlyHandlersAdded, HandlerTask, Try, Flushes, FlushedTo;
      failed, cutOff := false, false;
      ghost var n: nat := 0;
      FlushStarts(world, state);
      NoHandlersAdded(log);
      while true
        invariant OnlyHandlersAdded(old(log), log) && turns <= old(turns) && |old(log)| <= |log|
        invariant log == old(log) ==> state == old(state) && turns == old(turns)
        invariant log != old(log) ==> world.nextHandlerTask(old(state)).Some? && old(turns) > 0
        invariant n == |log| - |old(log)| && FlushedTo(world, old(state), n, state)
        decreases turns
      {
        var next := world.nextHandlerTask(state);
        FlushGoesOn(world, old(state), n, state);
        if next.None? {
          return;
        }
        if turns == 0 {
          cutOff := true;
          return;
        }
        turns := turns - 1;
        OneHandlerAdded(old(log), log);
        log, n := log + [HandlerTaskStarted], n + 1;
        failed := RunHandlerTask(next.value);
        if failed {
          return;
        }
      }
    }

    /** Runs a looped task once for each item; no iteration may reboot. */
    method RunLoop(task: Task, queue0: seq<Task>, taskIdx: nat, items: nat)
      returns (queue: seq<Task>, failed: bool)
      requires taskIdx < |queue0| && !task.includes
      modifies this`state, this`log
      ensures log == old(log) && queue == queue0
      ensures LoopEnds(world, task, old(state), items, state, failed)
    {
      queue, failed := queue0, false;
      ghost var states := [state];
      for i := 0 to items
        invariant log == old(log) && queue == queue0
        invariant LoopStates(world, task, old(state), i, states) && state == states[i]
        invariant failed <==> exists k :: 0 <= k < i && ItemFails(world, task, states[k])
      {
        NothingIncluded(world, task, state);
        var hasResult, taskFailed, rebooted;
        ghost var issued;
        queue, hasResult, taskFailed, rebooted, issued := ExecuteTaskOnce(task, queue, taskIdx, false);
        ghost var before := states;
        states := states + [state];
        assert forall k :: 0 <= k <= i ==> states[k] == before[k];
        assert ItemFails(world, task, states[i]) <==> !hasResult || taskFailed;
        if !hasResult || taskFailed {
          failed := true;
        }
      }
    }

    /** Runs a task with a loop, or includes what the loop brings in. */
    method RunLooped(task: Task, queue0: seq<Task>, taskIdx: nat, items: nat)
      returns (queue: seq<Task>, turn: Turn)
      requires taskIdx < |queue0|
      modifies this`state, this`log
      ensures log == old(log) && turn in {GoOn(false), FailedHere} && taskIdx < |queue|
      ensures LoopTurned(world, task, old(state), queue0, taskIdx, items, queue, turn, state)
    {
      hide LoopEnds;
      queue, turn := queue0, GoOn(false);
      if task.includes {
        match world.loopIncludes(task, state)
        case None =>
          turn := FailedHere;
        case Some(included) =>
          queue := Splice(queue, taskIdx, included);
      } else if items > 0 {
        var loopFailed;
        queue, loopFailed := RunLoop(task, queue, taskIdx, items);
        ghost var looped := state;
        var (settled, inOrder) := world.afterwards(task, state);
        state := settled;
        if loopFailed || !inOrder {
          turn := FailedHere;
        }
        assert Settles(world, task, looped, loopFailed, turn, state);
      }
    }

    /** Runs a task without a loop, once. */
    method RunOnce(task: Task, queue0: seq<Task>, taskIdx: nat, allowReboot: bool)
      returns (queue: seq<Task>, turn: Turn, ghost issued: bool)
      requires taskIdx < |queue0|
      modifies this`state, this`log
      ensures taskIdx < |queue| && (turn.GoOn? || turn.FailedHere?)
      ensures OnceTurned(world, task, old(state), queue0, taskIdx, allowReboot, queue, turn, state)
      ensures issued <==> Dispatches(world, task, old(state), allowReboot)
      ensures issued ==>
        var (after, ok) := world.reboot(task, old(state));
        && log == old(log) + [RebootIssued(old(state), ok, after)] && queue == queue0
        && var (settled, inOrder) := world.afterwards(task, after);
          state == settled && turn == if ok && inOrder then GoOn(true) else FailedHere
      ensures !issued ==> log == old(log) && turn != GoOn(true)
    {
      hide Try;
      turn := GoOn(false);
      var hasResult, taskFailed, rebooted;
      queue, hasResult, taskFailed, rebooted, issued := ExecuteTaskOnce(task, queue0, taskIdx, allowReboot);
      if hasResult {
        var (settled, inOrder) := world.afterwards(task, state);
        state := settled;
        if taskFailed || !inOrder {
          turn := FailedHere;
        } else if task.reboot && rebooted {
          turn := GoOn(true);
        }
      } else if !task.includes {
        turn := FailedHere;
      }
    }

    /** Runs a task that steers the engine itself. */
    method RunMeta(task: Task) returns (turn: Turn)
      requires task.meta.Some? && NoReboot(log)
      modifies this`state, this`log, this`turns
      ensures old(log) <= log && NoReboot(log) && turns <= old(turns)
      ensures turn != GoOn(true) && Starts(log) == Starts(old(log))
      ensures OnlyHandlersAdded(old(log), log)
      ensures turn != TurnsUp ==> MetaTurned(world, task, old(state), |log| - |old(log)|, turn, state)
      // A flush starts something exactly when a handler is due, and leaves none due unless it fails.
      ensures world.metaWhen(task, old(state)) == Some(true) && task.meta.value.FlushHandlers? && turn != TurnsUp ==>
        && (log != old(log) <==> world.nextHandlerTask(old(state)).Some?)
        && (turn != FailedHere ==> world.nextHandlerTask(state).None?)
    {
      hide Flushes;
      NoHandlersAdded(log);
      turn := GoOn(false);
      match world.metaWhen(task, state)
      case None => turn := FailedHere;
      case Some(false) =>
      case Some(true) =>
        match task.meta.value
        case Noop =>
        case FlushHandlers =>
          NoRebootIsSafe(log, 0);
          var failed, cutOff := Flush();
          HandlersKeepSafe(old(log), log, 0);
          HandlersStartNothing(old(log), log);
          if !cutOff {
            FlushIsComplete(world, old(state), |log| - |old(log)|, state, failed);
          }
          turn := if cutOff then TurnsUp else if failed then FailedHere else GoOn(false);
        case EndHost => turn := HostEnded;
        case EndPlay => turn := HostEnded;
    }

    /** Runs a task that does not steer the engine and has just been started, with its loop or once. */
    method RunOrdinary(playbook: nat, task: Task, queue0: seq<Task>, taskIdx: nat, mayReboot: bool)
      returns (queue: seq<Task>, turn: Turn, ghost step: Step<S>)
      requires NoReboot(log) && taskIdx < |queue0| && task == queue0[taskIdx] && task.meta in {None, Some(Noop)}
      requires log != [] && log[|log| - 1] == TaskStarted(playbook, taskIdx, |queue0|, task)
      requires world.prepare(task, state)
      modifies this`state, this`log
      ensures old(log) <= log && Safe(log, playbook) && taskIdx < |queue|
      ensures turn.GoOn? || turn.FailedHere?
      ensures Starts(log) == Starts(old(log)) && (!mayReboot ==> NoReboot(log))
      ensures turn.GoOn? ==> (turn.rebooted <==> !NoReboot(log))
      ensures !NoReboot(log) ==>
        && JustRebooted(world, log, state, turn.FailedHere?) && queue == queue0 && taskIdx == |queue| - 1
        && (turn.GoOn? ==> Rebooted(log))
      ensures step == Step(task, old(state), queue0, 0, turn, state, queue) && Turned(world, step, taskIdx, mayReboot)
      ensures log == old(log) +
        if RebootsAt(world, step, taskIdx, mayReboot)
        then [RebootIssued(step.before, world.reboot(task, step.before).1, world.reboot(task, step.before).0)]
        else []
      ensures RebootsAt(world, step, taskIdx, mayReboot) ==> !NoReboot(log)
    {
      hide Starts, Safe, NoReboot, JustRebooted, Rebooted, LoopTurned, OnceTurned, Splice, Turned;
      queue, turn := queue0, GoOn(false);
      NoRebootIsSafe(log, playbook);
      ghost var before, start := log, state;
      match world.loopItems(task, state)
      case None =>
        turn := FailedHere;
        step := Step(task, start, queue0, 0, turn, state, queue);
        FailsEarly(world, playbook, step, taskIdx, mayReboot);
      case Some(Some(items)) =>
        queue, turn := RunLooped(task, queue, taskIdx, items);
        step := Step(task, start, queue0, 0, turn, state, queue);
        Loops(world, playbook, step, taskIdx, mayReboot, items);
      case Some(None) =>
        ghost var issued;
        queue, turn, issued := RunOnce(task, queue, taskIdx, mayReboot && taskIdx == |queue| - 1);
        OnceLogged(world, playbook, task, start, before, issued, turn, state, log);
        step := Step(task, start, queue0, 0, turn, state, queue);
        RunsOnce(world, playbook, step, taskIdx, mayReboot);
    }

    /** Runs the task at `taskIdx`.  If it issues a reboot, it is the last of the queue. */
    method RunTask(playbook: nat, task: Task, queue0: seq<Task>, taskIdx: nat, mayReboot: bool)
      returns (queue: seq<Task>, turn: Turn, ghost step: Step<S>)
      requires NoReboot(log) && taskIdx < |queue0| && task == queue0[taskIdx]
      modifies this`state, this`log, this`turns
      ensures old(log) <= log && Safe(log, playbook) && turns <= old(turns) && taskIdx < |queue|
      ensures !mayReboot ==> NoReboot(log)
      ensures turn.GoOn? ==> (turn.rebooted <==> !NoReboot(log))
      ensures turn.GoOn? && turn.rebooted ==> taskIdx == |queue| - 1 && Rebooted(log)
      ensures turn.HostEnded? || turn.TurnsUp? ==> NoReboot(log)
      ensures Starts(log) == Starts(old(log)) + [Entry(playbook, taskIdx)]
      ensures !NoReboot(log) ==>
        (turn.GoOn? || turn.FailedHere?) && JustRebooted(world, log, state, turn.FailedHere?)
      ensures RebootsIn(world, task, old(state), mayReboot) && taskIdx == |queue0| - 1 ==>
        && var (after, ok) := world.reboot(task, old(state));
        && log == old(log) + [TaskStarted(playbook, taskIdx, |queue0|, task), RebootIssued(old(state), ok, after)]
        && !NoReboot(log) && turns == old(turns) && queue == queue0
      ensures step == Step(task, old(state), queue0, step.handlers, turn, state, queue)
      ensures turn != TurnsUp ==>
        && Turned(world, step, taskIdx, mayReboot)
        && log == old(log) + Trace(world, playbook, step, taskIdx, mayReboot)
    {
      hide Starts, Safe, NoReboot, JustRebooted, Rebooted, OnlyHandlersAdded, MetaTurned, Turned, Handlers;
      queue, turn := queue0, GoOn(false);
      step := Step(task, state, queue0, 0, turn, state, queue);
      StartsOne(log, TaskStarted(playbook, taskIdx, |queue|, task));
      StillNoReboot(log, TaskStarted(playbook, taskIdx, |queue|, task));
      log := log + [TaskStarted(playbook, taskIdx, |queue|, task)];
      NoRebootIsSafe(log, playbook);
      if !world.prepare(task, state) {
        turn := FailedHere;
        step := step.(turn := turn);
        FailsEarly(world, playbook, step, taskIdx, mayReboot);
      } else if task.meta.Some? && task.meta != Some(Noop) {
        ghost var started := log;
        turn := RunMeta(task);
        NoRebootIsSafe(log, playbook);
        HandlersAdded(started, log);
        step := Step(task, old(state), queue0, |log| - |started|, turn, state, queue);
        if turn != TurnsUp {
          Steers(world, playbook, step, taskIdx, mayReboot);
        }
      } else {
        queue, turn, step := RunOrdinary(playbook, task, queue, taskIdx, mayReboot);
        NoHandlers(world, playbook, step, taskIdx, mayReboot);
      }
    }

    /** Goes through the queue of a playbook. */
    method WalkTasks(playbook: nat, tasks: seq<Task>, mayReboot: bool)
      returns (end: LoopEnd, ghost count: nat, ghost walk: seq<Step<S>>)
      requires NoReboot(log)
      modifies this`state, this`log, this`turns
      ensures old(log) <= log && Safe(log, playbook)
      ensures !mayReboot ==> NoReboot(log)
      ensures Starts(log) == Starts(old(log)) + Entries(playbook, count)
      ensures end.Over? ==> !NoReboot(log) ==> JustRebooted(world, log, state, end.failed) && !end.hostEnded
      ensures end.Over? && !end.failed ==> (end.rebootInitiated <==> !NoReboot(log))
      ensures end.Over? && end.rebootInitiated ==> !NoReboot(log) && Rebooted(log)
      ensures !end.Over? && end.ending.Cancelled? ==> NoReboot(log)
      ensures !end.Over? ==> !end.ending.Finished?
      ensures Walked(world, tasks, old(state), mayReboot, walk)
      ensures end.Over? ==> end.failed == LoopFailed(tasks, walk) && end.hostEnded == HostEndedBy(walk)
      ensures end.Over? ==> end.rebootInitiated == HasRebooted(walk)
      ensures end.Over? && GoesOn(walk) ==> |walk| == |QueueAt(tasks, walk, |walk|)| || end.failed
      ensures end.Over? || end.ending.Cancelled? ==>
        && state == StateAt(old(state), walk, |walk|)
        && log == old(log) + Traces(world, playbook, walk, mayReboot)
      ensures !end.Over? && end.ending.Cancelled? ==>
        GoesOn(walk) && |walk| < |QueueAt(tasks, walk, |walk|)| && world.cancelled(state)
      ensures Single(world, tasks, old(state), mayReboot, old(turns)) ==>
        end.Over? && !NoReboot(log) && turns == old(turns) - 1
        && |log| > |old(log)| && log[|old(log)|] == TaskStarted(playbook, 0, 1, tasks[0])
    {
      hide Starts, Entries, RebootsIn, NoReboot, Safe, JustRebooted, Rebooted, Walked, Turned, Traces, Trace,
        CountRebootTasks;
      walk := [];
      ghost var single := Single(world, tasks, state, mayReboot, turns);
      if single {
        OneTask(tasks);
      }
      NoRebootIsSafe(log, playbook);
      NoSteps(world, playbook, tasks, state, mayReboot, log);
      count := 0;
      OneMoreEntry(Starts(log), playbook, 0);
      var queue := tasks;
      var taskIdx := 0;
      var rebootInitiated := false;
      while taskIdx < |queue|
        invariant old(log) <= log && Safe(log, playbook) && taskIdx <= |queue|
        invariant !mayReboot ==> NoReboot(log)
        invariant rebootInitiated <==> !NoReboot(log)
        invariant rebootInitiated ==> taskIdx == |queue| && Rebooted(log)
        invariant count == taskIdx && Starts(log) == Starts(old(log)) + Entries(playbook, count)
        invariant !NoReboot(log) ==> JustRebooted(world, log, state, false)
        invariant taskIdx == 0 ==> state == old(state) && turns == old(turns) && queue == tasks && log == old(log)
        invariant single && taskIdx > 0 ==>
          && |queue| == 1 && !NoReboot(log) && turns == old(turns) - 1
          && |log| > |old(log)| && log[|old(log)|] == TaskStarted(playbook, 0, 1, tasks[0])
        invariant Walked(world, tasks, old(state), mayReboot, walk) && GoesOn(walk) && |walk| == taskIdx
        invariant state == StateAt(old(state), walk, |walk|) && queue == QueueAt(tasks, walk, |walk|)
        invariant rebootInitiated == HasRebooted(walk)
        invariant log == old(log) + Traces(world, playbook, walk, mayReboot)
        decreases turns
      {
        if world.cancelled(state) {
          return Interrupted(Cancelled), count, walk;
        }
        if turns == 0 {
          return Interrupted(CutOff), count, walk;
        }
        turns := turns - 1;
        if CountRebootTasks(queue) > 1 {
          return Over(true, false, rebootInitiated), count, walk;
        }
        var turn;
        ghost var step;
        queue, turn, step := RunTask(playbook, queue[taskIdx], queue, taskIdx, mayReboot);
        OneMoreEntry(Starts(old(log)), playbook, count);
        count := count + 1;
        if turn == TurnsUp {
          return Interrupted(CutOff), count, walk;
        }
        OneMoreStep(world, playbook, tasks, old(state), mayReboot, walk, step);
        LogGrows(old(log), Traces(world, playbook, walk, mayReboot), Trace(world, playbook, step, taskIdx, mayReboot));
        walk := walk + [step];
        if turn == FailedHere {
          return Over(true, false, rebootInitiated), count, walk;
        }
        if turn == HostEnded {
          return Over(false, true, rebootInitiated), count, walk;
        }
        rebootInitiated := turn.rebooted;
        taskIdx := taskIdx + 1;
      }
      end := Over(false, false, rebootInitiated);
    }

    /** Runs one playbook on the local host. */
    method RunPlaybook(playbook: nat, tasks: seq<Task>, mayReboot: bool)
      returns (ending: Ending, ghost count: nat, ghost walk: seq<Step<S>>, ghost flushed: nat)
      requires NoReboot(log)
      modifies this`state, this`log, this`turns
      ensures old(log) <= log && Safe(log, playbook)
      ensures !mayReboot ==> NoReboot(log)
      ensures ending.Finished? && !ending.result.failed ==> (ending.result.rebootInitiated <==> !NoReboot(log))
      ensures ending.Finished? && ending.result.rebootInitiated ==> Rebooted(log)
      ensures Starts(log) == Starts(old(log)) + Entries(playbook, count)
      ensures ending != CutOff ==> Followed(world, log) && Genuine(world, log)
      ensures Single(world, tasks, old(state), mayReboot, old(turns)) ==>
        !NoReboot(log) && Followed(world, log) && Genuine(world, log)
        && log[|old(log)|] == TaskStarted(playbook, 0, 1, tasks[0])
      // What the playbook comes to, and all that its log shows.
      ensures Walked(world, tasks, old(state), mayReboot, walk)
      ensures ending.Finished? ==>
        && Plays(world, playbook, tasks, old(state), mayReboot, walk, flushed, state, ending.result)
        && log == old(log) + Traces(world, playbook, walk, mayReboot) + Handlers(flushed)
      ensures ending.Cancelled? ==>
        && GoesOn(walk) && |walk| < |QueueAt(tasks, walk, |walk|)| && flushed == 0
        && state == StateAt(old(state), walk, |walk|) && world.cancelled(state)
        && log == old(log) + Traces(world, playbook, walk, mayReboot)
      // After the task loop, due handlers are started and none is left due.
      ensures ending.Finished? ==>
        (flushed > 0 <==>
          && !HostEndedBy(walk) && (!LoopFailed(tasks, walk) || world.forceHandlers(playbook))
          && world.nextHandlerTask(StateAt(old(state), walk, |walk|)).Some?)
      ensures ending.Finished? && !ending.result.failed && !HostEndedBy(walk) ==> world.nextHandlerTask(state).None?
    {
      hide Starts, Entries, RebootsIn, NoReboot, Safe, JustRebooted, Followed, Genuine, OnlyHandlersAdded, Rebooted,
        Walked, Traces, Flushes, LoopFailed, HostEndedBy, HasRebooted, GoesOn, StateAt, QueueAt, Plays, Handlers,
        NothingFollows;
      flushed := 0;
      var end;
      end, count, walk := WalkTasks(playbook, tasks, mayReboot);
      if end.Interrupted? {
        if end.ending.Cancelled? {
          NothingToFollow(world, log);
        }
        return end.ending, count, walk, flushed;
      }
      var failed := end.failed;
      ghost var before, walked := log, state;
      NoHandlersAdded(log);
      if !end.hostEnded && (!failed || world.forceHandlers(playbook)) {
        var flushFailed, cutOff := Flush();
        PlaybookEnds(world, before, log, walked, end.failed, playbook);
        HandlersAdded(before, log);
        if cutOff {
          return CutOff, count, walk, flushed;
        }
        flushed := |log| - |before|;
        PlaysWithFlush(world, playbook, tasks, old(state), mayReboot, walk, flushed, state, flushFailed);
        failed := failed || flushFailed;
      } else {
        PlaybookEnds(world, before, log, walked, end.failed, playbook);
        PlaysWithoutFlush(world, playbook, tasks, old(state), mayReboot, walk);
        HandlersAdded(before, log);
      }
      ending := Finished(RunResult(failed, end.rebootInitiated));
      PlaysFlushes(world, playbook, tasks, old(state), mayReboot, walk, flushed, state, ending.result);
    }

    // ----- The whole deployment

    /** Loads one of `total` playbooks and runs it; only the last may reboot. */
    method LoadAndRun(index: nat, total: nat)
      returns (ending: Option<Ending>, ghost count: nat, ghost play: Play<S>)
      requires NoReboot(log) && index < total
      modifies this`state, this`log, this`turns
      ensures Safe(log, total - 1) && (index < total - 1 ==> NoReboot(log))
      ensures Starts(log) == Starts(old(log)) + [Playbook(index)] + Entries(index, count)
      ensures ending != Some(CutOff) ==> Followed(world, log) && Genuine(world, log)
      ensures ending.None? || ending == Some(Cancelled) ==>
        (ending.None? && world.load(index, state).None?) || world.cancelled(state)
      ensures ending.Some? && ending.value.Finished? ==>
        var result := ending.value.result;
        && PlayedAt(world, total, index, old(state), play) && state == play.after && result == play.result
        && log == old(log) + [PlaybookStarted(index)] + Traces(world, index, play.walk, index == total - 1)
                  + Handlers(play.flushed)
        && (!result.failed && !HostEndedBy(play.walk) ==> world.nextHandlerTask(state).None?)
        && (!result.failed ==> (result.rebootInitiated <==> !NoReboot(log)))
        && (result.rebootInitiated ==> Rebooted(log))
    {
      hide Starts, Entries, Followed, Genuine, Plays, Walked, Traces, Safe, NoReboot, Rebooted, HostEndedBy, LoopFailed,
        QueueAt, StateAt, GoesOn, Handlers, PlayedAt, Single;
      play := Play([], state, [], 0, state, RunResult(false, false));
      StartsOne(log, PlaybookStarted(index));
      StillNoReboot(log, PlaybookStarted(index));
      log := log + [PlaybookStarted(index)];
      ghost var before := state;
      NoRebootIsSafe(log, total - 1);
      var tasks := world.load(index, state);
      if tasks.None? {
        OneMoreEntry(Starts(log), index, 0);
        NothingToFollow(world, log);
        return None, 0, play;
      }
      ghost var walk, flushed;
      var ran;
      ran, count, walk, flushed := RunPlaybook(index, tasks.value, index == total - 1);
      if index < total - 1 {
        NoRebootIsSafe(log, total - 1);
      }
      if ran.Finished? {
        play := Play(tasks.value, before, walk, flushed, state, ran.result);
        IsPlayed(world, total, index, play);
      }
      ending := Some(ran);
    }

    /** Checks the placement of reboots, then runs the playbooks in order. */
    method ExecuteProject(playbooks: seq<Option<seq<Task>>>)
      returns (outcome: Outcome, ghost counts: seq<nat>, ghost plays: seq<Play<S>>)
      requires log == []
      modifies this`state, this`log, this`turns
      ensures Safe(log, |playbooks| - 1)
      ensures outcome.Refused? ==> log == []
      ensures outcome == Done(true) ==> Rebooted(log)
      ensures outcome == Done(false) ==> NoReboot(log)
      ensures Starts(log) == InSequence(counts) && |counts| <= |playbooks|
      ensures outcome.Done? ==> |counts| == |playbooks|
      ensures outcome.Failed? ==> |counts| == outcome.playbook + 1
      ensures outcome != StillRunning ==> Followed(world, log) && Genuine(world, log)
      // What the deployment comes to, and all that the log of a complete one shows.
      ensures outcome.Refused? <==>
        !((forall p :: 0 <= p < |playbooks| ==> playbooks[p].Some?) && WellPlaced(Expanded(playbooks)))
      ensures Deployed(world, |playbooks|, old(state), plays)
      ensures outcome.Done? ==>
        && |plays| == |playbooks| && state == PlayedTo(old(state), plays, |plays|)
        && log == LogOf(world, |playbooks|, plays)
        && (plays != [] ==> !plays[|plays| - 1].result.failed)
        && (outcome.rebooted <==> plays != [] && plays[|plays| - 1].result.rebootInitiated)
        && forall p :: 0 <= p < |plays| && !HostEndedBy(plays[p].walk) ==> world.nextHandlerTask(plays[p].after).None?
      ensures outcome.Failed? ==>
        if |plays| > outcome.playbook then
          && |plays| == outcome.playbook + 1 && plays[outcome.playbook].result.failed
          && log == LogOf(world, |playbooks|, plays)
        else
          |plays| == outcome.playbook && (world.load(outcome.playbook, state).None? || world.cancelled(state))
    {
      hide Starts, InSequence, Entries, Followed, Genuine, WellPlaced, Expanded, Plays, Walked, Traces, Deployed, LogOf,
        Safe, NoReboot, Rebooted, HostEndedBy, HasRebooted, LoopFailed, QueueAt, StateAt, GoesOn, Handlers, PlayedTo,
        PlayedAt, Single;
      plays := [];
      NothingPlayed(world, |playbooks|, state);
      counts := [];
      StartsNothing(log);
      NothingToFollow(world, log);
      var err := ValidateRebootPlacement(playbooks);
      if err.Some? {
        NoRebootIsSafe(log, |playbooks| - 1);
        return Refused(err.value), counts, plays;
      }
      var last := |playbooks| - 1;
      for index := 0 to |playbooks|
        invariant NoReboot(log)
        invariant |counts| == index && Starts(log) == InSequence(counts)
        invariant Deployed(world, |playbooks|, old(state), plays) && |plays| == index
        invariant state == PlayedTo(old(state), plays, |plays|) && log == LogOf(world, |playbooks|, plays)
        invariant plays != [] ==> !plays[|plays| - 1].result.failed && !plays[|plays| - 1].result.rebootInitiated
        invariant forall p :: 0 <= p < |plays| && !HostEndedBy(plays[p].walk) ==>
          world.nextHandlerTask(plays[p].after).None?
      {
        var finalPlaybook := index == |playbooks| - 1;
        ghost var count, play;
        var ending;
        ending, count, play := LoadAndRun(index, |playbooks|);
        OneMorePlaybook(counts, count);
        counts := counts + [count];
        match ending
        case None =>
          return Failed(index), counts, plays;
        case Some(Cancelled) =>
          return Failed(index), counts, plays;
        case Some(CutOff) =>
          return StillRunning, counts, plays;
        case Some(Finished(result)) =>
          OneMorePlay(world, |playbooks|, old(state), plays, play);
          plays := plays + [play];
          if result.failed {
            return Failed(index), counts, plays;
          }
          if result.rebootInitiated {
            assert finalPlaybook;  // so the error for an earlier playbook cannot occur
            return Done(true), counts, plays;
          }
      }
      NoRebootIsSafe(log, last);
      NothingToFollow(world, log);
      outcome := Done(false);
    }
  }

  /** Where a handler is due after every reboot that the world makes, one follows. */
  lemma AlwaysFollowed<S(!new)>(world: World<S>, log: seq<Event<S>>)
    requires Followed(world, log) && Genuine(world, log)
    requires forall p: nat, task, s :: !NothingFollows(world, p, task, world.reboot(task, s).1, world.reboot(task, s).0)
    ensures !EndsWithReboot(log)
  {
    forall i | 0 <= i < |log| && log[i].RebootIssued?
      ensures i != |log| - 1
    {
      assert FromWorld(world, log[i - 1].task, log[i]);
    }
  }

  /** A playbook whose only task reboots the machine, with a handler due once it has: the
      handler is started after the reboot was issued. */
  method HandlerAfterReboot() returns (runner: Runner<nat>)
    ensures Safe(runner.log, 0) && !NoReboot(runner.log) && !EndsWithReboot(runner.log)
  {
    var reboot := Task(0, false, true, false, false, None);
    var handler := Task(1, true, false, false, false, None);
    var world: World<nat> := World(
      (p, s) => Some([reboot]), s => false, (t, s) => true, (t, s) => Some(true), (t, s) => Some(None),
      (t, s) => Some([]), (t, s) => None, (t, s) => Verdict(2, true, false), (t, s) => None, (t, s) => true,
      (t, s) => (1, true), (t, s) => (s, true), s => if s == 1 then Some(handler) else None, p => false);
    runner := new Runner(world, 0, 9);
    ghost var count, walk, flushed;
    var ending;
    assert Single(world, [reboot], 0, true, 9);
    ending, count, walk, flushed := runner.RunPlaybook(0, [reboot], true);
    assert forall t, s :: world.reboot(t, s) == (1, true);
    AlwaysFollowed(world, runner.log);
  }
}
