/** The queue of tasks a host works through.  Included tasks are spliced into the queue right
    behind the task that includes them while the queue is being walked. */
module TaskQueue {
  import opened Values

  /** What one task does: it may bring in further tasks, or end the walk. */
  datatype Outcome<T, S> =
    | Continue(state: S, included: seq<T>)
    | Stop(state: S)

  /** A finished walk: the state it ends in and the tasks it ran, in order. */
  datatype Walk<T, S> = Walk(state: S, ran: seq<T>, stopped: bool)

  /** What comes of a walk that has run `ran` before. */
  ghost function After<T, S>(ran: seq<T>, w: Walk<T, S>): Walk<T, S> {
    Walk(w.state, ran + w.ran, w.stopped)
  }

  /** The meaning of a task list, looked at through at most `fuel` levels of includes: each task is
      run, then everything it includes, then the rest, with one state threaded through. */
  ghost function Meaning<T, S>(step: (T, S) -> Outcome<T, S>, fuel: nat, tasks: seq<T>, s: S): Option<Walk<T, S>>
    decreases fuel, |tasks|
  {
    if tasks == [] then Some(Walk(s, [], false))
    else if fuel == 0 then None
    else
      match step(tasks[0], s)
      case Stop(s1) => Some(Walk(s1, [tasks[0]], true))
      case Continue(s1, included) =>
        match Meaning(step, fuel - 1, included, s1)
        case None => None
        case Some(inner) =>
          if inner.stopped then Some(After([tasks[0]], inner))
          else
            match Meaning(step, fuel, tasks[1..], inner.state)
            case None => None
            case Some(rest) => Some(After([tasks[0]] + inner.ran, rest))
  }

  /** Running `tasks` from the state `s` comes to the end `w`.  A list whose includes never end has
      no meaning. */
  ghost predicate Means<T, S>(step: (T, S) -> Outcome<T, S>, tasks: seq<T>, s: S, w: Walk<T, S>) {
    exists fuel: nat :: Meaning(step, fuel, tasks, s) == Some(w)
  }

  /** Looking deeper does not change what has been seen. */
  lemma {:induction false} MoreFuel<T, S>(step: (T, S) -> Outcome<T, S>, n: nat, m: nat, tasks: seq<T>, s: S)
    requires n <= m && Meaning(step, n, tasks, s).Some?
    ensures Meaning(step, m, tasks, s) == Meaning(step, n, tasks, s)
    decreases n, |tasks|
  {
    if tasks != [] && step(tasks[0], s).Continue? {
      MoreFuel(step, n - 1, m - 1, step(tasks[0], s).included, step(tasks[0], s).state);
      var inner := Meaning(step, n - 1, step(tasks[0], s).included, step(tasks[0], s).state).value;
      if !inner.stopped {
        MoreFuel(step, n, m, tasks[1..], inner.state);
      }
    }
  }

  lemma MeansUnique<T, S>(step: (T, S) -> Outcome<T, S>, tasks: seq<T>, s: S, v: Walk<T, S>, w: Walk<T, S>)
    requires Means(step, tasks, s, v) && Means(step, tasks, s, w)
    ensures v == w
  {
    hide Meaning;
    var n: nat :| Meaning(step, n, tasks, s) == Some(v);
    var m: nat :| Meaning(step, m, tasks, s) == Some(w);
    MoreFuel(step, if n < m then n else m, if n < m then m else n, tasks, s);
  }

  lemma {:induction false} MeaningConcat<T, S>(step: (T, S) -> Outcome<T, S>, n: nat, us: seq<T>, ts: seq<T>, s: S)
    ensures Meaning(step, n, us + ts, s) ==
      match Meaning(step, n, us, s)
      case None => None
      case Some(first) =>
        if first.stopped then Some(first)
        else
          match Meaning(step, n, ts, first.state)
          case None => None
          case Some(rest) => Some(After(first.ran, rest))
    decreases |us|
  {
    if us == [] {
      assert us + ts == ts;
      var rest := Meaning(step, n, ts, s);
      assert rest.Some? ==> [] + rest.value.ran == rest.value.ran;
    } else if n > 0 && step(us[0], s).Continue? {
      assert (us + ts)[0] == us[0] && (us + ts)[1..] == us[1..] + ts;
      var inner := Meaning(step, n - 1, step(us[0], s).included, step(us[0], s).state);
      if inner.Some? && !inner.value.stopped {
        MeaningConcat(step, n, us[1..], ts, inner.value.state);
        var middle := Meaning(step, n, us[1..], inner.value.state);
        if middle.Some? && !middle.value.stopped {
          var rest := Meaning(step, n, ts, middle.value.state);
          var head := [us[0]] + inner.value.ran;
          assert rest.Some? ==>
            head + (middle.value.ran + rest.value.ran) == (head + middle.value.ran) + rest.value.ran;
        }
      }
    } else {
      assert (us + ts)[0] == us[0];
    }
  }

  /** `w` is what comes of running `tasks` from the state `s`, after `ran`. */
  ghost predicate Follows<T(!new), S(!new)>(step: (T, S) -> Outcome<T, S>, ran: seq<T>, tasks: seq<T>, s: S,
                                            w: Walk<T, S>) {
    exists rest :: Means(step, tasks, s, rest) && w == After(ran, rest)
  }

  /** `w` is what comes of `first` and, unless that has stopped, of running `ts` afterwards. */
  ghost predicate Continues<T(!new), S(!new)>(step: (T, S) -> Outcome<T, S>, ts: seq<T>, first: Walk<T, S>,
                                              w: Walk<T, S>) {
    if first.stopped then w == first else Follows(step, first.ran, ts, first.state, w)
  }

  /** Running a concatenation is running the two lists one after the other: one has a meaning
      exactly when the other has, and it is the same. */
  lemma MeansConcat<T(!new), S(!new)>(step: (T, S) -> Outcome<T, S>, us: seq<T>, ts: seq<T>, s: S, w: Walk<T, S>)
    ensures Means(step, us + ts, s, w) <==>
      exists first :: Means(step, us, s, first) && Continues(step, ts, first, w)
  {
    hide Meaning;
    if Means(step, us + ts, s, w) {
      var n: nat :| Meaning(step, n, us + ts, s) == Some(w);
      MeaningConcat(step, n, us, ts, s);
      var first := Meaning(step, n, us, s).value;
      assert Means(step, us, s, first);
      if !first.stopped {
        assert Means(step, ts, first.state, Meaning(step, n, ts, first.state).value);
      }
      assert Continues(step, ts, first, w);
    }
    if first :| Means(step, us, s, first) && Continues(step, ts, first, w) {
      var n: nat :| Meaning(step, n, us, s) == Some(first);
      if first.stopped {
        MeaningConcat(step, n, us, ts, s);
      } else {
        var rest :| Means(step, ts, first.state, rest) && w == After(first.ran, rest);
        var m: nat :| Meaning(step, m, ts, first.state) == Some(rest);
        MoreFuel(step, n, n + m, us, s);
        MoreFuel(step, m, n + m, ts, first.state);
        MeaningConcat(step, n + m, us, ts, s);
      }
    }
  }

  lemma SpliceUp<T, S>(step: (T, S) -> Outcome<T, S>, n: nat, t: T, ts: seq<T>, s: S)
    requires step(t, s).Continue? && Meaning(step, n, step(t, s).included + ts, step(t, s).state).Some?
    ensures Meaning(step, n + 1, [t] + ts, s) ==
      Some(After([t], Meaning(step, n, step(t, s).included + ts, step(t, s).state).value))
  {
    var all, us, s1 := [t] + ts, step(t, s).included, step(t, s).state;
    assert all[0] == t && all[1..] == ts;
    MeaningConcat(step, n, us, ts, s1);
    var inner := Meaning(step, n, us, s1).value;
    if !inner.stopped {
      MoreFuel(step, n, n + 1, ts, inner.state);
      var rest := Meaning(step, n, ts, inner.state).value;
      assert [t] + (inner.ran + rest.ran) == ([t] + inner.ran) + rest.ran;
    }
  }

  lemma SpliceDown<T, S>(step: (T, S) -> Outcome<T, S>, n: nat, t: T, ts: seq<T>, s: S)
    requires step(t, s).Continue? && Meaning(step, n, [t] + ts, s).Some?
    ensures var rest := Meaning(step, n, step(t, s).included + ts, step(t, s).state);
      rest.Some? && Meaning(step, n, [t] + ts, s).value == After([t], rest.value)
  {
    var all, us, s1 := [t] + ts, step(t, s).included, step(t, s).state;
    assert all[0] == t && all[1..] == ts;
    MoreFuel(step, n - 1, n, us, s1);
    MeaningConcat(step, n, us, ts, s1);
    var inner := Meaning(step, n, us, s1).value;
    if !inner.stopped {
      var rest := Meaning(step, n, ts, inner.state).value;
      assert [t] + (inner.ran + rest.ran) == ([t] + inner.ran) + rest.ran;
    }
  }

  /** `w` is what comes of running `t` after `ran`: the walk stops there, or goes on with the
      included tasks put in front of the waiting ones. */
  ghost predicate Steps<T(!new), S(!new)>(step: (T, S) -> Outcome<T, S>, ran: seq<T>, t: T, ts: seq<T>, s: S,
                                          w: Walk<T, S>) {
    match step(t, s)
    case Stop(s1) => w == Walk(s1, ran + [t], true)
    case Continue(s1, included) => Follows(step, ran + [t], included + ts, s1, w)
  }

  /** One step of the walk, with the included tasks put in front of the waiting ones: the new
      list has a meaning exactly when the old one has, and it is the same but for the first task. */
  lemma SpliceStep<T(!new), S(!new)>(step: (T, S) -> Outcome<T, S>, t: T, ts: seq<T>, s: S, w: Walk<T, S>)
    ensures Means(step, [t] + ts, s, w) <==> Steps(step, [], t, ts, s, w)
  {
    var all := [t] + ts;
    assert all[0] == t && all[1..] == ts && [] + [t] == [t];
    match step(t, s)
    case Stop(s1) =>
      assert Meaning(step, 1, all, s) == Some(Walk(s1, [t], true));
      if Means(step, all, s, w) {
        MeansUnique(step, all, s, w, Walk(s1, [t], true));
      }
    case Continue(s1, included) =>
      hide Meaning;
      if Means(step, all, s, w) {
        var n: nat :| Meaning(step, n, all, s) == Some(w);
        SpliceDown(step, n, t, ts, s);
        assert Means(step, included + ts, s1, Meaning(step, n, included + ts, s1).value);
      }
      if Follows(step, [t], included + ts, s1, w) {
        var rest :| Means(step, included + ts, s1, rest) && w == After([t], rest);
        var n: nat :| Meaning(step, n, included + ts, s1) == Some(rest);
        SpliceUp(step, n, t, ts, s);
      }
  }

  // ----- The walk, of which `ran` is done and `waiting` lies ahead

  lemma FollowsAfter<T(!new), S(!new)>(step: (T, S) -> Outcome<T, S>, ran: seq<T>, t: T, tasks: seq<T>, s: S,
                                       w: Walk<T, S>)
    ensures Follows(step, ran + [t], tasks, s, w) <==>
      exists v :: Follows(step, [t], tasks, s, v) && w == After(ran, v)
  {
    hide Means;
    if Follows(step, ran + [t], tasks, s, w) {
      var rest :| Means(step, tasks, s, rest) && w == After(ran + [t], rest);
      assert (ran + [t]) + rest.ran == ran + ([t] + rest.ran);
      assert Follows(step, [t], tasks, s, After([t], rest));
    }
    if v :| Follows(step, [t], tasks, s, v) && w == After(ran, v) {
      var rest :| Means(step, tasks, s, rest) && v == After([t], rest);
      assert (ran + [t]) + rest.ran == ran + ([t] + rest.ran);
    }
  }

  lemma WalkStep<T(!new), S(!new)>(step: (T, S) -> Outcome<T, S>, ran: seq<T>, waiting: seq<T>, s: S, w: Walk<T, S>)
    requires waiting != []
    ensures Follows(step, ran, waiting, s, w) <==> Steps(step, ran, waiting[0], waiting[1..], s, w)
    ensures Follows(step, ran, waiting, s, w) ==> ran < w.ran
  {
    hide Means;
    var t := waiting[0];
    assert waiting == [t] + waiting[1..];
    assert [] + [t] == [t];
    forall v
      ensures Means(step, waiting, s, v) <==> Steps(step, [], t, waiting[1..], s, v)
    {
      SpliceStep(step, t, waiting[1..], s, v);
    }
    if step(t, s).Continue? {
      FollowsAfter(step, ran, t, step(t, s).included + waiting[1..], step(t, s).state, w);
    } else {
      var last := Walk(step(t, s).state, [t], true);
      assert After(ran, last) == Walk(step(t, s).state, ran + [t], true);
      assert Means(step, waiting, s, last);
    }
  }

  lemma WalkDone<T(!new), S(!new)>(step: (T, S) -> Outcome<T, S>, ran: seq<T>, s: S, w: Walk<T, S>)
    ensures Follows(step, ran, [], s, w) <==> w == Walk(s, ran, false)
  {
    var rest := Walk(s, [], false);
    assert Meaning(step, 0, [], s) == Some(rest);
    assert Means(step, [], s, rest) && After(ran, rest) == Walk(s, ran, false);
  }

  lemma WalkStart<T(!new), S(!new)>(step: (T, S) -> Outcome<T, S>, tasks: seq<T>, s: S, w: Walk<T, S>)
    ensures Means(step, tasks, s, w) <==> Follows(step, [], tasks, s, w)
  {
    hide Means;
    assert forall rest: Walk<T, S> :: [] + rest.ran == rest.ran;
    assert After([], w) == w;
  }

  /** A walk of `tasks0` from `s0` has run `ran` and is in the state `s`, with `waiting` before it:
      whatever comes of the one comes of the other. */
  ghost predicate Reaches<T(!new), S(!new)>(step: (T, S) -> Outcome<T, S>, tasks0: seq<T>, s0: S,
                                            ran: seq<T>, waiting: seq<T>, s: S) {
    forall w :: Means(step, tasks0, s0, w) <==> Follows(step, ran, waiting, s, w)
  }

  lemma ReachesStart<T(!new), S(!new)>(step: (T, S) -> Outcome<T, S>, tasks: seq<T>, s: S)
    ensures Reaches(step, tasks, s, [], tasks, s)
  {
    forall w
      ensures Means(step, tasks, s, w) <==> Follows(step, [], tasks, s, w)
    {
      WalkStart(step, tasks, s, w);
    }
  }

  lemma ReachesNext<T(!new), S(!new)>(step: (T, S) -> Outcome<T, S>, tasks0: seq<T>, s0: S,
                                      ran: seq<T>, waiting: seq<T>, s: S)
    requires Reaches(step, tasks0, s0, ran, waiting, s) && waiting != []
    ensures step(waiting[0], s).Stop? ==>
      Means(step, tasks0, s0, Walk(step(waiting[0], s).state, ran + [waiting[0]], true))
    ensures step(waiting[0], s).Continue? ==>
      Reaches(step, tasks0, s0, ran + [waiting[0]], step(waiting[0], s).included + waiting[1..],
              step(waiting[0], s).state)
    ensures forall w :: Means(step, tasks0, s0, w) ==> ran < w.ran
  {
    hide Means, Follows;
    forall w
      ensures Means(step, tasks0, s0, w) <==> Steps(step, ran, waiting[0], waiting[1..], s, w)
      ensures Means(step, tasks0, s0, w) ==> ran < w.ran
    {
      WalkStep(step, ran, waiting, s, w);
    }
  }

  lemma ReachesEnd<T(!new), S(!new)>(step: (T, S) -> Outcome<T, S>, tasks0: seq<T>, s0: S, ran: seq<T>, s: S)
    requires Reaches(step, tasks0, s0, ran, [], s)
    ensures Means(step, tasks0, s0, Walk(s, ran, false))
  {
    WalkDone(step, ran, s, Walk(s, ran, false));
  }

  /** A growable list over a backing array, as a Go slice is one: appending writes behind the
      elements in use, over whatever lies there, and only moves to a new array when the old
      one is full. */
  class Queue<T(0)> {
    var backing: array<T>
    var length: nat

    ghost predicate Valid()
      reads this
    {
      length <= backing.Length
    }

    ghost function Contents(): seq<T>
      requires Valid()
      reads this, backing
    {
      backing[..length]
    }

    constructor (tasks: seq<T>)
      ensures Valid() && fresh(backing) && Contents() == tasks
    {
      backing := new T[|tasks|](i requires 0 <= i < |tasks| => tasks[i]);
      length := |tasks|;
    }

    /** Appends to the first `n` elements; what followed them in the array may be lost. */
    method AppendAfter(n: nat, items: seq<T>)
      requires Valid() && n <= length
      modifies this, backing
      ensures Valid() && (backing == old(backing) || fresh(backing))
      ensures Contents() == old(Contents())[..n] + items
      ensures n + |items| <= old(backing).Length ==> backing == old(backing)
    {
      if n + |items| <= backing.Length {
        for i := 0 to |items|
          invariant backing == old(backing) && length == old(length)
          invariant backing[..n] == old(backing[..n])
          invariant backing[n..n + i] == items[..i]
        {
          backing[n + i] := items[i];
          assert backing[n..n + i + 1] == backing[n..n + i] + [items[i]];
          assert items[..i + 1] == items[..i] + [items[i]];
        }
        assert items[..|items|] == items;
        length := n + |items|;
        assert backing[..length] == backing[..n] + backing[n..n + |items|];
      } else {
        var all := backing[..n] + items;
        var grown := new T[|all|](i requires 0 <= i < |all| => all[i]);
        backing := grown;
        length := |all|;
      }
    }

    /** Puts the included tasks behind index `taskIdx`.  The tail is copied first, because
        appending may overwrite it in place. */
    method Splice(taskIdx: nat, included: seq<T>)
      requires Valid() && taskIdx < length
      modifies this, backing
      ensures Valid() && (backing == old(backing) || fresh(backing))
      ensures Contents() == old(Contents())[..taskIdx + 1] + included + old(Contents())[taskIdx + 1..]
    {
      var tail := backing[taskIdx + 1..length];
      AppendAfter(taskIdx + 1, included);
      AppendAfter(length, tail);
    }
  }

  /** Splicing, seen from a walk that has run `ran` and has `waiting` before it. */
  method Include<T(0)>(queue: Queue<T>, included: seq<T>, ghost ran: seq<T>, ghost waiting: seq<T>, taskIdx: nat)
    requires queue.Valid() && queue.Contents() == ran + waiting && |ran| == taskIdx + 1
    modifies queue, queue.backing
    ensures queue.Valid() && (queue.backing == old(queue.backing) || fresh(queue.backing))
    ensures queue.Contents() == ran + (included + waiting)
  {
    assert (ran + waiting)[..taskIdx + 1] == ran && (ran + waiting)[taskIdx + 1..] == waiting;
    if included != [] {
      queue.Splice(taskIdx, included);
      assert ran + included + waiting == ran + (included + waiting);
    } else {
      assert included + waiting == waiting;
    }
  }

  lemma TakeNext<T>(ran: seq<T>, waiting: seq<T>)
    requires waiting != []
    ensures ran + waiting == (ran + [waiting[0]]) + waiting[1..]
  {
  }

  /** The walk as it is carried out, looked at for a number of turns, refines the recursive
      meaning, whatever the tasks do.  It ends exactly when there is a meaning that runs no more
      tasks than that; then the state, the tasks run and their order agree, and the queue itself is
      the list of the tasks run.  Until then it is on the way to whatever meaning there is. */
  method WalkQueue<T(!new, 0), S(!new)>(step: (T, S) -> Outcome<T, S>, queue: Queue<T>, s0: S, turns: nat)
    returns (s: S, ran: seq<T>, stopped: bool, cutOff: bool)
    requires queue.Valid()
    modifies queue, queue.backing
    ensures queue.Valid() && ran <= queue.Contents() && (!stopped && !cutOff ==> ran == queue.Contents())
    ensures cutOff <==> forall w :: Means(step, old(queue.Contents()), s0, w) ==> |w.ran| > turns
    ensures !cutOff ==> Means(step, old(queue.Contents()), s0, Walk(s, ran, stopped))
    ensures cutOff ==> |ran| == turns && Reaches(step, old(queue.Contents()), s0, ran, queue.Contents()[|ran|..], s)
  {
    hide Means, Reaches;
    s, ran, stopped, cutOff := s0, [], false, false;
    ghost var tasks0 := queue.Contents();
    ReachesStart(step, tasks0, s0);
    var taskIdx := 0;
    ghost var waiting := tasks0;
    while taskIdx < queue.length
      invariant queue.Valid() && taskIdx <= queue.length && !stopped && !cutOff
      invariant queue.backing == old(queue.backing) || fresh(queue.backing)
      invariant queue.Contents() == ran + waiting && taskIdx == |ran| <= turns
      invariant Reaches(step, tasks0, s0, ran, waiting, s)
      decreases turns - taskIdx
    {
      ReachesNext(step, tasks0, s0, ran, waiting, s);
      if taskIdx == turns {
        assert queue.Contents()[taskIdx..] == waiting;
        cutOff := true;
        return;
      }
      var task := queue.backing[taskIdx];
      assert task == queue.Contents()[taskIdx] == waiting[0];
      TakeNext(ran, waiting);
      waiting := waiting[1..];
      ran := ran + [task];
      match step(task, s)
      case Stop(s1) =>
        s, stopped := s1, true;
        return;
      case Continue(s1, included) =>
        Include(queue, included, ran, waiting, taskIdx);
        s, waiting := s1, included + waiting;
        taskIdx := taskIdx + 1;
    }
    assert waiting == [];
    ReachesEnd(step, tasks0, s0, ran, s);
  }

  // ----- Which task lists have a meaning

  ghost predicate AllBelow<T>(rank: T -> nat, tasks: seq<T>, bound: nat) {
    forall i :: 0 <= i < |tasks| ==> rank(tasks[i]) < bound
  }

  /** Whatever the state, an included task ranks below the task that includes it. */
  ghost predicate Ranked<T(!new), S(!new)>(step: (T, S) -> Outcome<T, S>, rank: T -> nat) {
    forall t, s :: step(t, s).Continue? ==> AllBelow(rank, step(t, s).included, rank(t))
  }

  /** Where includes go down in rank, every list has a meaning ... */
  lemma {:induction false} RankedHasMeaning<T(!new), S(!new)>(step: (T, S) -> Outcome<T, S>, rank: T -> nat,
                                                              bound: nat, tasks: seq<T>, s: S)
    requires Ranked(step, rank) && AllBelow(rank, tasks, bound)
    ensures Meaning(step, bound, tasks, s).Some?
    ensures exists w :: Means(step, tasks, s, w)
    decreases bound, |tasks|
  {
    if tasks != [] && step(tasks[0], s).Continue? {
      RankedHasMeaning(step, rank, bound - 1, step(tasks[0], s).included, step(tasks[0], s).state);
      var inner := Meaning(step, bound - 1, step(tasks[0], s).included, step(tasks[0], s).state).value;
      if !inner.stopped {
        RankedHasMeaning(step, rank, bound, tasks[1..], inner.state);
      }
    }
    assert Means(step, tasks, s, Meaning(step, bound, tasks, s).value);
  }

  /** A file that includes itself until a counter is used up. */
  function Retry(t: int, s: nat): Outcome<int, nat> {
    if s > 0 then Continue(s - 1, [t]) else Continue(s, [])
  }

  /** ... but not only there. */
  lemma {:induction false} RetryEnds(t: int, s: nat, rank: int -> nat)
    ensures !Ranked(Retry, rank)
    ensures exists w :: Means(Retry, [t], s, w)
    ensures Meaning(Retry, s + 1, [t], s).Some? && !Meaning(Retry, s + 1, [t], s).value.stopped
    decreases s
  {
    assert Retry(t, 1).included == [t] && [t][0] == t;
    var tasks := [t];
    assert tasks[0] == t && tasks[1..] == [];
    if s > 0 {
      RetryEnds(t, s - 1, rank);
    }
    var inner := Meaning(Retry, s, Retry(t, s).included, Retry(t, s).state);
    assert inner.Some? && !inner.value.stopped;
    assert Meaning(Retry, s + 1, tasks[1..], inner.value.state).Some?;
    assert Means(Retry, [t], s, Meaning(Retry, s + 1, [t], s).value);
  }

  /** A file that includes itself in every state. */
  function Forever(t: int, s: int): Outcome<int, int> {
    Continue(s, [t])
  }

  lemma {:induction false} ForeverGoesOn(t: int, s: int, fuel: nat)
    ensures Meaning(Forever, fuel, [t], s).None?
  {
    if fuel > 0 {
      ForeverGoesOn(t, s, fuel - 1);
    }
  }

  /** It has no meaning, and so every walk of it is cut off. */
  lemma ForeverMeansNothing(t: int, s: int, w: Walk<int, int>)
    ensures !Means(Forever, [t], s, w)
  {
    forall fuel: nat
      ensures Meaning(Forever, fuel, [t], s).None?
    {
      ForeverGoesOn(t, s, fuel);
    }
  }
}
