/** Flushing handlers: pending handlers run in rounds until nothing is pending. */
module HandlerFlush {

  /** What running one handler does, whatever tasks it consists of. */
  datatype Effect<S> = Effect(failed: bool, state: S, notified: set<nat>)

  /** One handler that ran: in which round, and whom it notified. */
  datatype Run = Run(round: nat, handler: nat, notified: set<nat>)

  /** Rounds follow each other, and a round runs in definition order. */
  ghost predicate InOrder(log: seq<Run>) {
    forall a, b :: 0 <= a < b < |log| ==>
      log[a].round < log[b].round || (log[a].round == log[b].round && log[a].handler < log[b].handler)
  }

  ghost predicate AtMostOnce(log: seq<Run>) {
    forall a, b :: 0 <= a < b < |log| ==> log[a].handler != log[b].handler
  }

  /** Someone notified `h` in the round `r`. */
  ghost predicate NotifiedIn(log: seq<Run>, r: nat, h: nat) {
    exists e :: e in log && e.round == r && h in e.notified
  }

  /** `h` ran in the round `r` or before. */
  ghost predicate RanBy(log: seq<Run>, r: nat, h: nat) {
    exists e :: e in log && e.round <= r && e.handler == h
  }

  /** `h` ran at the latest in the round after the one `e` belongs to. */
  ghost predicate RanAfter(log: seq<Run>, e: Run, h: nat) {
    RanBy(log, e.round + 1, h)
  }

  /** A handler runs only because it was pending at the start or was notified in the round
      before. */
  ghost predicate Justified(pending: set<nat>, log: seq<Run>) {
    forall e :: e in log ==>
      if e.round == 0 then e.handler in pending else NotifiedIn(log, e.round - 1, e.handler)
  }

  /** Whoever was pending runs in the first round; whoever is notified runs by the next one. */
  ghost predicate Complete(pending: set<nat>, log: seq<Run>) {
    && (forall h: nat :: h in pending ==> RanBy(log, 0, h))
    && (forall e, h: nat :: e in log && h in e.notified ==> RanAfter(log, e, h))
  }

  ghost function HandlersOf(log: seq<Run>): set<nat> {
    set e | e in log :: e.handler
  }

  /** The numbers below `n`. */
  ghost function Below(n: nat): (s: set<nat>)
    ensures forall i: nat :: i in s <==> i < n
  {
    if n == 0 then {} else Below(n - 1) + {n - 1}
  }

  function StateAfter<S>(run: (nat, S) -> Effect<S>, s0: S, log: seq<Run>): S {
    if log == [] then s0
    else run(log[|log| - 1].handler, StateAfter(run, s0, log[..|log| - 1])).state
  }

  /** The log records what the handlers did, each starting in the state its predecessors left. */
  ghost predicate Faithful<S>(run: (nat, S) -> Effect<S>, s0: S, log: seq<Run>) {
    forall a :: 0 <= a < |log| ==> log[a].notified == run(log[a].handler, StateAfter(run, s0, log[..a])).notified
  }

  ghost predicate NoneFails<S>(run: (nat, S) -> Effect<S>, s0: S, log: seq<Run>) {
    forall a :: 0 <= a < |log| ==> !run(log[a].handler, StateAfter(run, s0, log[..a])).failed
  }

  ghost predicate LastFails<S>(run: (nat, S) -> Effect<S>, s0: S, log: seq<Run>) {
    && log != [] && NoneFails(run, s0, log[..|log| - 1])
    && run(log[|log| - 1].handler, StateAfter(run, s0, log[..|log| - 1])).failed
  }

  ghost predicate Within(n: nat, handlers: set<nat>) {
    forall h: nat :: h in handlers ==> h < n
  }

  /** Notifications only ever name existing definitions. */
  ghost predicate NotifiesWithin<S(!new)>(n: nat, run: (nat, S) -> Effect<S>) {
    forall i: nat, s :: i < n ==> Within(n, run(i, s).notified)
  }

  lemma LogOne<S>(run: (nat, S) -> Effect<S>, s0: S, log: seq<Run>, e: Run)
    requires Faithful(run, s0, log) && NoneFails(run, s0, log)
    requires e.notified == run(e.handler, StateAfter(run, s0, log)).notified
    ensures Faithful(run, s0, log + [e])
    ensures StateAfter(run, s0, log + [e]) == run(e.handler, StateAfter(run, s0, log)).state
    ensures if run(e.handler, StateAfter(run, s0, log)).failed then LastFails(run, s0, log + [e])
            else NoneFails(run, s0, log + [e])
  {
    var more := log + [e];
    assert more[..|log|] == log;
    forall a | 0 <= a < |log|
      ensures more[..a] == log[..a]
    {
    }
  }

  /** The entries one round adds to the log: the scheduled handlers that have not run yet, in
      definition order, up to the first that fails. */
  ghost predicate RoundAdds(round: nat, scheduled: set<nat>, ran: set<nat>, upto: nat, added: seq<Run>) {
    && (forall e :: e in added ==> e.round == round && e.handler < upto && e.handler in scheduled - ran)
    && (forall j, k :: 0 <= j < k < |added| ==> added[j].handler < added[k].handler)
  }

  ghost predicate CoversRound(scheduled: set<nat>, ran: set<nat>, upto: nat, added: seq<Run>) {
    forall h: nat :: h in scheduled - ran && h < upto ==> h in HandlersOf(added)
  }

  ghost predicate Collects(added: seq<Run>, pending: set<nat>) {
    forall h: nat :: h in pending <==> exists e :: e in added && h in e.notified
  }

  lemma Append(log: seq<Run>, added: seq<Run>, e: Run)
    ensures (log + added) + [e] == log + (added + [e])
  {
  }

  lemma HandlersOfConcat(a: seq<Run>, b: seq<Run>)
    ensures HandlersOf(a + b) == HandlersOf(a) + HandlersOf(b)
  {
    assert forall e :: e in a + b <==> e in a || e in b;
  }

  lemma AddEntry(round: nat, scheduled: set<nat>, ran: set<nat>, added: seq<Run>, pending: set<nat>, e: Run)
    requires RoundAdds(round, scheduled, ran, e.handler, added) && Collects(added, pending)
    requires CoversRound(scheduled, ran, e.handler, added)
    requires e.round == round && e.handler in scheduled - ran
    ensures RoundAdds(round, scheduled, ran, e.handler + 1, added + [e])
    ensures CoversRound(scheduled, ran, e.handler + 1, added + [e])
    ensures Collects(added + [e], pending + e.notified)
    ensures HandlersOf(added + [e]) == HandlersOf(added) + {e.handler}
  {
    var more := added + [e];
    HandlersOfConcat(added, [e]);
    assert HandlersOf([e]) == {e.handler};
    assert forall x :: x in more <==> x in added || x == e;
    forall j, k | 0 <= j < k < |more|
      ensures more[j].handler < more[k].handler
    {
      assert more[j] in added;
    }
  }

  lemma RoundUpto(round: nat, scheduled: set<nat>, ran: set<nat>, i: nat, n: nat, added: seq<Run>)
    requires RoundAdds(round, scheduled, ran, i, added) && i <= n
    ensures RoundAdds(round, scheduled, ran, n, added)
  {
  }

  lemma NothingAdded(round: nat, scheduled: set<nat>, ran: set<nat>)
    ensures RoundAdds(round, scheduled, ran, 0, []) && CoversRound(scheduled, ran, 0, [])
    ensures Collects([], {}) && HandlersOf([]) == {}
  {
  }

  lemma SkipEntry(round: nat, scheduled: set<nat>, ran: set<nat>, i: nat, added: seq<Run>)
    requires RoundAdds(round, scheduled, ran, i, added) && CoversRound(scheduled, ran, i, added)
    requires i !in scheduled || i in ran + HandlersOf(added)
    ensures RoundAdds(round, scheduled, ran, i + 1, added) && CoversRound(scheduled, ran, i + 1, added)
  {
  }

  method RunRound<S(!new)>(n: nat, run: (nat, S) -> Effect<S>, ghost round: nat, scheduled: set<nat>,
                           ran0: set<nat>, s1: S, ghost s0: S, ghost log0: seq<Run>)
    returns (failed: bool, s: S, ran: set<nat>, pending: set<nat>, ghost added: seq<Run>)
    requires Faithful(run, s0, log0) && NoneFails(run, s0, log0) && s1 == StateAfter(run, s0, log0)
    ensures RoundAdds(round, scheduled, ran0, n, added) && Collects(added, pending)
    ensures !failed ==> CoversRound(scheduled, ran0, n, added)
    ensures failed ==> added != [] && CoversRound(scheduled, ran0, added[|added| - 1].handler + 1, added)
    ensures ran == ran0 + HandlersOf(added)
    ensures Faithful(run, s0, log0 + added) && s == StateAfter(run, s0, log0 + added)
    ensures if failed then LastFails(run, s0, log0 + added) else NoneFails(run, s0, log0 + added)
  {
    hide RoundAdds, CoversRound, Collects, Faithful, NoneFails, LastFails, StateAfter, HandlersOf;
    failed, s, ran, pending, added := false, s1, ran0, {}, [];
    NothingAdded(round, scheduled, ran0);
    ghost var log := log0;
    assert log == log0 + added;
    for i := 0 to n
      invariant RoundAdds(round, scheduled, ran0, i, added) && Collects(added, pending)
      invariant CoversRound(scheduled, ran0, i, added)
      invariant ran == ran0 + HandlersOf(added)
      invariant Faithful(run, s0, log) && s == StateAfter(run, s0, log) && NoneFails(run, s0, log)
      invariant log == log0 + added
    {
      if i in scheduled && i !in ran {
        ran := ran + {i};
        var effect := run(i, s);
        ghost var entry := Run(round, i, effect.notified);
        LogOne(run, s0, log, entry);
        AddEntry(round, scheduled, ran0, added, pending, entry);
        Append(log0, added, entry);
        log := log + [entry];
        added := added + [entry];
        pending := pending + effect.notified;
        s := effect.state;
        if effect.failed {
          failed := true;
          RoundUpto(round, scheduled, ran0, i + 1, n, added);
          return;
        }
      } else {
        SkipEntry(round, scheduled, ran0, i, added);
      }
    }
  }

  // ----- Rounds add up to a complete flush

  /** The log before round `round`, in which `scheduled` is due. */
  ghost predicate Due(pending0: set<nat>, log: seq<Run>, round: nat, scheduled: set<nat>) {
    && (forall e :: e in log ==> e.round < round)
    && (forall h: nat :: h in scheduled <==> if round == 0 then h in pending0 else NotifiedIn(log, round - 1, h))
    && (round > 0 ==> forall h: nat :: h in pending0 ==> RanBy(log, 0, h))
    && (forall e, h: nat :: e in log && h in e.notified ==>
          RanAfter(log, e, h) || (e.round + 1 == round && h in scheduled))
  }

  lemma RoundKeepsOrder(pending0: set<nat>, log: seq<Run>, round: nat, scheduled: set<nat>, n: nat, added: seq<Run>)
    requires InOrder(log) && AtMostOnce(log) && forall e :: e in log ==> e.round < round
    requires RoundAdds(round, scheduled, HandlersOf(log), n, added)
    ensures InOrder(log + added) && AtMostOnce(log + added)
  {
    var all := log + added;
    forall a, b | 0 <= a < b < |all|
      ensures all[a].round < all[b].round || (all[a].round == all[b].round && all[a].handler < all[b].handler)
      ensures all[a].handler != all[b].handler
    {
      if b < |log| {
        assert all[a] == log[a] && all[b] == log[b];
      } else if a < |log| {
        assert all[a] == log[a] && all[b] == added[b - |log|];
        assert log[a] in log && added[b - |log|] in added;
      } else {
        assert all[a] == added[a - |log|] && all[b] == added[b - |log|];
        assert added[a - |log|] in added && added[b - |log|] in added;
      }
    }
  }

  lemma MoreNotified(log: seq<Run>, added: seq<Run>, r: nat, h: nat)
    ensures NotifiedIn(log, r, h) ==> NotifiedIn(log + added, r, h)
    ensures RanBy(log, r, h) ==> RanBy(log + added, r, h)
  {
    if NotifiedIn(log, r, h) {
      var e :| e in log && e.round == r && h in e.notified;
      assert e in log + added;
    }
    if RanBy(log, r, h) {
      var e :| e in log && e.round <= r && e.handler == h;
      assert e in log + added;
    }
  }

  lemma RoundKeepsJustified(pending0: set<nat>, log: seq<Run>, round: nat, scheduled: set<nat>, n: nat, added: seq<Run>)
    requires Justified(pending0, log) && Due(pending0, log, round, scheduled)
    requires RoundAdds(round, scheduled, HandlersOf(log), n, added)
    ensures Justified(pending0, log + added)
  {
    forall e | e in log + added
      ensures if e.round == 0 then e.handler in pending0 else NotifiedIn(log + added, e.round - 1, e.handler)
    {
      if e.round > 0 {
        MoreNotified(log, added, e.round - 1, e.handler);
      }
    }
  }

  /** What was due in a round and comes before its end has run. */
  lemma ScheduledRan(log: seq<Run>, round: nat, scheduled: set<nat>, n: nat, upto: nat, added: seq<Run>, h: nat)
    requires forall e :: e in log ==> e.round < round
    requires RoundAdds(round, scheduled, HandlersOf(log), n, added)
    requires CoversRound(scheduled, HandlersOf(log), upto, added)
    requires h in scheduled && h < upto
    ensures RanBy(log + added, round, h)
  {
    if h in HandlersOf(log) {
      var e :| e in log && e.handler == h;
      assert e in log + added;
    } else {
      assert h in HandlersOf(added);
      var e :| e in added && e.handler == h;
      assert e in log + added;
    }
  }

  lemma DueThisRound(log: seq<Run>, round: nat, scheduled: set<nat>, n: nat, added: seq<Run>, pending: set<nat>)
    requires forall e :: e in log ==> e.round < round
    requires RoundAdds(round, scheduled, HandlersOf(log), n, added) && Collects(added, pending)
    ensures forall h: nat :: h in pending <==> NotifiedIn(log + added, round, h)
  {
    forall h: nat
      ensures h in pending <==> NotifiedIn(log + added, round, h)
    {
      if h in pending {
        var e :| e in added && h in e.notified;
        assert e in log + added;
      }
    }
  }

  lemma AddedRound(round: nat, scheduled: set<nat>, ran: set<nat>, n: nat, added: seq<Run>)
    requires RoundAdds(round, scheduled, ran, n, added)
    ensures forall e :: e in added ==> e.round == round
  {
  }

  lemma NotifiedBy(log: seq<Run>, e: Run, h: nat)
    requires e in log && h in e.notified
    ensures NotifiedIn(log, e.round, h)
  {
  }

  lemma RoundKeepsDue(pending0: set<nat>, log: seq<Run>, round: nat, scheduled: set<nat>,
                      n: nat, added: seq<Run>, pending: set<nat>)
    requires Due(pending0, log, round, scheduled) && Within(n, scheduled)
    requires RoundAdds(round, scheduled, HandlersOf(log), n, added) && CoversRound(scheduled, HandlersOf(log), n, added)
    requires Collects(added, pending)
    ensures Due(pending0, log + added, round + 1, pending)
  {
    hide RoundAdds, CoversRound, RanBy, HandlersOf;
    var all := log + added;
    DueThisRound(log, round, scheduled, n, added, pending);
    forall h: nat | h in pending0
      ensures RanBy(all, 0, h)
    {
      if round == 0 {
        ScheduledRan(log, round, scheduled, n, n, added, h);
      } else {
        MoreNotified(log, added, 0, h);
      }
    }
    AddedRound(round, scheduled, HandlersOf(log), n, added);
    forall e, h: nat | e in all && h in e.notified
      ensures RanAfter(all, e, h) || (e.round == round && h in pending)
    {
      NotifiedBy(all, e, h);
      if e in log {
        MoreNotified(log, added, e.round + 1, h);
        if e.round + 1 == round && h in scheduled {
          ScheduledRan(log, round, scheduled, n, n, added, h);
        } else {
          assert RanAfter(log, e, h);
        }
      }
    }
  }

  /** What a flush leaves when the last handler of the log has failed: pending is whoever was
      notified in its round, and of those due in its round only later definitions have not run. */
  ghost predicate Stopped(pending0: set<nat>, log: seq<Run>, pending: set<nat>) {
    log != [] &&
    var last := log[|log| - 1];
    && (forall h: nat :: h in pending <==> NotifiedIn(log, last.round, h))
    && (forall h: nat :: h in pending0 ==> RanBy(log, 0, h) || (last.round == 0 && h > last.handler))
    && (forall e, h: nat :: e in log && h in e.notified ==>
          e.round == last.round || RanAfter(log, e, h) || (e.round + 1 == last.round && h > last.handler))
  }

  lemma RoundStops(pending0: set<nat>, log: seq<Run>, round: nat, scheduled: set<nat>,
                   n: nat, added: seq<Run>, pending: set<nat>)
    requires Due(pending0, log, round, scheduled) && Collects(added, pending)
    requires RoundAdds(round, scheduled, HandlersOf(log), n, added) && added != []
    requires CoversRound(scheduled, HandlersOf(log), added[|added| - 1].handler + 1, added)
    ensures Stopped(pending0, log + added, pending)
  {
    hide RoundAdds, CoversRound, RanBy, HandlersOf;
    var all, upto := log + added, added[|added| - 1].handler + 1;
    DueThisRound(log, round, scheduled, n, added, pending);
    AddedRound(round, scheduled, HandlersOf(log), n, added);
    assert all[|all| - 1] == added[|added| - 1] && added[|added| - 1] in added;
    forall h: nat | h in pending0
      ensures RanBy(all, 0, h) || (round == 0 && h >= upto)
    {
      if round > 0 {
        MoreNotified(log, added, 0, h);
      } else if h < upto {
        ScheduledRan(log, round, scheduled, n, upto, added, h);
      }
    }
    forall e, h: nat | e in all && h in e.notified
      ensures e.round == round || RanAfter(all, e, h) || (e.round + 1 == round && h >= upto)
    {
      if e in log {
        MoreNotified(log, added, e.round + 1, h);
        NotifiedBy(all, e, h);
        if e.round + 1 == round && h in scheduled {
          if h < upto {
            ScheduledRan(log, round, scheduled, n, upto, added, h);
          }
        } else {
          assert RanAfter(log, e, h);
        }
      }
    }
  }

  lemma NothingDueIsComplete(pending0: set<nat>, log: seq<Run>, round: nat, scheduled: set<nat>)
    requires Due(pending0, log, round, scheduled) && scheduled == {}
    ensures Complete(pending0, log)
  {
    assert round == 0 ==> forall h: nat :: h in pending0 ==> h in scheduled;
  }

  /** A round notifies existing handlers only, and either runs a new one or leaves nothing
      pending; this is why flushing ends. */
  lemma AddedWithin<S(!new)>(n: nat, run: (nat, S) -> Effect<S>, s0: S, log: seq<Run>, added: seq<Run>,
                             round: nat, scheduled: set<nat>, ran: set<nat>, pending: set<nat>)
    requires NotifiesWithin(n, run) && Faithful(run, s0, log + added)
    requires RoundAdds(round, scheduled, ran, n, added) && Collects(added, pending)
    ensures Within(n, pending)
    ensures pending == {} || Below(n) - (ran + HandlersOf(added)) < Below(n) - ran
  {
    forall h: nat | h in pending
      ensures h < n
    {
      var e :| e in added && h in e.notified;
      var k :| 0 <= k < |added| && added[k] == e;
      assert (log + added)[|log| + k] == e;
    }
    if added != [] {
      assert added[0] in added;
      assert added[0].handler in HandlersOf(added) && added[0].handler in Below(n) - ran;
    }
  }

  lemma EmptyLog<S>(run: (nat, S) -> Effect<S>, s0: S, pending0: set<nat>)
    ensures Due(pending0, [], 0, pending0) && HandlersOf([]) == {}
    ensures InOrder([]) && AtMostOnce([]) && Justified(pending0, [])
    ensures Faithful(run, s0, []) && NoneFails(run, s0, []) && StateAfter(run, s0, []) == s0
  {
  }

  /** Runs the pending handlers of `n` definitions until none is pending or one fails. */
  method FlushHandlers<S(!new)>(n: nat, run: (nat, S) -> Effect<S>, pending0: set<nat>, s0: S)
    returns (failed: bool, s: S, pending: set<nat>, ghost log: seq<Run>)
    requires Within(n, pending0) && NotifiesWithin(n, run)
    ensures InOrder(log) && AtMostOnce(log) && Justified(pending0, log)
    ensures Faithful(run, s0, log) && s == StateAfter(run, s0, log)
    ensures !failed ==> pending == {} && Complete(pending0, log) && NoneFails(run, s0, log)
    ensures failed ==> LastFails(run, s0, log) && Stopped(pending0, log, pending)
  {
    hide InOrder, AtMostOnce, Justified, Complete, Faithful, NoneFails, LastFails, RoundAdds, CoversRound, Collects,
      Stopped, StateAfter, HandlersOf, NotifiesWithin;
    failed, s, pending, log := false, s0, pending0, [];
    var ran: set<nat> := {};
    ghost var round: nat := 0;
    EmptyLog(run, s0, pending0);
    while pending != {}
      invariant Within(n, pending) && ran == HandlersOf(log)
      invariant Due(pending0, log, round, pending)
      invariant InOrder(log) && AtMostOnce(log) && Justified(pending0, log)
      invariant Faithful(run, s0, log) && NoneFails(run, s0, log) && s == StateAfter(run, s0, log)
      decreases Below(n) - ran, |pending|
    {
      var scheduled := pending;
      ghost var added;
      failed, s, ran, pending, added := RunRound(n, run, round, scheduled, ran, s, s0, log);
      RoundKeepsOrder(pending0, log, round, scheduled, n, added);
      RoundKeepsJustified(pending0, log, round, scheduled, n, added);
      AddedWithin(n, run, s0, log, added, round, scheduled, HandlersOf(log), pending);
      HandlersOfConcat(log, added);
      if failed {
        RoundStops(pending0, log, round, scheduled, n, added, pending);
        log := log + added;
        return;
      }
      RoundKeepsDue(pending0, log, round, scheduled, n, added, pending);
      log := log + added;
      round := round + 1;
    }
    NothingDueIsComplete(pending0, log, round, pending);
  }

  // ----- When the whole flush runs in definition order

  ghost predicate Ascending(log: seq<Run>) {
    forall a, b :: 0 <= a < b < |log| ==> log[a].handler < log[b].handler
  }

  /** In one round, `e` notifies a handler that has not run by then and is defined before `d`. */
  ghost predicate NotifiesBack(log: seq<Run>, e: Run, d: Run, h: nat) {
    && e in log && d in log && e.round == d.round
    && h in e.notified && h < d.handler && !RanBy(log, e.round, h)
  }

  ghost predicate SomeNotifiesBack(log: seq<Run>) {
    exists e, d, h :: NotifiesBack(log, e, d, h)
  }

  lemma RunsOnce(log: seq<Run>, b: Run)
    requires AtMostOnce(log) && b in log
    ensures forall x <- log :: x.handler == b.handler ==> x == b
  {
    var j :| 0 <= j < |log| && log[j] == b;
    forall x <- log
      ensures x.handler == b.handler ==> x == b
    {
      var i :| 0 <= i < |log| && log[i] == x;
    }
  }

  /** If an earlier definition runs in a later round, some round has notified back. */
  lemma {:induction false} OutOfOrder(pending0: set<nat>, log: seq<Run>, a: Run, b: Run)
    requires InOrder(log) && AtMostOnce(log) && Justified(pending0, log)
    requires a in log && b in log && a.round < b.round && a.handler > b.handler
    ensures SomeNotifiesBack(log)
    decreases b.round
  {
    var h := b.handler;
    var e :| e in log && e.round == b.round - 1 && h in e.notified;
    assert !RanBy(log, e.round, h) by {
      RunsOnce(log, b);
    }
    if a.round == e.round {
      assert NotifiesBack(log, e, a, h);
    } else if e.handler > h {
      assert NotifiesBack(log, e, e, h);
    } else {
      RunsOnce(log, b);
      OutOfOrder(pending0, log, a, e);
    }
  }

  lemma EarlierRound(log: seq<Run>, i: nat, j: nat)
    requires InOrder(log) && i < |log| && j < |log| && log[i].round < log[j].round
    ensures i < j
  {
  }

  lemma BackBreaksOrder(pending0: set<nat>, log: seq<Run>, e: Run, d: Run, h: nat)
    requires InOrder(log) && Complete(pending0, log) && NotifiesBack(log, e, d, h)
    ensures !Ascending(log)
  {
    assert RanAfter(log, e, h);
    hide InOrder, Complete;
    var x :| x in log && x.round <= e.round + 1 && x.handler == h;
    assert x.round == e.round + 1;
    var i :| 0 <= i < |log| && log[i] == d;
    var j :| 0 <= j < |log| && log[j] == x;
    EarlierRound(log, i, j);
  }

  /** A flush that ends without a failure has run in definition order throughout exactly when
      no round notified back. */
  lemma DefinitionOrder(pending0: set<nat>, log: seq<Run>)
    requires InOrder(log) && AtMostOnce(log) && Justified(pending0, log) && Complete(pending0, log)
    ensures Ascending(log) <==> !SomeNotifiesBack(log)
  {
    hide Justified, Complete, NotifiesBack;
    if SomeNotifiesBack(log) {
      var e, d, h :| NotifiesBack(log, e, d, h);
      BackBreaksOrder(pending0, log, e, d, h);
    } else {
      forall i, j | 0 <= i < j < |log|
        ensures log[i].handler < log[j].handler
      {
        if log[i].handler > log[j].handler {
          OutOfOrder(pending0, log, log[i], log[j]);
        }
      }
    }
  }

  lemma RecordsNotified<S>(run: (nat, S) -> Effect<S>, s0: S, log: seq<Run>)
    requires Faithful(run, s0, log)
    ensures forall e <- log :: exists s :: e.notified == run(e.handler, s).notified
  {
    forall e <- log
      ensures exists s :: e.notified == run(e.handler, s).notified
    {
      var a :| 0 <= a < |log| && log[a] == e;
      assert e.notified == run(e.handler, StateAfter(run, s0, log[..a])).notified;
    }
  }

  /** Handlers come in layers: a later layer holds later definitions, what is pending at the
      start is the first layer, and a handler only notifies the next one. */
  ghost predicate Layered<S(!new)>(layer: nat -> nat, pending0: set<nat>, run: (nat, S) -> Effect<S>) {
    && (forall g, h :: layer(g) < layer(h) ==> g < h)
    && (forall h <- pending0 :: layer(h) == 0)
    && (forall g: nat, s: S, h: nat :: h in run(g, s).notified ==> layer(h) == layer(g) + 1)
  }

  lemma {:induction false} RoundIsLayer<S(!new)>(layer: nat -> nat, pending0: set<nat>, run: (nat, S) -> Effect<S>,
                                                 s0: S, log: seq<Run>, e: Run)
    requires Justified(pending0, log) && Faithful(run, s0, log) && Layered(layer, pending0, run) && e in log
    ensures layer(e.handler) == e.round
    decreases e.round
  {
    if e.round > 0 {
      var d :| d in log && d.round == e.round - 1 && e.handler in d.notified;
      RoundIsLayer(layer, pending0, run, s0, log, d);
      RecordsNotified(run, s0, log);
    }
  }

  lemma LaterLayer<S(!new)>(layer: nat -> nat, pending0: set<nat>, run: (nat, S) -> Effect<S>, g: nat, h: nat)
    requires Layered(layer, pending0, run)
    ensures layer(g) < layer(h) ==> g < h
  {
  }

  /** A condition on the handlers alone that keeps the order, whatever they do otherwise, and
      whether or not one fails. */
  lemma LayersKeepOrder<S(!new)>(layer: nat -> nat, pending0: set<nat>, run: (nat, S) -> Effect<S>, s0: S,
                                 log: seq<Run>)
    requires InOrder(log) && Justified(pending0, log) && Faithful(run, s0, log) && Layered(layer, pending0, run)
    ensures Ascending(log)
  {
    hide Layered, Justified, Faithful;
    forall i, j | 0 <= i < j < |log|
      ensures log[i].handler < log[j].handler
    {
      RoundIsLayer(layer, pending0, run, s0, log, log[i]);
      RoundIsLayer(layer, pending0, run, s0, log, log[j]);
      LaterLayer(layer, pending0, run, log[i].handler, log[j].handler);
    }
  }

  // When whom a handler notifies does not depend on the state.

  ghost predicate Notifies<S(!new)>(run: (nat, S) -> Effect<S>, notify: nat -> set<nat>) {
    forall g: nat, s: S :: run(g, s).notified == notify(g)
  }

  /** The handlers that have been pending by the given round. */
  ghost function Reached(notify: nat -> set<nat>, pending0: set<nat>, round: nat): set<nat> {
    if round == 0 then pending0
    else
      var before := Reached(notify, pending0, round - 1);
      before + set g, h | g in before && h in notify(g) :: h
  }

  /** Every handler that is reached later than another is defined later. */
  ghost predicate ReachedInOrder(notify: nat -> set<nat>, pending0: set<nat>) {
    forall r: nat, q: nat, g: nat, h: nat ::
      g in Reached(notify, pending0, r) && h in Reached(notify, pending0, q) && h !in Reached(notify, pending0, r)
      ==> g < h
  }

  ghost predicate Records(notify: nat -> set<nat>, log: seq<Run>) {
    forall e <- log :: e.notified == notify(e.handler)
  }

  lemma {:induction false} RunIsReached(notify: nat -> set<nat>, pending0: set<nat>, log: seq<Run>, e: Run, round: nat)
    requires Justified(pending0, log) && Records(notify, log) && e in log && e.round <= round
    ensures e.handler in Reached(notify, pending0, round)
    decreases round
  {
    if e.round < round {
      RunIsReached(notify, pending0, log, e, round - 1);
    } else if round > 0 {
      var d :| d in log && d.round == round - 1 && e.handler in d.notified;
      RunIsReached(notify, pending0, log, d, round - 1);
    }
  }

  lemma {:induction false} ReachedRuns(notify: nat -> set<nat>, pending0: set<nat>, log: seq<Run>, round: nat, h: nat)
    requires Complete(pending0, log) && Records(notify, log) && h in Reached(notify, pending0, round)
    ensures RanBy(log, round, h)
    decreases round
  {
    if round > 0 {
      if h in Reached(notify, pending0, round - 1) {
        ReachedRuns(notify, pending0, log, round - 1, h);
      } else {
        var g :| g in Reached(notify, pending0, round - 1) && h in notify(g);
        ReachedRuns(notify, pending0, log, round - 1, g);
        var e :| e in log && e.round <= round - 1 && e.handler == g;
        assert RanAfter(log, e, h);
      }
    }
  }

  /** A handler has run by a round exactly when it is reached by then. */
  lemma RanIsReached(notify: nat -> set<nat>, pending0: set<nat>, log: seq<Run>, round: nat, h: nat)
    requires Justified(pending0, log) && Complete(pending0, log) && Records(notify, log)
    ensures RanBy(log, round, h) <==> h in Reached(notify, pending0, round)
  {
    hide Justified, Complete, Records;
    if RanBy(log, round, h) {
      var e :| e in log && e.round <= round && e.handler == h;
      RunIsReached(notify, pending0, log, e, round);
    }
    if h in Reached(notify, pending0, round) {
      ReachedRuns(notify, pending0, log, round, h);
    }
  }

  lemma ReachedLaterRunsLater(notify: nat -> set<nat>, pending0: set<nat>, log: seq<Run>, r: nat, q: nat,
                              g: nat, h: nat)
    requires InOrder(log) && Justified(pending0, log) && Complete(pending0, log)
    requires Records(notify, log) && Ascending(log)
    requires g in Reached(notify, pending0, r)
    requires h in Reached(notify, pending0, q) && h !in Reached(notify, pending0, r)
    ensures g < h
  {
    hide InOrder, Justified, Complete, Records, Reached;
    RanIsReached(notify, pending0, log, r, g);
    RanIsReached(notify, pending0, log, q, h);
    RanIsReached(notify, pending0, log, r, h);
    var x :| x in log && x.round <= r && x.handler == g;
    var y :| y in log && y.round <= q && y.handler == h;
    var i :| 0 <= i < |log| && log[i] == x;
    var j :| 0 <= j < |log| && log[j] == y;
    EarlierRound(log, i, j);
  }

  lemma LaterIsReachedLater(notify: nat -> set<nat>, pending0: set<nat>, log: seq<Run>, a: Run, b: Run)
    requires AtMostOnce(log) && Justified(pending0, log) && Complete(pending0, log) && Records(notify, log)
    requires a in log && b in log && a.round < b.round
    ensures a.handler in Reached(notify, pending0, a.round)
    ensures b.handler in Reached(notify, pending0, b.round) && b.handler !in Reached(notify, pending0, a.round)
  {
    hide Justified, Complete, Records, Reached;
    RunIsReached(notify, pending0, log, a, a.round);
    RunIsReached(notify, pending0, log, b, b.round);
    RanIsReached(notify, pending0, log, a.round, b.handler);
    RunsOnce(log, b);
  }

  /** Where the notifications do not depend on the state, a flush without a failure runs in
      definition order exactly when the handlers are reached in that order: a condition on the
      handlers and on what is pending that can be worked out before the flush. */
  lemma OrderIsReachedInOrder<S(!new)>(notify: nat -> set<nat>, run: (nat, S) -> Effect<S>, s0: S, pending0: set<nat>,
                                       log: seq<Run>)
    requires InOrder(log) && AtMostOnce(log) && Justified(pending0, log) && Complete(pending0, log)
    requires Faithful(run, s0, log) && Notifies(run, notify)
    ensures Ascending(log) <==> ReachedInOrder(notify, pending0)
  {
    hide Justified, Complete, Faithful, Reached, AtMostOnce;
    RecordsNotified(run, s0, log);
    assert Records(notify, log);
    hide Notifies, Records;
    if Ascending(log) {
      forall r: nat, q: nat, g: nat, h: nat |
        g in Reached(notify, pending0, r) && h in Reached(notify, pending0, q) && h !in Reached(notify, pending0, r)
        ensures g < h
      {
        ReachedLaterRunsLater(notify, pending0, log, r, q, g, h);
      }
    }
    if ReachedInOrder(notify, pending0) {
      forall i, j | 0 <= i < j < |log|
        ensures log[i].handler < log[j].handler
      {
        if log[i].round < log[j].round {
          LaterIsReachedLater(notify, pending0, log, log[i], log[j]);
        }
      }
    }
  }

  lemma NotInFirstRound(pending0: set<nat>, log: seq<Run>, h: nat)
    requires Justified(pending0, log) && h !in pending0
    ensures !RanBy(log, 0, h)
  {
    forall x <- log
      ensures x.round <= 0 ==> x.handler != h
    {
    }
  }

  /** Two handlers are pending at the start, and the first notifies one before the second. */
  lemma NotifiedBack(pending0: set<nat>, log: seq<Run>, first: nat, second: nat, h: nat)
    requires InOrder(log) && AtMostOnce(log) && Justified(pending0, log) && Complete(pending0, log)
    requires first in pending0 && second in pending0 && h !in pending0 && h < second
    requires forall x <- log :: x.handler == first ==> h in x.notified
    ensures !Ascending(log)
  {
    hide InOrder, AtMostOnce, Ascending;
    assert RanBy(log, 0, first) && RanBy(log, 0, second);
    hide Complete;
    var e :| e in log && e.round <= 0 && e.handler == first;
    var d :| d in log && d.round <= 0 && d.handler == second;
    NotInFirstRound(pending0, log, h);
    hide Justified;
    assert e.round == 0 && d.round == 0 && h in e.notified;
    BackBreaksOrder(pending0, log, e, d, h);
  }

  lemma NeverFails<S(!new)>(run: (nat, S) -> Effect<S>, s0: S, log: seq<Run>)
    requires forall h, s :: !run(h, s).failed
    ensures !LastFails(run, s0, log)
  {
  }

  /** Two handlers, of which the second notifies the first: it runs after the second. */
  method SecondNotifiesFirst() returns (ghost log: seq<Run>)
    ensures InOrder(log) && AtMostOnce(log) && Justified({1}, log) && Complete({1}, log) && !Ascending(log)
  {
    hide InOrder, AtMostOnce, Justified, Complete, Ascending, Faithful, NoneFails, LastFails, StateAfter;
    var run := (h: nat, s: int) => Effect(false, s, if h == 1 then {0} else {});
    var failed, s, pending;
    failed, s, pending, log := FlushHandlers(2, run, {1}, 0);
    NeverFails(run, 0, log);
    RecordsNotified(run, 0, log);
    NotifiedBack({1}, log, 1, 1, 0);
  }

  /** Notifying later definitions only is not enough: the first of three notifies the second,
      while the third runs in the same round. */
  method FirstNotifiesSecond() returns (ghost log: seq<Run>)
    ensures InOrder(log) && AtMostOnce(log) && Justified({0, 2}, log) && Complete({0, 2}, log) && !Ascending(log)
    ensures forall e, h: nat :: e in log && h in e.notified ==> h > e.handler
  {
    hide InOrder, AtMostOnce, Justified, Complete, Ascending, Faithful, NoneFails, LastFails, StateAfter;
    var run := (h: nat, s: int) => Effect(false, s, if h == 0 then {1} else {});
    var failed, s, pending;
    failed, s, pending, log := FlushHandlers(3, run, {0, 2}, 0);
    NeverFails(run, 0, log);
    RecordsNotified(run, 0, log);
    NotifiedBack({0, 2}, log, 0, 2, 1);
  }
}
