/**
  The log of a run as its history tells it: which events, of which task and region, and with which reading of
  the timer each.
*/
module EventHistory {
  import opened LookupMix
  import opened TaskPool
  import opened EventLog
  import opened EventRuns

  // ------------------------------------------------------------------ actions as task operations

  function OpOf(a: Action): Op
  {
    match a
    case Enter(region) => Op.Enter(region)
    case Exit => Op.Exit
    case Create(_, _) => Op.Create
    case Switch(t) => Op.Switch(t)
    case Complete(t) => Op.Complete(t)
  }

  function OpsOf(actions: seq<Action>): (ops: seq<Op>)
    ensures |ops| == |actions|
  {
    if actions == [] then [] else OpsOf(actions[..|actions| - 1]) + [OpOf(actions[|actions| - 1])]
  }

  lemma {:induction false} ActionsSnoc(step: HashStep, clock: Clock, m: Moment, actions: seq<Action>, a: Action)
    requires PoolSound(m.trace) && ValidActions(step, clock, m, actions + [a])
    ensures ValidActions(step, clock, m, actions)
    ensures var m' := AfterActions(step, clock, m, actions);
            && Possible(m'.trace, a)
            && AfterActions(step, clock, m, actions + [a]) == Next(step, clock, m', a)
    decreases |actions|
  {
    var all := actions + [a];
    ActPool(step, m.trace, clock(m.next), all[0]);
    if actions != [] {
      assert all[1..] == actions[1..] + [a];
      ActionsSnoc(step, clock, Next(step, clock, m, all[0]), actions[1..], a);
    }
  }

  // ------------------------------------------------------------------ the log

  /** The task that is current after some actions, and the regions it has open. */
  function CurrentAfter(actions: seq<Action>): nat
  {
    CurrentOf(OpsOf(actions))
  }

  function OpenAfter(actions: seq<Action>): seq<Region>
  {
    OpenOf(OpsOf(actions), CurrentAfter(actions))
  }

  /** After the beginning of the program an event for every region that is entered or left and not filtered,
      in the current task, with the next reading of the timer. */
  function LogOf(clock: Clock, first: nat, actions: seq<Action>): (log: seq<Event>)
    ensures |log| > 0
  {
    if actions == [] then [ProgramBegin(clock(first))]
    else
      var front := actions[..|actions| - 1];
      var log, t, open := LogOf(clock, first, front), CurrentAfter(front), OpenAfter(front);
      match actions[|actions| - 1]
      case Enter(region) =>
        if region == Filtered then log else log + [Entered(clock(first + |log|), region, t)]
      case Exit =>
        if open == [] || open[|open| - 1] == Filtered then log
        else log + [Exited(clock(first + |log|), open[|open| - 1], t)]
      case _ => log
  }

  /** The state after a run: the tasks as their operations tell, the log as the history tells. */
  ghost predicate TellsMoment(step: HashStep, clock: Clock, first: nat, forkHash: Word, actions: seq<Action>, m: Moment)
  {
    && Tells(step, forkHash, OpsOf(actions), m.trace.pool) && Conserved(m.trace.pool)
    && m.trace.log == LogOf(clock, first, actions) && m.next == first + |m.trace.log|
    && m.trace.last == LastTime(m.trace.log)
  }

  /** The last timestamp of the location is that of the last region event. */
  function LastTime(log: seq<Event>): nat
  {
    if |log| <= 1 then 0 else log[|log| - 1].time
  }

  lemma BeginTells(step: HashStep, clock: Clock, first: nat, forkHash: Word)
    requires Monotone(clock)
    ensures TellsMoment(step, clock, first, forkHash, [], Started(clock, first, forkHash))
  {
    RunTells(step, forkHash, []);
  }

  lemma ActIsStep(step: HashStep, s: Trace, now: nat, a: Action)
    requires ValidPool(s.pool) && Possible(s, a)
    ensures Allowed(s.pool, OpOf(a)) && Act(step, s, now, a).pool == Step(step, s.pool, OpOf(a))
  {
  }

  lemma ActLogs(clock: Clock, first: nat, actions: seq<Action>, step: HashStep, m: Moment, a: Action)
    requires ValidPool(m.trace.pool) && Possible(m.trace, a)
    requires m.trace.pool.current == CurrentAfter(actions) && OpenRegions(m.trace) == OpenAfter(actions)
    requires m.trace.log == LogOf(clock, first, actions) && m.next == first + |m.trace.log|
    requires m.trace.last == LastTime(m.trace.log)
    ensures Next(step, clock, m, a).trace.last == LastTime(Next(step, clock, m, a).trace.log)
    ensures Next(step, clock, m, a).trace.log == LogOf(clock, first, actions + [a])
    ensures Next(step, clock, m, a).next == first + |Next(step, clock, m, a).trace.log|
  {
    assert (actions + [a])[..|actions|] == actions;
  }

  lemma CurrentTells(step: HashStep, forkHash: Word, actions: seq<Action>, s: Trace)
    requires Tells(step, forkHash, OpsOf(actions), s.pool)
    ensures s.pool.current == CurrentAfter(actions) && OpenRegions(s) == OpenAfter(actions)
  {
    assert TellsTask(step, forkHash, OpsOf(actions), s.pool, s.pool.current);
  }

  lemma ActTells(step: HashStep, clock: Clock, first: nat, forkHash: Word, actions: seq<Action>, m: Moment, a: Action)
    requires TellsMoment(step, clock, first, forkHash, actions, m) && Possible(m.trace, a)
    ensures TellsMoment(step, clock, first, forkHash, actions + [a], Next(step, clock, m, a))
  {
    ActIsStep(step, m.trace, clock(m.next), a);
    StepTells(step, forkHash, OpsOf(actions), m.trace.pool, OpOf(a));
    StepConserves(step, m.trace.pool, OpOf(a));
    CurrentTells(step, forkHash, actions, m.trace);
    ActLogs(clock, first, actions, step, m, a);
    assert OpsOf(actions + [a]) == OpsOf(actions) + [OpOf(a)] by {
      assert (actions + [a])[..|actions|] == actions;
    }
  }

  lemma {:induction false} RunTellsMoment(step: HashStep, clock: Clock, first: nat, forkHash: Word,
                                          actions: seq<Action>)
    requires Monotone(clock) && ValidActions(step, clock, Started(clock, first, forkHash), actions)
    ensures TellsMoment(step, clock, first, forkHash, actions,
                        AfterActions(step, clock, Started(clock, first, forkHash), actions))
    decreases |actions|
  {
    var m := Started(clock, first, forkHash);
    if actions == [] {
      BeginTells(step, clock, first, forkHash);
    } else {
      var front, a := actions[..|actions| - 1], actions[|actions| - 1];
      assert front + [a] == actions;
      ActionsSnoc(step, clock, m, front, a);
      RunTellsMoment(step, clock, first, forkHash, front);
      ActTells(step, clock, first, forkHash, front, AfterActions(step, clock, m, front), a);
    }
  }

  // ------------------------------------------------------------------ readings

  /** Event j carries reading first + j of the timer. */
  ghost predicate OneReadingEach(log: seq<Event>, clock: Clock, first: nat)
  {
    forall j :: 0 <= j < |log| ==> log[j].time == clock(first + j)
  }

  lemma {:induction false} LogReadings(clock: Clock, first: nat, actions: seq<Action>)
    ensures OneReadingEach(LogOf(clock, first, actions), clock, first)
  {
    if actions != [] {
      LogReadings(clock, first, actions[..|actions| - 1]);
    }
  }

  lemma {:induction false} ExitCount(open: seq<Region>, clock: Clock, k: nat, t: nat)
    ensures |Exits(open, clock, k, t)| == |open|
  {
    if open != [] {
      ExitCount(open[..|open| - 1], clock, k + 1, t);
    }
  }

  /** The j-th exit leaves the j-th region from the inside, with the j-th reading. */
  lemma {:induction false} ExitAt(open: seq<Region>, clock: Clock, k: nat, t: nat, j: nat)
    requires j < |open|
    ensures j < |Exits(open, clock, k, t)|
    ensures Exits(open, clock, k, t)[j] == Exited(clock(k + j), open[|open| - 1 - j], t)
  {
    var front := open[..|open| - 1];
    ExitCount(open, clock, k, t);
    if j > 0 {
      ExitAt(front, clock, k + 1, t, j - 1);
    }
  }

  // ------------------------------------------------------------------ the finished log

  /** The log of a run that another location ends at a time: the remaining regions of the current task are left
      then, innermost first, and the program ends then. */
  function EndedLog(log: seq<Event>, open: seq<Region>, clock: Clock, k: nat, t: nat, end: nat): seq<Event>
  {
    log + Exits(open, clock, k, t) + [ProgramEnd(end)]
  }

  lemma EndLog(s: Trace, time: nat)
    requires ValidPool(s.pool) && Conserved(s.pool)
    ensures End(s, time).log ==
            EndedLog(s.log, Recorded(OpenRegions(s)), Constant(time), 0, s.pool.current, time)
  {
    ExitAllEmits(s, Constant(time), 0);
  }

  lemma CloseAndEndLog(s: Trace, clock: Clock, k: nat)
    requires ValidPool(s.pool) && Conserved(s.pool)
    ensures var open := Recorded(OpenRegions(s));
            CloseAndEnd(s, clock, k).log ==
            EndedLog(s.log, open, clock, k, s.pool.current, clock(k + |open|))
  {
    var open := Recorded(OpenRegions(s));
    var closed, time := ExitAll(s, clock, k), clock(k + |open|);
    ExitAllEmits(s, clock, k);
    EndLog(closed, time);
    assert Recorded(OpenRegions(closed)) == [];
    NothingMore(closed.log, Constant(time), s.pool.current, time);
  }

  lemma NothingMore(log: seq<Event>, clock: Clock, t: nat, end: nat)
    ensures EndedLog(log, [], clock, 0, t, end) == log + [ProgramEnd(end)]
  {
    assert log + [] == log;
  }

  lemma EndedReadings(log: seq<Event>, open: seq<Region>, clock: Clock, first: nat, t: nat)
    requires OneReadingEach(log, clock, first)
    ensures OneReadingEach(EndedLog(log, open, clock, first + |log|, t, clock(first + |log| + |open|)), clock, first)
  {
    var exits := Exits(open, clock, first + |log|, t);
    var all := EndedLog(log, open, clock, first + |log|, t, clock(first + |log| + |open|));
    ExitCount(open, clock, first + |log|, t);
    forall j | 0 <= j < |all|
      ensures all[j].time == clock(first + j)
    {
      if |log| <= j < |log| + |open| {
        ExitAt(open, clock, first + |log|, t, j - |log|);
        assert all[j] == exits[j - |log|];
      }
    }
  }

  lemma RunLog(step: HashStep, clock: Clock, first: nat, forkHash: Word, actions: seq<Action>)
    requires Monotone(clock) && ValidActions(step, clock, Started(clock, first, forkHash), actions)
    ensures var m := AfterActions(step, clock, Started(clock, first, forkHash), actions);
            && m.trace.log == LogOf(clock, first, actions) && m.next == first + |m.trace.log|
            && m.trace.last == LastTime(m.trace.log)
            && m.trace.pool.current == CurrentAfter(actions) && OpenRegions(m.trace) == OpenAfter(actions)
  {
    RunTellsMoment(step, clock, first, forkHash, actions);
    CurrentTells(step, forkHash, actions, AfterActions(step, clock, Started(clock, first, forkHash), actions).trace);
  }

  lemma MainEnds(clock: Clock, first: nat, m: Moment, log: seq<Event>, open: seq<Region>, t: nat)
    requires ValidPool(m.trace.pool) && Conserved(m.trace.pool)
    requires m.trace.log == log && m.next == first + |log| && OneReadingEach(log, clock, first)
    requires Recorded(OpenRegions(m.trace)) == open && m.trace.pool.current == t
    ensures CloseAndEnd(m.trace, clock, m.next).log ==
            EndedLog(log, open, clock, first + |log|, t, clock(first + |log| + |open|))
    ensures OneReadingEach(CloseAndEnd(m.trace, clock, m.next).log, clock, first)
  {
    CloseAndEndLog(m.trace, clock, m.next);
    EndedReadings(log, open, clock, first, t);
  }

  /** The whole log of a run, from what was done alone, if the main location finalizes: every event has its own
      reading of the timer, in order, and the end of the program has the last one. */
  lemma WholeLog(step: HashStep, clock: Clock, first: nat, forkHash: Word, actions: seq<Action>, log: seq<Event>,
                 open: seq<Region>)
    requires Monotone(clock) && ValidActions(step, clock, Started(clock, first, forkHash), actions)
    requires log == LogOf(clock, first, actions) && open == Recorded(OpenAfter(actions))
    ensures var m := AfterActions(step, clock, Started(clock, first, forkHash), actions);
            && CloseAndEnd(m.trace, clock, m.next).log ==
               EndedLog(log, open, clock, first + |log|, CurrentAfter(actions), clock(first + |log| + |open|))
            && OneReadingEach(CloseAndEnd(m.trace, clock, m.next).log, clock, first)
  {
    var m := AfterActions(step, clock, Started(clock, first, forkHash), actions);
    RunLog(step, clock, first, forkHash, actions);
    LogReadings(clock, first, actions);
    MainEnds(clock, first, m, log, open, CurrentAfter(actions));
  }

  /** If another location finalizes, the events that close the main location carry the time of the end. */
  lemma WholeLogEndedAt(step: HashStep, clock: Clock, first: nat, forkHash: Word, actions: seq<Action>, time: nat)
    requires Monotone(clock) && ValidActions(step, clock, Started(clock, first, forkHash), actions)
    ensures var m := AfterActions(step, clock, Started(clock, first, forkHash), actions);
            End(m.trace, time).log ==
            EndedLog(LogOf(clock, first, actions), Recorded(OpenAfter(actions)), Constant(time), 0,
                     CurrentAfter(actions), time)
  {
    RunLog(step, clock, first, forkHash, actions);
    EndLog(AfterActions(step, clock, Started(clock, first, forkHash), actions).trace, time);
  }
}
