/**
  The events of the main location, from the beginning of the epoch to its end, as values.

  Unwinding is off, so every enter and exit goes through the task stack. The events carry the task
  that was current when they were emitted, which is how consumers attribute them.
*/
module EventLog {
  import opened LookupMix
  import opened TaskPool

  datatype Event =
    | ProgramBegin(time: nat)
    | Entered(time: nat, region: Region, task: nat)
    | Exited(time: nat, region: Region, task: nat)
    | ProgramEnd(time: nat)

  /** The main location: its tasks, the events so far, and the timestamp of the last one. */
  datatype Trace = Trace(pool: Pool, log: seq<Event>, last: nat)

  /** Readings of the timer, in the order they are taken. */
  type Clock = nat -> nat

  /** One reading for everything. */
  function Constant(time: nat): Clock
  {
    _ => time
  }

  ghost predicate Monotone(clock: Clock)
  {
    forall i, j :: i <= j ==> clock(i) <= clock(j)
  }

  // ------------------------------------------------------------------ the reference: balanced logs

  datatype Open = Unbalanced | Regions(open: seq<Region>)

  /** A reader of the log that keeps the open regions of one task and rejects an exit that does not
      match the innermost of them. */
  function Replay(log: seq<Event>, t: nat): Open
  {
    if log == [] then Regions([])
    else
      var before := Replay(log[..|log| - 1], t);
      match log[|log| - 1]
      case Entered(_, region, u) =>
        if before.Unbalanced? || u != t then before else Regions(before.open + [region])
      case Exited(_, region, u) =>
        if before.Unbalanced? || u != t then before
        else if before.open != [] && before.open[|before.open| - 1] == region
        then Regions(before.open[..|before.open| - 1])
        else Unbalanced
      case _ => before
  }

  ghost predicate Balanced(log: seq<Event>)
  {
    forall t :: Replay(log, t) == Regions([])
  }

  ghost predicate InOrder(log: seq<Event>)
  {
    forall i, j :: 0 <= i < j < |log| ==> log[i].time <= log[j].time
  }

  lemma ReplaySnoc(log: seq<Event>, e: Event, t: nat)
    ensures Replay(log + [e], t) ==
            match e
            case Entered(_, region, u) =>
              if Replay(log, t).Unbalanced? || u != t then Replay(log, t) else Regions(Replay(log, t).open + [region])
            case Exited(_, region, u) =>
              if Replay(log, t).Unbalanced? || u != t then Replay(log, t)
              else if Replay(log, t).open != [] && Replay(log, t).open[|Replay(log, t).open| - 1] == region
              then Regions(Replay(log, t).open[..|Replay(log, t).open| - 1])
              else Unbalanced
            case _ => Replay(log, t)
  {
    assert (log + [e])[..|log|] == log;
  }

  /** The regions whose events are recorded. */
  function Recorded(stack: seq<Region>): seq<Region>
  {
    if stack == [] then []
    else
      var below, top := Recorded(stack[..|stack| - 1]), stack[|stack| - 1];
      if top == Filtered then below else below + [top]
  }

  lemma RecordedSnoc(stack: seq<Region>, region: Region)
    ensures Recorded(stack + [region]) == if region == Filtered then Recorded(stack) else Recorded(stack) + [region]
  {
    assert (stack + [region])[..|stack|] == stack;
  }

  // ------------------------------------------------------------------ steps

  /** `SCOREP_EnterRegion` with the given timer reading. */
  function EnterRegion(s: Trace, now: nat, region: Region): Trace
    requires ValidPool(s.pool)
  {
    Trace(Push(s.pool, region), s.log + [Entered(now, region, s.pool.current)], now)
  }

  function OpenRegions(s: Trace): seq<Region>
    requires s.pool.current < |s.pool.stacks|
  {
    s.pool.stacks[s.pool.current]
  }

  /** `SCOREP_ExitRegion`: the event names the given region, the stack loses its top. */
  function ExitRegion(s: Trace, now: nat, region: Region): Trace
    requires ValidPool(s.pool) && OpenRegions(s) != []
  {
    Trace(Pop(s.pool, s.pool.current), s.log + [Exited(now, region, s.pool.current)], now)
  }

  /** A filtered region enters and leaves the stack without an event. */
  function EnterFiltered(s: Trace): Trace
    requires ValidPool(s.pool)
  {
    s.(pool := Push(s.pool, Filtered))
  }

  function ExitFiltered(s: Trace): Trace
    requires ValidPool(s.pool) && OpenRegions(s) != []
  {
    s.(pool := Pop(s.pool, s.pool.current))
  }

  /** Closes what is open in the current task; readings of the timer start with number k. */
  function ExitAll(s: Trace, clock: Clock, k: nat): (s': Trace)
    requires ValidPool(s.pool) && Conserved(s.pool)
    ensures ValidPool(s'.pool) && Conserved(s'.pool) && s'.pool.current == s.pool.current
    decreases |OpenRegions(s)|
  {
    if OpenRegions(s) == [] then s
    else
      var top := OpenRegions(s)[|OpenRegions(s)| - 1];
      PopConserves(s.pool, s.pool.current);
      if top != Filtered then ExitAll(ExitRegion(s, clock(k), top), clock, k + 1)
      else ExitAll(ExitFiltered(s), clock, k)
  }

  /** One turn of the loops. */
  lemma ExitAllStep(s: Trace, clock: Clock, k: nat, top: Region)
    requires ValidPool(s.pool) && Conserved(s.pool)
    requires OpenRegions(s) != [] && top == OpenRegions(s)[|OpenRegions(s)| - 1]
    ensures ValidPool(Pop(s.pool, s.pool.current)) && Conserved(Pop(s.pool, s.pool.current))
    ensures ExitAll(s, clock, k) ==
            if top == Filtered then ExitAll(ExitFiltered(s), clock, k)
            else ExitAll(ExitRegion(s, clock(k), top), clock, k + 1)
    ensures |Recorded(OpenRegions(s))| ==
            |Recorded(OpenRegions(s)[..|OpenRegions(s)| - 1])| + if top == Filtered then 0 else 1
  {
    PopConserves(s.pool, s.pool.current);
  }

  /** Exit events for open regions, innermost first. */
  function Exits(open: seq<Region>, clock: Clock, k: nat, t: nat): seq<Event>
  {
    if open == [] then []
    else [Exited(clock(k), open[|open| - 1], t)] + Exits(open[..|open| - 1], clock, k + 1, t)
  }

  lemma EmitThenMore(log: seq<Event>, e: Event, more: seq<Event>)
    ensures log + [e] + more == log + ([e] + more)
  {
  }

  /** The loops that exit all regions of the current task emit exactly its open unfiltered regions in
      LIFO order, one reading each, and leave the other tasks alone. */
  lemma {:induction false} ExitAllEmits(s: Trace, clock: Clock, k: nat)
    requires ValidPool(s.pool) && Conserved(s.pool)
    ensures var s' := ExitAll(s, clock, k);
            && ValidPool(s'.pool) && Conserved(s'.pool) && s'.pool.current == s.pool.current
            && s'.pool.stacks == s.pool.stacks[s.pool.current := []]
            && s'.log == s.log + Exits(Recorded(OpenRegions(s)), clock, k, s.pool.current)
    decreases |OpenRegions(s)|
  {
    var open := OpenRegions(s);
    if open == [] {
      assert s.log + [] == s.log;
    } else {
      var top := open[|open| - 1];
      PopConserves(s.pool, s.pool.current);
      if top != Filtered {
        var s1, t := ExitRegion(s, clock(k), top), s.pool.current;
        ExitAllEmits(s1, clock, k + 1);
        var below := Recorded(open[..|open| - 1]);
        assert Recorded(open) == below + [top];
        assert (below + [top])[..|below|] == below;
        EmitThenMore(s.log, Exited(clock(k), top, t), Exits(below, clock, k + 1, t));
      } else {
        ExitAllEmits(ExitFiltered(s), clock, k);
      }
    }
  }

  /** How the loop ends for any task: with its stack empty, or with an exit from an empty stack. */
  datatype Emptying = Emptied(state: Trace) | Underflow(state: Trace)

  /** The loop asked to close task t: an exit event removes a region of the current task, whatever t is. */
  function CloseTask(s: Trace, clock: Clock, k: nat, t: nat): Emptying
    requires ValidPool(s.pool) && Conserved(s.pool) && t < |s.pool.stacks|
    decreases |s.pool.stacks[t]| + |OpenRegions(s)|
  {
    var stack := s.pool.stacks[t];
    if stack == [] then Emptied(s)
    else
      var top := stack[|stack| - 1];
      if top == Filtered then
        PopConserves(s.pool, t);
        CloseTask(s.(pool := Pop(s.pool, t)), clock, k, t)
      else if OpenRegions(s) == [] then Underflow(s)
      else
        PopConserves(s.pool, s.pool.current);
        CloseTask(ExitRegion(s, clock(k), top), clock, k + 1, t)
  }

  /** The loop empties the stack of a task if and only if the task is current or has filtered regions
      only; otherwise it ends with an exit from the current task's stack, which it emptied instead. */
  lemma {:induction false} CloseTaskEmpties(s: Trace, clock: Clock, k: nat, t: nat)
    requires ValidPool(s.pool) && Conserved(s.pool) && t < |s.pool.stacks|
    ensures var r := CloseTask(s, clock, k, t);
            && (r.Emptied? <==> t == s.pool.current || Recorded(s.pool.stacks[t]) == [])
            && r.state.pool.current == s.pool.current && |r.state.pool.stacks| == |s.pool.stacks|
            && (r.Emptied? ==> r.state.pool.stacks[t] == [])
            && (r.Underflow? ==> OpenRegions(r.state) == [] && r.state.pool.stacks[t] != [])
    decreases |s.pool.stacks[t]| + |OpenRegions(s)|
  {
    var stack := s.pool.stacks[t];
    if stack != [] {
      var top := stack[|stack| - 1];
      if top == Filtered {
        PopConserves(s.pool, t);
        CloseTaskEmpties(s.(pool := Pop(s.pool, t)), clock, k, t);
      } else if OpenRegions(s) != [] {
        PopConserves(s.pool, s.pool.current);
        CloseTaskEmpties(ExitRegion(s, clock(k), top), clock, k + 1, t);
      }
    }
  }

  /** For the current task, which is what both callers ask for, it is the loop above. */
  lemma {:induction false} CloseCurrentTask(s: Trace, clock: Clock, k: nat)
    requires ValidPool(s.pool) && Conserved(s.pool)
    ensures CloseTask(s, clock, k, s.pool.current) == Emptied(ExitAll(s, clock, k))
    decreases |OpenRegions(s)|
  {
    if OpenRegions(s) != [] {
      var top := OpenRegions(s)[|OpenRegions(s)| - 1];
      PopConserves(s.pool, s.pool.current);
      if top != Filtered {
        CloseCurrentTask(ExitRegion(s, clock(k), top), clock, k + 1);
      } else {
        CloseCurrentTask(ExitFiltered(s), clock, k);
      }
    }
  }

  // ------------------------------------------------------------------ nesting is kept

  /** Reading the log gives the recorded part of every stack. */
  ghost predicate Nested(s: Trace)
  {
    forall t {:trigger NestedTask(s, t)} :: NestedTask(s, t)
  }

  ghost predicate NestedTask(s: Trace, t: nat)
  {
    Replay(s.log, t) == Regions(if t < |s.pool.stacks| then Recorded(s.pool.stacks[t]) else [])
  }

  /** No event is later than the next reading of the timer. */
  ghost predicate Timely(s: Trace, now: nat)
  {
    && InOrder(s.log) && s.last <= now
    && (forall i :: 0 <= i < |s.log| ==> s.log[i].time <= now)
  }

  lemma EnterKeeps(s: Trace, now: nat, region: Region)
    requires ValidPool(s.pool) && Nested(s)
    ensures region != Filtered ==> Nested(EnterRegion(s, now, region))
    ensures region == Filtered ==> Nested(EnterFiltered(s))
  {
    var s' := if region == Filtered then EnterFiltered(s) else EnterRegion(s, now, region);
    RecordedSnoc(OpenRegions(s), region);
    forall t: nat
      ensures NestedTask(s', t)
    {
      assert NestedTask(s, t);
      ReplaySnoc(s.log, Entered(now, region, s.pool.current), t);
    }
  }

  /** An exit keeps the nesting if it names the innermost region. */
  lemma ExitKeeps(s: Trace, now: nat)
    requires ValidPool(s.pool) && Nested(s) && OpenRegions(s) != []
    ensures var top := OpenRegions(s)[|OpenRegions(s)| - 1];
            Nested(if top == Filtered then ExitFiltered(s) else ExitRegion(s, now, top))
  {
    var open := OpenRegions(s);
    var top := open[|open| - 1];
    var s' := if top == Filtered then ExitFiltered(s) else ExitRegion(s, now, top);
    RecordedSnoc(open[..|open| - 1], top);
    assert open[..|open| - 1] + [top] == open;
    forall t: nat
      ensures NestedTask(s', t)
    {
      assert NestedTask(s, t);
      ReplaySnoc(s.log, Exited(now, top, s.pool.current), t);
      assert t == s.pool.current && top != Filtered ==>
          Recorded(open)[..|Recorded(open)| - 1] == Recorded(open[..|open| - 1]);
    }
  }

  /** If the exit names another region than the innermost one, the log is spoilt: whatever follows,
      it does not become balanced. */
  lemma WrongExitSpoils(s: Trace, now: nat, region: Region, rest: seq<Event>)
    requires ValidPool(s.pool) && Nested(s) && OpenRegions(s) != []
    requires OpenRegions(s)[|OpenRegions(s)| - 1] != Filtered && region != OpenRegions(s)[|OpenRegions(s)| - 1]
    ensures !Balanced(ExitRegion(s, now, region).log + rest)
  {
    var t := s.pool.current;
    WrongExitReplay(s, now, region);
    UnbalancedStays(ExitRegion(s, now, region).log, rest, t);
    assert Replay(ExitRegion(s, now, region).log + rest, t) == Unbalanced;
  }

  lemma WrongExitReplay(s: Trace, now: nat, region: Region)
    requires ValidPool(s.pool) && Nested(s) && OpenRegions(s) != []
    requires OpenRegions(s)[|OpenRegions(s)| - 1] != Filtered && region != OpenRegions(s)[|OpenRegions(s)| - 1]
    ensures Replay(ExitRegion(s, now, region).log, s.pool.current) == Unbalanced
  {
    assert NestedTask(s, s.pool.current);
    ReplayWrongExit(s.log, OpenRegions(s), now, region, s.pool.current);
  }

  lemma ReplayWrongExit(log: seq<Event>, open: seq<Region>, now: nat, region: Region, t: nat)
    requires Replay(log, t) == Regions(Recorded(open))
    requires open != [] && open[|open| - 1] != Filtered && region != open[|open| - 1]
    ensures Replay(log + [Exited(now, region, t)], t) == Unbalanced
  {
    assert Recorded(open)[|Recorded(open)| - 1] == open[|open| - 1];
    ReplaySnoc(log, Exited(now, region, t), t);
  }

  lemma {:induction false} UnbalancedStays(log: seq<Event>, rest: seq<Event>, t: nat)
    requires Replay(log, t) == Unbalanced
    ensures Replay(log + rest, t) == Unbalanced
  {
    if rest == [] {
      assert log + rest == log;
    } else {
      var front := rest[..|rest| - 1];
      UnbalancedStays(log, front, t);
      ReplaySnoc(log + front, rest[|rest| - 1], t);
      assert log + rest == log + front + [rest[|rest| - 1]];
    }
  }

  lemma {:induction false} ExitAllKeeps(s: Trace, clock: Clock, k: nat)
    requires ValidPool(s.pool) && Conserved(s.pool) && Nested(s)
    ensures Nested(ExitAll(s, clock, k))
    decreases |OpenRegions(s)|
  {
    if OpenRegions(s) != [] {
      var top := OpenRegions(s)[|OpenRegions(s)| - 1];
      PopConserves(s.pool, s.pool.current);
      ExitKeeps(s, clock(k));
      if top != Filtered {
        ExitAllKeeps(ExitRegion(s, clock(k), top), clock, k + 1);
      } else {
        ExitAllKeeps(ExitFiltered(s), clock, k);
      }
    }
  }

  lemma EmitTimely(s: Trace, e: Event, later: nat)
    requires Timely(s, e.time) && e.time <= later
    ensures Timely(Trace(s.pool, s.log + [e], e.time), later)
  {
  }

  lemma {:induction false} ExitAllTimely(s: Trace, clock: Clock, k: nat)
    requires ValidPool(s.pool) && Conserved(s.pool) && Monotone(clock) && Timely(s, clock(k))
    ensures Timely(ExitAll(s, clock, k), clock(k + |Recorded(OpenRegions(s))|))
    decreases |OpenRegions(s)|
  {
    if OpenRegions(s) != [] {
      var open := OpenRegions(s);
      var top := open[|open| - 1];
      PopConserves(s.pool, s.pool.current);
      if top != Filtered {
        EmitTimely(s, Exited(clock(k), top, s.pool.current), clock(k + 1));
        ExitAllTimely(ExitRegion(s, clock(k), top), clock, k + 1);
        assert k + 1 + |Recorded(open[..|open| - 1])| == k + |Recorded(open)|;
      } else {
        ExitAllTimely(ExitFiltered(s), clock, k);
      }
    }
  }
}
