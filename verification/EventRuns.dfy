/**
  Whole runs on the main location: the beginning of the epoch, any actions on it, and its end.
*/
module EventRuns {
  import opened LookupMix
  import opened TaskPool
  import opened EventLog

  // ------------------------------------------------------------------ actions

  /** What happens on the main location while the measurement is on. Adapters exit the region they
      entered, so an exit is one of the innermost region. */
  datatype Action =
    | Enter(region: Region)
    | Exit
    | Create(threadId: nat, generationNumber: nat)
    | Switch(task: nat)
    | Complete(task: nat)

  predicate Possible(s: Trace, a: Action)
  {
    match a
    case Enter(_) => Allowed(s.pool, Op.Enter(Filtered))
    case Exit => Allowed(s.pool, Op.Exit)
    case Create(_, _) => true
    case Switch(t) => Allowed(s.pool, Op.Switch(t))
    case Complete(t) => Allowed(s.pool, Op.Complete(t)) && s.pool.stacks[t] == []
  }

  function Act(step: HashStep, s: Trace, now: nat, a: Action): Trace
    requires ValidPool(s.pool) && Possible(s, a)
  {
    match a
    case Enter(region) => if region == Filtered then EnterFiltered(s) else EnterRegion(s, now, region)
    case Exit =>
      var top := OpenRegions(s)[|OpenRegions(s)| - 1];
      if top == Filtered then ExitFiltered(s) else ExitRegion(s, now, top)
    case Create(_, _) => s.(pool := CreateTask(step, s.pool))
    case Switch(t) => s.(pool := SwitchTask(s.pool, t))
    case Complete(t) => s.(pool := CompleteTask(s.pool, t))
  }

  /** The readings of the timer that an action takes. */
  function Reads(s: Trace, a: Action): (n: nat)
    requires ValidPool(s.pool) && Possible(s, a)
  {
    match a
    case Enter(region) => if region == Filtered then 0 else 1
    case Exit => if OpenRegions(s)[|OpenRegions(s)| - 1] == Filtered then 0 else 1
    case _ => 0
  }

  /** The main location between two actions, and the number of the next reading of the timer. */
  datatype Moment = Moment(trace: Trace, next: nat)

  function Next(step: HashStep, clock: Clock, m: Moment, a: Action): Moment
    requires ValidPool(m.trace.pool) && Possible(m.trace, a)
  {
    Moment(Act(step, m.trace, clock(m.next), a), m.next + Reads(m.trace, a))
  }

  /** Completed tasks have empty stacks, so reusing one closes no region. */
  ghost predicate PoolSound(s: Trace)
  {
    ValidPool(s.pool) && Conserved(s.pool) && RecycledEmpty(s.pool)
  }

  ghost predicate Sound(s: Trace, now: nat)
  {
    PoolSound(s) && Nested(s) && Timely(s, now)
  }

  lemma EnterPool(s: Trace, now: nat, region: Region)
    requires PoolSound(s) && s.pool.current !in s.pool.recycled
    ensures PoolSound(if region == Filtered then EnterFiltered(s) else EnterRegion(s, now, region))
  {
    PushConserves(s.pool, region);
    forall i | 0 <= i < |s.pool.recycled|
      ensures s.pool.recycled[i] != s.pool.current
    {
      assert s.pool.recycled[i] in s.pool.recycled;
    }
  }

  lemma CreatePool(step: HashStep, s: Trace)
    requires PoolSound(s)
    ensures PoolSound(s.(pool := CreateTask(step, s.pool)))
  {
    CreateConserves(step, s.pool);
  }

  /** Every action keeps the tasks sound, whatever was logged. */
  lemma ActPool(step: HashStep, s: Trace, now: nat, a: Action)
    requires PoolSound(s) && Possible(s, a)
    ensures PoolSound(Act(step, s, now, a))
  {
    match a
    case Enter(region) => EnterPool(s, now, region);
    case Exit => PopConserves(s.pool, s.pool.current);
    case Create(_, _) => CreatePool(step, s);
    case Switch(_) =>
    case Complete(_) =>
  }

  /** Steps that emit nothing and open or close nothing keep the nesting. */
  lemma QuietKeeps(s: Trace, s': Trace)
    requires Nested(s) && s'.log == s.log
    requires |s.pool.stacks| <= |s'.pool.stacks|
    requires forall t :: 0 <= t < |s.pool.stacks| ==> s'.pool.stacks[t] == s.pool.stacks[t]
    requires forall t :: |s.pool.stacks| <= t < |s'.pool.stacks| ==> s'.pool.stacks[t] == []
    ensures Nested(s')
  {
    forall t: nat
      ensures NestedTask(s', t)
    {
      assert NestedTask(s, t);
    }
  }

  /** Every action keeps nesting and order, and takes no reading below the last timestamp. */
  lemma ActKeeps(step: HashStep, s: Trace, now: nat, a: Action, later: nat)
    requires Sound(s, now) && Possible(s, a) && now <= later
    ensures Sound(Act(step, s, now, a), later)
    ensures s.last <= Act(step, s, now, a).last && s.log <= Act(step, s, now, a).log
  {
    ActPool(step, s, now, a);
    match a
    case Enter(region) =>
      EnterKeeps(s, now, region);
      EmitTimely(s, Entered(now, region, s.pool.current), later);
    case Exit =>
      ExitKeeps(s, now);
      EmitTimely(s, Exited(now, OpenRegions(s)[|OpenRegions(s)| - 1], s.pool.current), later);
    case Create(_, _) => QuietKeeps(s, s.(pool := CreateTask(step, s.pool)));
    case Switch(t) => QuietKeeps(s, Act(step, s, now, a));
    case Complete(t) => QuietKeeps(s, Act(step, s, now, a));
  }

  ghost predicate ValidActions(step: HashStep, clock: Clock, m: Moment, actions: seq<Action>)
    requires PoolSound(m.trace)
    decreases |actions|
  {
    actions != [] ==>
      && Possible(m.trace, actions[0])
      && (ActPool(step, m.trace, clock(m.next), actions[0]);
          ValidActions(step, clock, Next(step, clock, m, actions[0]), actions[1..]))
  }

  ghost function AfterActions(step: HashStep, clock: Clock, m: Moment, actions: seq<Action>): (m': Moment)
    requires PoolSound(m.trace) && ValidActions(step, clock, m, actions)
    ensures PoolSound(m'.trace)
    decreases |actions|
  {
    if actions == [] then m
    else
      ActPool(step, m.trace, clock(m.next), actions[0]);
      AfterActions(step, clock, Next(step, clock, m, actions[0]), actions[1..])
  }

  /** Over any run with a clock that does not run backwards, the log stays nested and in order, timestamps
      never fall, and the next reading is not below the last one: the check of
      `SCOREP_Location_SetLastTimestamp` never fails. */
  lemma {:induction false} ActionsKeep(step: HashStep, clock: Clock, m: Moment, actions: seq<Action>)
    requires Monotone(clock) && Sound(m.trace, clock(m.next)) && ValidActions(step, clock, m, actions)
    ensures var m' := AfterActions(step, clock, m, actions);
            && Sound(m'.trace, clock(m'.next)) && m.next <= m'.next
            && m.trace.last <= m'.trace.last <= clock(m'.next)
            && m.trace.log <= m'.trace.log
    decreases |actions|
  {
    if actions != [] {
      var m1 := Next(step, clock, m, actions[0]);
      ActKeeps(step, m.trace, clock(m.next), actions[0], clock(m1.next));
      ActionsKeep(step, clock, m1, actions[1..]);
    }
  }

  // ------------------------------------------------------------------ from begin to end

  /** `begin_epoch` on a new main location. */
  function Begin(forkHash: Word, time: nat): Trace
  {
    Trace(Init(forkHash), [ProgramBegin(time)], 0)
  }

  /** `end_epoch` at a given time: all exits carry the end timestamp. */
  function End(s: Trace, time: nat): Trace
    requires ValidPool(s.pool) && Conserved(s.pool)
  {
    var closed := ExitAll(s, Constant(time), 0);
    closed.(log := closed.log + [ProgramEnd(time)])
  }

  /** `scorep_finalize` on the main location: it closes its own regions first, one reading each. */
  function CloseAndEnd(s: Trace, clock: Clock, k: nat): Trace
    requires ValidPool(s.pool) && Conserved(s.pool)
  {
    End(ExitAll(s, clock, k), clock(k + |Recorded(OpenRegions(s))|))
  }

  lemma BeginSound(forkHash: Word, time: nat, later: nat)
    requires time <= later
    ensures Sound(Begin(forkHash, time), later)
  {
    var s := Begin(forkHash, time);
    forall t: nat
      ensures NestedTask(s, t)
    {
      assert s.log[..0] == [];
    }
  }

  /** The end of the epoch balances the log exactly when no other task has recorded open regions. */
  lemma EndBalances(s: Trace, time: nat)
    requires Sound(s, time)
    ensures InOrder(End(s, time).log)
    ensures Balanced(End(s, time).log) <==>
            forall t :: 0 <= t < |s.pool.stacks| && t != s.pool.current ==> Recorded(s.pool.stacks[t]) == []
  {
    var closed, s' := ExitAll(s, Constant(time), 0), End(s, time);
    ExitAllEmits(s, Constant(time), 0);
    ExitAllKeeps(s, Constant(time), 0);
    ExitAllTimely(s, Constant(time), 0);
    forall t: nat
      ensures Replay(s'.log, t) == Regions(if t < |closed.pool.stacks| then Recorded(closed.pool.stacks[t]) else [])
    {
      assert NestedTask(closed, t);
      ReplaySnoc(closed.log, ProgramEnd(time), t);
    }
    if Balanced(s'.log) {
      forall t | 0 <= t < |s.pool.stacks| && t != s.pool.current
        ensures Recorded(s.pool.stacks[t]) == []
      {
        assert Replay(s'.log, t) == Regions([]);
      }
    }
  }

  /** What a finished log looks like, given how it began. */
  ghost predicate Finished(s: Trace, begin: Event, log: seq<Event>)
  {
    && |log| >= 2 && log[0] == begin && log[|log| - 1].ProgramEnd? && InOrder(log)
    && (Balanced(log) <==> OthersClosed(s))
  }

  ghost predicate OthersClosed(s: Trace)
  {
    forall t :: 0 <= t < |s.pool.stacks| && t != s.pool.current ==> Recorded(s.pool.stacks[t]) == []
  }

  lemma OthersClosedAfter(s: Trace, s1: Trace)
    requires s.pool.current < |s.pool.stacks| && s1.pool.current == s.pool.current
    requires s1.pool.stacks == s.pool.stacks[s.pool.current := []]
    ensures OthersClosed(s) <==> OthersClosed(s1)
  {
    forall t | 0 <= t < |s.pool.stacks| && t != s.pool.current
      ensures s1.pool.stacks[t] == s.pool.stacks[t]
    {
    }
  }

  lemma EndCompletes(s: Trace, time: nat)
    requires Sound(s, time) && s.log != []
    ensures Finished(s, s.log[0], End(s, time).log)
  {
    EndBalances(s, time);
    ExitAllEmits(s, Constant(time), 0);
  }

  lemma CloseAndEndCompletes(s: Trace, clock: Clock, k: nat)
    requires Monotone(clock) && Sound(s, clock(k)) && s.log != []
    ensures Finished(s, s.log[0], CloseAndEnd(s, clock, k).log)
  {
    ExitAllEmits(s, clock, k);
    ExitAllKeeps(s, clock, k);
    ExitAllTimely(s, clock, k);
    var s1 := ExitAll(s, clock, k);
    ExitAllRecycled(s, clock, k);
    EndCompletes(s1, clock(k + |Recorded(OpenRegions(s))|));
    OthersClosedAfter(s, s1);
  }

  lemma {:induction false} ExitAllRecycled(s: Trace, clock: Clock, k: nat)
    requires ValidPool(s.pool) && Conserved(s.pool)
    ensures ExitAll(s, clock, k).pool.recycled == s.pool.recycled
    decreases |OpenRegions(s)|
  {
    if OpenRegions(s) != [] {
      var top := OpenRegions(s)[|OpenRegions(s)| - 1];
      PopConserves(s.pool, s.pool.current);
      if top != Filtered {
        ExitAllRecycled(ExitRegion(s, clock(k), top), clock, k + 1);
      } else {
        ExitAllRecycled(ExitFiltered(s), clock, k);
      }
    }
  }

  /** The epoch begins with reading number `first`. */
  ghost function Started(clock: Clock, first: nat, forkHash: Word): (m: Moment)
    requires Monotone(clock)
    ensures Sound(m.trace, clock(m.next))
  {
    BeginSound(forkHash, clock(first), clock(first + 1));
    Moment(Begin(forkHash, clock(first)), first + 1)
  }

  /** Over a whole run, from the beginning of the epoch to its end, whatever tasks are created and
      switched to, and whether the main location finalizes or another one: the log begins and ends
      with the program events, its times never decrease, and it is balanced exactly when no task
      that is not current was left with recorded open regions. */
  lemma WholeRun(step: HashStep, clock: Clock, first: nat, forkHash: Word, actions: seq<Action>,
                 later: nat)
    requires Monotone(clock)
    requires ValidActions(step, clock, Started(clock, first, forkHash), actions)
    ensures var m := AfterActions(step, clock, Started(clock, first, forkHash), actions);
            && Finished(m.trace, ProgramBegin(clock(first)), CloseAndEnd(m.trace, clock, m.next).log)
            && (later >= m.next ==> Finished(m.trace, ProgramBegin(clock(first)), End(m.trace, clock(later)).log))
  {
    var begun := Started(clock, first, forkHash);
    var m := AfterActions(step, clock, begun, actions);
    ActionsKeep(step, clock, begun, actions);
    CloseAndEndCompletes(m.trace, clock, m.next);
    if later >= m.next {
      assert clock(m.next) <= clock(later);
      EndCompletes(m.trace, clock(later));
    }
  }

  // ------------------------------------------------------------------ an exit of the wrong region

  /** The log rejects the exits of a task, or has fewer of its regions open than are to be closed. */
  predicate Behind(s: Trace, t: nat)
    requires t < |s.pool.stacks|
  {
    Replay(s.log, t).Unbalanced? || |Replay(s.log, t).open| < |Recorded(s.pool.stacks[t])|
  }

  /** If an exit names another region than the innermost one, filtered or not, the log falls behind. */
  lemma WrongExitFallsBehind(s: Trace, now: nat, region: Region)
    requires ValidPool(s.pool) && Nested(s) && OpenRegions(s) != []
    requires region != OpenRegions(s)[|OpenRegions(s)| - 1]
    ensures Behind(ExitRegion(s, now, region), s.pool.current)
  {
    var open, t := OpenRegions(s), s.pool.current;
    if open[|open| - 1] == Filtered {
      assert NestedTask(s, t);
      ReplaySnoc(s.log, Exited(now, region, t), t);
    } else {
      WrongExitReplay(s, now, region);
    }
  }

  lemma EnterBehind(s: Trace, now: nat, region: Region, t: nat)
    requires ValidPool(s.pool) && t < |s.pool.stacks| && Behind(s, t)
    ensures Behind(if region == Filtered then EnterFiltered(s) else EnterRegion(s, now, region), t)
  {
    RecordedSnoc(OpenRegions(s), region);
    ReplaySnoc(s.log, Entered(now, region, s.pool.current), t);
  }

  lemma ExitBehind(s: Trace, now: nat, t: nat)
    requires ValidPool(s.pool) && t < |s.pool.stacks| && Behind(s, t) && OpenRegions(s) != []
    ensures var top := OpenRegions(s)[|OpenRegions(s)| - 1];
            Behind(if top == Filtered then ExitFiltered(s) else ExitRegion(s, now, top), t)
  {
    ReplaySnoc(s.log, Exited(now, OpenRegions(s)[|OpenRegions(s)| - 1], s.pool.current), t);
  }

  /** No action lets the log catch up. */
  lemma ActBehind(step: HashStep, s: Trace, now: nat, a: Action, t: nat)
    requires PoolSound(s) && Possible(s, a) && t < |s.pool.stacks| && Behind(s, t)
    ensures t < |Act(step, s, now, a).pool.stacks| && Behind(Act(step, s, now, a), t)
  {
    match a
    case Enter(region) => EnterBehind(s, now, region, t);
    case Exit => ExitBehind(s, now, t);
    case Create(_, _) =>
    case Switch(_) =>
    case Complete(_) =>
  }

  lemma {:induction false} ActionsBehind(step: HashStep, clock: Clock, m: Moment, actions: seq<Action>, t: nat)
    requires PoolSound(m.trace) && ValidActions(step, clock, m, actions)
    requires t < |m.trace.pool.stacks| && Behind(m.trace, t)
    ensures var m' := AfterActions(step, clock, m, actions); t < |m'.trace.pool.stacks| && Behind(m'.trace, t)
    decreases |actions|
  {
    if actions != [] {
      ActPool(step, m.trace, clock(m.next), actions[0]);
      ActBehind(step, m.trace, clock(m.next), actions[0], t);
      ActionsBehind(step, clock, Next(step, clock, m, actions[0]), actions[1..], t);
    }
  }

  /** The state after the loop that exits all regions has left the innermost one. */
  function CloseTop(s: Trace, now: nat): (s': Trace)
    requires ValidPool(s.pool) && Conserved(s.pool) && OpenRegions(s) != []
    ensures ValidPool(s'.pool) && Conserved(s'.pool) && s'.pool.current == s.pool.current
    ensures |OpenRegions(s')| < |OpenRegions(s)|
  {
    var top := OpenRegions(s)[|OpenRegions(s)| - 1];
    PopConserves(s.pool, s.pool.current);
    if top == Filtered then ExitFiltered(s) else ExitRegion(s, now, top)
  }

  lemma ExitAllNext(s: Trace, clock: Clock, k: nat) returns (k': nat)
    requires ValidPool(s.pool) && Conserved(s.pool) && OpenRegions(s) != []
    ensures ExitAll(s, clock, k) == ExitAll(CloseTop(s, clock(k)), clock, k')
  {
    k' := if OpenRegions(s)[|OpenRegions(s)| - 1] == Filtered then k else k + 1;
  }

  /** Closing all regions of a task that is behind gives an exit too many. */
  lemma {:induction false} ExitAllBehind(s: Trace, clock: Clock, k: nat)
    requires ValidPool(s.pool) && Conserved(s.pool) && Behind(s, s.pool.current)
    ensures Replay(ExitAll(s, clock, k).log, s.pool.current) == Unbalanced
    decreases |OpenRegions(s)|
  {
    if OpenRegions(s) != [] {
      var k' := ExitAllNext(s, clock, k);
      ExitBehind(s, clock(k), s.pool.current);
      ExitAllBehind(CloseTop(s, clock(k)), clock, k');
    }
  }

  lemma EndBehind(s: Trace, time: nat)
    requires ValidPool(s.pool) && Conserved(s.pool) && Behind(s, s.pool.current)
    ensures Replay(End(s, time).log, s.pool.current) == Unbalanced
  {
    ExitAllBehind(s, Constant(time), 0);
    ReplaySnoc(ExitAll(s, Constant(time), 0).log, ProgramEnd(time), s.pool.current);
  }

  lemma CloseAndEndBehind(s: Trace, clock: Clock, k: nat)
    requires ValidPool(s.pool) && Conserved(s.pool) && Behind(s, s.pool.current)
    ensures Replay(CloseAndEnd(s, clock, k).log, s.pool.current) == Unbalanced
  {
    ExitAllBehind(s, clock, k);
    EndBehind(ExitAll(s, clock, k), clock(k + |Recorded(OpenRegions(s))|));
  }

  lemma Spoilt(log: seq<Event>, t: nat)
    requires Replay(log, t) == Unbalanced
    ensures !Balanced(log)
  {
  }

  lemma WrongExitPool(s: Trace, now: nat, region: Region)
    requires PoolSound(s) && OpenRegions(s) != []
    ensures PoolSound(ExitRegion(s, now, region))
  {
    PopConserves(s.pool, s.pool.current);
  }

  /** After an exit of another region than the innermost one, whatever actions follow, the finished log
      is not balanced if the task is current at the end. */
  lemma WrongExitEnds(step: HashStep, clock: Clock, m: Moment, region: Region, actions: seq<Action>, time: nat)
    requires Sound(m.trace, clock(m.next)) && OpenRegions(m.trace) != []
    requires region != OpenRegions(m.trace)[|OpenRegions(m.trace)| - 1]
    requires (WrongExitPool(m.trace, clock(m.next), region);
              ValidActions(step, clock, Moment(ExitRegion(m.trace, clock(m.next), region), m.next + 1), actions))
    ensures PoolSound(ExitRegion(m.trace, clock(m.next), region))
    ensures var wrong := Moment(ExitRegion(m.trace, clock(m.next), region), m.next + 1);
            var m' := AfterActions(step, clock, wrong, actions);
            m'.trace.pool.current == m.trace.pool.current ==>
              !Balanced(CloseAndEnd(m'.trace, clock, m'.next).log) && !Balanced(End(m'.trace, time).log)
  {
    WrongExitPool(m.trace, clock(m.next), region);
    var wrong := Moment(ExitRegion(m.trace, clock(m.next), region), m.next + 1);
    var m' := AfterActions(step, clock, wrong, actions);
    WrongExitFallsBehind(m.trace, clock(m.next), region);
    ActionsBehind(step, clock, wrong, actions, m.trace.pool.current);
    if m'.trace.pool.current == m.trace.pool.current {
      CloseAndEndBehind(m'.trace, clock, m'.next);
      EndBehind(m'.trace, time);
      Spoilt(CloseAndEnd(m'.trace, clock, m'.next).log, m'.trace.pool.current);
      Spoilt(End(m'.trace, time).log, m'.trace.pool.current);
    }
  }
}
