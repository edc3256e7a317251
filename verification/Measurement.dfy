/**
  The event entry points of a location (SCOREP_Events.c), the loops that exit all regions
  (SCOREP_Task.c) and the life cycle of the measurement (SCOREP_RuntimeManagement.c), as they change
  state step by step. Every operation is proved to do what modules EventLog and EventRuns say.
*/
module Measurement {
  import opened LookupMix
  import opened TaskPool
  import opened TaskStack
  import opened LocationTasks
  import opened EventLog
  import opened EventRuns

  /** The clock of the process. */
  class Timer {
    const clock: Clock
    var taken: nat

    constructor (clock: Clock)
      ensures this.clock == clock && taken == 0
    {
      this.clock, taken := clock, 0;
    }

    method GetClockTicks() returns (ticks: nat)
      modifies this
      ensures ticks == clock(old(taken)) && taken == old(taken) + 1
    {
      ticks := clock(taken);
      taken := taken + 1;
    }
  }

  class Location {
    const tasks: TaskData
    const timer: Timer
    var lastTimestamp: nat
    var log: seq<Event>

    ghost function State(): Trace
      reads this, tasks
    {
      Trace(tasks.pool, log, lastTimestamp)
    }

    ghost predicate Valid()
      reads this, tasks, timer
    {
      && tasks.Valid()
      && Monotone(timer.clock)
      && lastTimestamp <= timer.clock(timer.taken)
    }

    constructor (timer: Timer, locationId: nat, forkHash: Word, hashOf: Region -> Word, bigEndian: bool)
      requires Monotone(timer.clock)
      ensures Valid() && fresh(tasks) && this.timer == timer && tasks.hashOf == hashOf
      ensures State() == Trace(Init(forkHash), [], 0)
      ensures |tasks.tasks| == 1 && tasks.tasks[0].threadId == locationId
    {
      this.timer := timer;
      tasks := new TaskData(locationId, forkHash, hashOf, bigEndian);
      lastTimestamp, log := 0, [];
    }

    /** `SCOREP_Location_SetLastTimestamp`. */
    method SetLastTimestamp(timestamp: nat)
      requires lastTimestamp <= timestamp
      modifies this`lastTimestamp
      ensures lastTimestamp == timestamp
    {
      lastTimestamp := timestamp;
    }

    /** `SCOREP_EnterRegion`. */
    method EnterRegion(region: Region)
      requires Valid()
      modifies this, tasks, timer
      ensures Valid() && timer.taken == old(timer.taken) + 1
      ensures State() == EventLog.EnterRegion(old(State()), timer.clock(old(timer.taken)), region)
    {
      var timestamp := timer.GetClockTicks();
      SetLastTimestamp(timestamp);
      tasks.Enter(region);
      log := log + [Entered(timestamp, region, tasks.currentTask)];
    }

    /** `SCOREP_ExitRegion`: the event comes first, then the stack is popped. */
    method ExitRegion(region: Region)
      requires Valid() && OpenRegions(State()) != []
      modifies this, tasks, timer
      ensures Valid() && timer.taken == old(timer.taken) + 1
      ensures State() == EventLog.ExitRegion(old(State()), timer.clock(old(timer.taken)), region)
    {
      var timestamp := timer.GetClockTicks();
      LocationExitRegion(timestamp, region);
    }

    /** `SCOREP_Location_ExitRegion`. */
    method LocationExitRegion(timestamp: nat, region: Region)
      requires tasks.Valid() && OpenRegions(State()) != [] && lastTimestamp <= timestamp
      modifies this, tasks
      ensures tasks.Valid()
      ensures State() == EventLog.ExitRegion(old(State()), timestamp, region)
    {
      SetLastTimestamp(timestamp);
      log := log + [Exited(timestamp, region, tasks.currentTask)];
      tasks.Exit();
    }

    /** The body of the loop of `SCOREP_Task_ExitAllRegions`. */
    method ExitTopRegion()
      requires Valid() && OpenRegions(State()) != []
      modifies this, tasks, timer
      ensures Valid()
      ensures |OpenRegions(State())| == |OpenRegions(old(State()))| - 1
      ensures ExitAll(State(), timer.clock, timer.taken) == ExitAll(old(State()), timer.clock, old(timer.taken))
      ensures timer.taken + |Recorded(OpenRegions(State()))| ==
              old(timer.taken) + |Recorded(OpenRegions(old(State())))|
    {
      var region := tasks.GetTopRegion(tasks.currentTask);
      ExitAllStep(State(), timer.clock, timer.taken, region);
      if region != Filtered {
        ExitRegion(region);
      } else {
        tasks.PopStack(tasks.currentTask);
      }
    }

    /** `SCOREP_Task_ExitAllRegions` for the current task, which is what both callers ask for. */
    method TaskExitAllRegions()
      requires Valid()
      modifies this, tasks, timer
      ensures Valid() && timer.taken == old(timer.taken) + |Recorded(OpenRegions(old(State())))|
      ensures State() == ExitAll(old(State()), timer.clock, old(timer.taken))
    {
      tasks.EmptyStack(tasks.currentTask);
      while tasks.tasks[tasks.currentTask].currentFrame != Null
        invariant Valid()
        invariant tasks.tasks[tasks.currentTask].currentFrame == Null <==> OpenRegions(State()) == []
        invariant ExitAll(State(), timer.clock, timer.taken) == ExitAll(old(State()), timer.clock, old(timer.taken))
        invariant timer.taken + |Recorded(OpenRegions(State()))| ==
                  old(timer.taken) + |Recorded(OpenRegions(old(State())))|
        decreases |OpenRegions(State())|
      {
        ExitTopRegion();
        tasks.EmptyStack(tasks.currentTask);
      }
    }

    /** The body of the loop of `SCOREP_Location_Task_ExitAllRegions`. */
    method ExitTopRegionAt(timestamp: nat, ghost k: nat) returns (ghost k': nat)
      requires tasks.Valid() && OpenRegions(State()) != [] && lastTimestamp <= timestamp
      modifies this, tasks
      ensures tasks.Valid() && lastTimestamp <= timestamp
      ensures |OpenRegions(State())| == |OpenRegions(old(State()))| - 1
      ensures ExitAll(State(), Constant(timestamp), k') == ExitAll(old(State()), Constant(timestamp), k)
    {
      k' := k;
      var region := tasks.GetTopRegion(tasks.currentTask);
      ExitAllStep(State(), Constant(timestamp), k, region);
      if region != Filtered {
        LocationExitRegion(timestamp, region);
        k' := k + 1;
      } else {
        tasks.PopStack(tasks.currentTask);
      }
    }

    /** `SCOREP_Location_Task_ExitAllRegions`: not safe for another location than the current one
        while the measurement is on. */
    method LocationTaskExitAllRegions(timestamp: nat, phase: Phase, isCurrent: bool)
      requires phase == Within ==> isCurrent
      requires tasks.Valid() && lastTimestamp <= timestamp
      modifies this, tasks
      ensures tasks.Valid() && lastTimestamp <= timestamp
      ensures State() == ExitAll(old(State()), Constant(timestamp), 0)
    {
      ghost var k := 0;
      tasks.EmptyStack(tasks.currentTask);
      while tasks.tasks[tasks.currentTask].currentFrame != Null
        invariant tasks.Valid() && lastTimestamp <= timestamp
        invariant tasks.tasks[tasks.currentTask].currentFrame == Null <==> OpenRegions(State()) == []
        invariant ExitAll(State(), Constant(timestamp), k) == ExitAll(old(State()), Constant(timestamp), 0)
        decreases |OpenRegions(State())|
      {
        k := ExitTopRegionAt(timestamp, k);
        tasks.EmptyStack(tasks.currentTask);
      }
    }

    ghost function Now(): Moment
      reads this, tasks, timer
    {
      Moment(State(), timer.taken)
    }

    /** An adapter enters a region; a filtered one is only put on the stack. */
    method PerformEnter(region: Region)
      requires Valid() && Possible(State(), Action.Enter(region))
      modifies this, tasks, timer
      ensures Valid() && Now() == Next(RegionStep(tasks.hashOf), timer.clock, old(Now()), Action.Enter(region))
    {
      if region == Filtered {
        tasks.Enter(region);
      } else {
        EnterRegion(region);
      }
    }

    /** It exits the innermost region. */
    method PerformExit()
      requires Valid() && Possible(State(), Action.Exit)
      modifies this, tasks, timer
      ensures Valid() && Now() == Next(RegionStep(tasks.hashOf), timer.clock, old(Now()), Action.Exit)
    {
      var top := tasks.GetTopRegion(tasks.currentTask);
      if top == Filtered {
        tasks.Exit();
      } else {
        ExitRegion(top);
      }
    }

    /** One action of an adapter or of a task runtime. */
    method Perform(a: Action)
      requires Valid() && Possible(State(), a)
      modifies this, tasks, timer
      ensures Valid() && Now() == Next(RegionStep(tasks.hashOf), timer.clock, old(Now()), a)
      ensures a.Create? ==>
                var t := CreatedTask(old(tasks.pool));
                && t < |tasks.tasks|
                && tasks.tasks[t].threadId == a.threadId && tasks.tasks[t].generationNumber == a.generationNumber
    {
      match a
      case Enter(region) => PerformEnter(region);
      case Exit => PerformExit();
      case Create(threadId, generationNumber) =>
        var _ := tasks.Create(threadId, generationNumber);
      case Switch(t) => tasks.Switch(t);
      case Complete(t) => tasks.Complete(t);
    }

    /** A run of actions. */
    method Run(actions: seq<Action>)
      requires Valid() && PoolSound(State())
      requires ValidActions(RegionStep(tasks.hashOf), timer.clock, Now(), actions)
      modifies this, tasks, timer
      ensures Valid() && Now() == AfterActions(RegionStep(tasks.hashOf), timer.clock, old(Now()), actions)
    {
      ghost var step := RegionStep(tasks.hashOf);
      ghost var end := AfterActions(step, timer.clock, Now(), actions);
      for i := 0 to |actions|
        invariant Valid() && PoolSound(State())
        invariant ValidActions(step, timer.clock, Now(), actions[i..])
        invariant AfterActions(step, timer.clock, Now(), actions[i..]) == end
      {
        assert actions[i..][1..] == actions[i + 1..];
        ActPool(step, State(), timer.clock(timer.taken), actions[i]);
        Perform(actions[i]);
      }
    }
  }

  datatype Phase = Pre | Within | Post

  class Process {
    const timer: Timer
    var initialized: bool
    var finalized: bool
    var applicationAborted: bool
    var phase: Phase
    var main: Location?
    var epochBegin: nat
    var epochEnd: nat

    ghost predicate Valid()
      reads this, timer, main, if main != null then {main.tasks} else {}
    {
      && (finalized ==> initialized)
      && (initialized <==> main != null)
      && phase == (if finalized then Post else if initialized then Within else Pre)
      && Monotone(timer.clock)
      && (main != null && !finalized ==> Recording(main))
    }

    /** The main location between the beginning and the end of the epoch. */
    ghost predicate Recording(location: Location)
      reads this, timer, location, location.tasks
    {
      && location.timer == timer && location.Valid()
      && Sound(location.State(), timer.clock(timer.taken))
      && location.log != [] && location.log[0] == ProgramBegin(epochBegin)
    }

    constructor (timer: Timer)
      requires Monotone(timer.clock)
      ensures Valid() && !initialized && !finalized && !applicationAborted && this.timer == timer
    {
      this.timer := timer;
      initialized, finalized, applicationAborted, phase, main := false, false, false, Pre, null;
    }

    /** `SCOREP_InitMeasurementWithArgs` as far as it concerns the main location. The check that the
        measurement was not finalized before is never reached in that state. */
    method InitMeasurement(locationId: nat, forkHash: Word, hashOf: Region -> Word, bigEndian: bool)
      requires Valid()
      modifies this, timer
      ensures Valid() && initialized && finalized == old(finalized) && applicationAborted == old(applicationAborted)
      ensures old(initialized) ==> main == old(main) && timer.taken == old(timer.taken) && epochBegin == old(epochBegin)
      ensures !old(initialized) ==>
                && fresh(main) && fresh(main.tasks) && main.tasks.hashOf == hashOf && phase == Within
                && epochBegin == timer.clock(old(timer.taken)) && timer.taken == old(timer.taken) + 1
                && main.State() == Begin(forkHash, epochBegin)
                && |main.tasks.tasks| == 1 && main.tasks.tasks[0].threadId == locationId
    {
      if initialized {
        return;
      }
      initialized := true;
      assert !finalized;
      var location := new Location(timer, locationId, forkHash, hashOf, bigEndian);
      BeginEpoch(location);
      phase := Within;
      BeginSound(forkHash, epochBegin, timer.clock(timer.taken));
    }

    /** `begin_epoch`. */
    method BeginEpoch(location: Location)
      modifies this`epochBegin, this`main, timer, location`log
      ensures epochBegin == timer.clock(old(timer.taken)) && timer.taken == old(timer.taken) + 1
      ensures main == location && location.log == old(location.log) + [ProgramBegin(epochBegin)]
    {
      epochBegin := timer.GetClockTicks();
      main := location;
      location.log := location.log + [ProgramBegin(epochBegin)];
    }

    /** `end_epoch`. The timer must have advanced since the beginning of the epoch, or an assertion
        fails; then nothing is closed. */
    method EndEpoch(current: Location) returns (ok: bool)
      requires main != null && main.tasks.Valid() && Monotone(timer.clock) && phase == Post
      requires main.lastTimestamp <= timer.clock(timer.taken)
      modifies this`epochEnd, timer, main, main.tasks
      ensures timer.taken == old(timer.taken) + 1
      ensures epochEnd == timer.clock(old(timer.taken)) && (ok <==> epochEnd > epochBegin)
      ensures ok ==> main.log == End(old(main.State()), epochEnd).log
      ensures ok ==> main.log != [] && main.log[|main.log| - 1] == ProgramEnd(epochEnd)
      ensures !ok ==> main.State() == old(main.State())
    {
      epochEnd := timer.GetClockTicks();
      ok := epochEnd > epochBegin;
      if ok {
        main.LocationTaskExitAllRegions(epochEnd, phase, current == main);
        main.log := main.log + [ProgramEnd(epochEnd)];
      }
    }

    /** Actions on the main location while the measurement is on. */
    method RunMain(actions: seq<Action>)
      requires Valid() && initialized && !finalized
      requires ValidActions(RegionStep(main.tasks.hashOf), timer.clock, main.Now(), actions)
      modifies timer, main, main.tasks
      ensures Valid()
      ensures main.Now() == AfterActions(RegionStep(main.tasks.hashOf), timer.clock, old(main.Now()), actions)
    {
      ActionsKeep(RegionStep(main.tasks.hashOf), timer.clock, main.Now(), actions);
      main.Run(actions);
    }

    method SetAbortFlag()
      modifies this`applicationAborted
      ensures applicationAborted
    {
      applicationAborted := true;
    }

    /** The number of the timer reading that ends the epoch, if finalization starts with reading k:
        one reading for every recorded region that the finalizing location still has open. */
    ghost function LastReading(location: Location, k: nat): nat
      requires location.tasks.pool.current < |location.tasks.pool.stacks|
      reads location, location.tasks
    {
      k + |Recorded(OpenRegions(location.State()))|
    }

    ghost predicate Active()
      reads this
    {
      initialized && !finalized && !applicationAborted
    }

    /** `scorep_finalize`, on any location of the process. */
    method Finalize(location: Location) returns (ok: bool)
      requires Valid() && location.timer == timer && location.Valid()
      requires main != null && location != main ==> location.tasks != main.tasks
      modifies this, timer, location, location.tasks, main, if main != null then {main.tasks} else {}
      ensures Valid() && main == old(main)
      ensures !old(Active()) ==>
                && ok && finalized == old(finalized) && phase == old(phase) && timer.taken == old(timer.taken)
                && location.State() == old(location.State())
                && (main != null ==> main.State() == old(main.State()))
      ensures old(Active()) ==>
                && finalized && phase == Post
                && (ok <==> timer.clock(old(LastReading(location, timer.taken))) > old(epochBegin))
                && (ok && location == main ==>
                      main.log == CloseAndEnd(old(main.State()), timer.clock, old(timer.taken)).log)
                && (ok && location != main ==>
                      main.log == End(old(main.State()), timer.clock(old(LastReading(location, timer.taken)))).log)
                && (ok ==> Finished(old(main.State()), ProgramBegin(old(epochBegin)), main.log))
    {
      if !initialized || finalized || applicationAborted {
        return true;
      }
      ok := FinalizeActive(location);
    }

    method FinalizeActive(location: Location) returns (ok: bool)
      requires Active() && Valid() && location.timer == timer && location.Valid()
      requires location != main ==> location.tasks != main.tasks
      modifies this`finalized, this`phase, this`epochEnd, timer, location, location.tasks, main, main.tasks
      ensures finalized && phase == Post
      ensures ok <==> timer.clock(old(LastReading(location, timer.taken))) > epochBegin
      ensures ok && location == main ==> main.log == CloseAndEnd(old(main.State()), timer.clock, old(timer.taken)).log
      ensures ok && location != main ==>
                main.log == End(old(main.State()), timer.clock(old(LastReading(location, timer.taken)))).log
      ensures ok ==> Finished(old(main.State()), ProgramBegin(epochBegin), main.log)
    {
      ghost var s, k := main.State(), timer.taken;
      finalized := true;
      phase := Post;
      if location == main {
        ok := CloseMain();
        CloseAndEndCompletes(s, timer.clock, k);
      } else {
        ghost var j := LastReading(location, k);
        ok := CloseOther(location);
        LaterReading(timer.clock, s, k, j);
        EndCompletes(s, timer.clock(j));
      }
    }

    /** The part of `scorep_finalize` that emits events, on the main location. */
    method CloseMain() returns (ok: bool)
      requires main != null && Monotone(timer.clock) && main.timer == timer && main.Valid() && phase == Post
      modifies this`epochEnd, timer, main, main.tasks
      ensures ok <==> timer.clock(old(LastReading(main, timer.taken))) > epochBegin
      ensures ok ==> main.log == CloseAndEnd(old(main.State()), timer.clock, old(timer.taken)).log
    {
      ghost var s, k, j := main.State(), timer.taken, LastReading(main, timer.taken);
      ghost var closed := ExitAll(s, timer.clock, k);
      ExitAllEmits(s, timer.clock, k);
      ghost var expected := CloseAndEnd(s, timer.clock, k);
      assert expected == End(closed, timer.clock(j));
      main.TaskExitAllRegions();
      assert main.State() == closed && timer.taken == j;
      ok := EndEpoch(main);
      assert ok ==> main.log == expected.log;
    }

    /** The same on another location: the main location sees only the end of the epoch. */
    method CloseOther(location: Location) returns (ok: bool)
      requires main != null && Monotone(timer.clock) && main.timer == timer && main.Valid() && phase == Post
      requires location.timer == timer && location.Valid() && location != main && location.tasks != main.tasks
      modifies this`epochEnd, timer, location, location.tasks, main, main.tasks
      ensures ok <==> timer.clock(old(LastReading(location, timer.taken))) > epochBegin
      ensures ok ==> main.log == End(old(main.State()), timer.clock(old(LastReading(location, timer.taken)))).log
    {
      ghost var s, j := main.State(), LastReading(location, timer.taken);
      location.TaskExitAllRegions();
      assert main.State() == s && timer.taken == j;
      ok := EndEpoch(location);
    }

    lemma LaterReading(clock: Clock, s: Trace, k: nat, j: nat)
      requires Monotone(clock) && Sound(s, clock(k)) && k <= j
      ensures Sound(s, clock(j))
    {
    }
  }

  // ------------------------------------------------------------------ from begin to end

  /** A process that is initialized and performs actions on its main location. */
  method InitAndRun(timer: Timer, locationId: nat, forkHash: Word, hashOf: Region -> Word, bigEndian: bool,
                    actions: seq<Action>)
    returns (process: Process)
    requires Monotone(timer.clock)
    requires ValidActions(RegionStep(hashOf), timer.clock, Started(timer.clock, timer.taken, forkHash), actions)
    modifies timer
    ensures fresh(process) && process.Valid() && process.Active() && process.timer == timer
    ensures fresh(process.main) && fresh(process.main.tasks)
    ensures process.epochBegin == timer.clock(old(timer.taken))
    ensures process.main.Now() ==
            AfterActions(RegionStep(hashOf), timer.clock, Started(timer.clock, old(timer.taken), forkHash), actions)
  {
    process := new Process(timer);
    process.InitMeasurement(locationId, forkHash, hashOf, bigEndian);
    assert process.main.Now() == Started(timer.clock, old(timer.taken), forkHash);
    process.RunMain(actions);
  }

  /** A whole measurement: initialization, any actions on the main location, finalization there. It fails
      exactly when the timer did not advance; otherwise the log is the finished one. */
  method Measure(timer: Timer, locationId: nat, forkHash: Word, hashOf: Region -> Word, bigEndian: bool,
                 actions: seq<Action>)
    returns (process: Process, ok: bool)
    requires Monotone(timer.clock)
    requires ValidActions(RegionStep(hashOf), timer.clock, Started(timer.clock, timer.taken, forkHash), actions)
    modifies timer
    ensures process.Valid() && process.finalized && process.main != null
    ensures var begin, begun := timer.clock(old(timer.taken)), Started(timer.clock, old(timer.taken), forkHash);
            var m := AfterActions(RegionStep(hashOf), timer.clock, begun, actions);
            && (ok <==> timer.clock(m.next + |Recorded(OpenRegions(m.trace))|) > begin)
            && (ok ==> process.main.log == CloseAndEnd(m.trace, timer.clock, m.next).log
                       && Finished(m.trace, ProgramBegin(begin), process.main.log))
  {
    process := InitAndRun(timer, locationId, forkHash, hashOf, bigEndian, actions);
    ok := process.Finalize(process.main);
  }

  /** After an abort finalization does nothing: the log keeps what was recorded and gets no end. */
  method MeasureAborted(timer: Timer, locationId: nat, forkHash: Word, hashOf: Region -> Word, bigEndian: bool,
                        actions: seq<Action>)
    returns (process: Process, ok: bool)
    requires Monotone(timer.clock)
    requires ValidActions(RegionStep(hashOf), timer.clock, Started(timer.clock, timer.taken, forkHash), actions)
    modifies timer
    ensures ok && process.Valid() && !process.finalized && process.main != null
    ensures process.main.Now() ==
            AfterActions(RegionStep(hashOf), timer.clock, Started(timer.clock, old(timer.taken), forkHash), actions)
  {
    process := InitAndRun(timer, locationId, forkHash, hashOf, bigEndian, actions);
    process.SetAbortFlag();
    ok := process.Finalize(process.main);
  }
}
