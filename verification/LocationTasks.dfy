/**
  The task interface of one location (SCOREP_Task.c): every operation updates the frames, the task
  objects and the list heads in place, and the new state is the one that module TaskPool gives.
*/
module LocationTasks {
  import opened LookupMix
  import opened JenkinsHash
  import opened TaskPool
  import opened TaskStack

  /** The thread and the generation that a task was created with. */
  ghost predicate SameIds(a: Task, b: Task)
  {
    a.threadId == b.threadId && a.generationNumber == b.generationNumber
  }

  ghost predicate IdsKept(before: seq<Task>, after: seq<Task>)
  {
    |before| <= |after| && forall t :: 0 <= t < |before| ==> SameIds(before[t], after[t])
  }

  ghost predicate IdsKeptBut(before: seq<Task>, after: seq<Task>, changed: nat)
  {
    |before| <= |after| && forall t :: 0 <= t < |before| && t != changed ==> SameIds(before[t], after[t])
  }

  class TaskData {
    var currentTask: nat
    var recycledTasks: Link
    var implicitTask: nat
    var recycledFrames: Link

    // The memory that frames and task objects are taken from.
    var frames: seq<Frame>
    var tasks: seq<Task>

    // The hash value that every region definition carries, and the byte order of the machine.
    const hashOf: Region -> Word
    const bigEndian: bool

    ghost var shape: Shape
    ghost var pool: Pool

    ghost predicate Valid()
      reads this
    {
      && Represents(frames, tasks, shape, pool)
      && currentTask == pool.current
      && recycledTasks == Top(pool.recycled)
      && recycledFrames == Top(shape.free)
      && implicitTask < |tasks|
    }

    /** `task_subsystem_init_location`: the implicit task carries the fork hash of the parent. */
    constructor (locationId: nat, forkHash: Word, hashOf: Region -> Word, bigEndian: bool)
      ensures Valid() && pool == Init(forkHash) && currentTask == implicitTask == 0
      ensures this.hashOf == hashOf
      ensures |tasks| == 1 && tasks[0].threadId == locationId && tasks[0].generationNumber == 0
    {
      this.hashOf, this.bigEndian := hashOf, bigEndian;
      frames, tasks := [], [Task(Null, 29, locationId, 0, forkHash, Null)];
      currentTask, implicitTask := 0, 0;
      recycledTasks, recycledFrames := Null, Null;
      shape := Shape([[]], [], []);
      pool := Init(forkHash);
      new;
      FreshTaskOk(frames, tasks[0], forkHash);
      assert TaskOk(frames, tasks, shape, pool, 0);
    }

    /** `alloc_new_stack_frame`. */
    method AllocNewStackFrame() returns (frame: nat)
      requires Linked(frames, shape.free) && recycledFrames == Top(shape.free) && |shape.home| == |frames|
      modifies this`frames, this`recycledFrames
      ensures frame == TakenFrame(shape) && frame < |frames| && |frames[frame].regions| == 30
      ensures |frames| == if frame < |old(frames)| then |old(frames)| else |old(frames)| + 1
      ensures forall f :: 0 <= f < |old(frames)| ==> frames[f] == old(frames)[f]
      ensures recycledFrames == Top(if shape.free == [] then [] else shape.free[..|shape.free| - 1])
    {
      if recycledFrames != Null {
        frame := recycledFrames.address;
        assert LinkOk(frames, shape.free, |shape.free| - 1);
        recycledFrames := frames[frame].prev;
      } else {
        frame := |frames|;
        frames := frames + [Frame(seq(30, _ => Invalid), Null)];
      }
    }

    /** `SCOREP_Task_Enter`. */
    method Enter(region: Region)
      requires Valid()
      modifies this
      ensures Valid() && pool == Push(old(pool), region)
      ensures implicitTask == old(implicitTask)
      ensures IdsKept(old(tasks), tasks)
    {
      FollowTask(pool.current);
      if tasks[currentTask].currentIndex < 29 {
        EnterTopFrame(region);
      } else {
        EnterNewFrame(region);
      }
    }

    /** The branch of `SCOREP_Task_Enter` for a top frame with room. */
    method EnterTopFrame(region: Region)
      requires Valid() && tasks[currentTask].currentIndex < 29
      modifies this`frames, this`tasks, this`pool
      ensures Valid() && pool == Push(old(pool), region)
      ensures IdsKept(old(tasks), tasks)
    {
      FollowTask(pool.current);
      ghost var frames0, tasks0 := frames, tasks;
      var task := tasks[currentTask];
      task := task.(currentIndex := task.currentIndex + 1);
      var top := task.currentFrame.address;
      frames := PushedFrames(frames, top, task.currentIndex, region);
      tasks := tasks[currentTask := task];
      RepresentsPush(frames0, tasks0, shape, pool, region, top, frames, task);
      pool := Push(pool, region);
    }

    /** The branch that opens a new top frame. */
    method EnterNewFrame(region: Region)
      requires Valid() && tasks[currentTask].currentIndex == 29
      modifies this`frames, this`tasks, this`recycledFrames, this`pool, this`shape
      ensures Valid() && pool == Push(old(pool), region)
      ensures IdsKept(old(tasks), tasks)
    {
      ghost var frames0, tasks0, shape0, pool0 := frames, tasks, shape, pool;
      PlacedAfterTake(shape0, pool0.current);
      var newFrame := AllocNewStackFrame();
      var task := tasks[currentTask];
      var frame := frames[newFrame].(prev := task.currentFrame);
      task := task.(currentFrame := To(newFrame));
      frame := frame.(regions := frame.regions[0 := region]);
      task := task.(currentIndex := 0);
      frames := frames[newFrame := frame];
      tasks := tasks[currentTask := task];
      shape, pool := AfterTake(shape0, pool0.current), Push(pool0, region);
      RepresentsPushFrame(frames0, tasks0, shape0, pool0, region, frames, newFrame, task);
    }

    lemma FollowTask(t: nat)
      requires Valid() && t < |tasks|
      ensures TaskOk(frames, tasks, shape, pool, t)
      ensures tasks[t].currentFrame == Null <==> pool.stacks[t] == []
      ensures tasks[t].currentIndex < 29 ==> tasks[t].currentFrame.To?
      ensures tasks[t].currentIndex == (|pool.stacks[t]| + 29) % 30
      ensures tasks[t].currentFrame.To? ==>
                var top := tasks[t].currentFrame.address;
                && top < |frames| && |frames[top].regions| == 30
                && frames[top].regions[tasks[t].currentIndex] == pool.stacks[t][|pool.stacks[t]| - 1]
    {
      assert TaskOk(frames, tasks, shape, pool, t);
      TopRegion(frames, tasks[t], shape.chains[t], pool.stacks[t]);
    }

    lemma EmptyStack(t: nat)
      requires Valid() && t < |tasks|
      ensures tasks[t].currentFrame == Null <==> pool.stacks[t] == []
    {
      FollowTask(t);
    }

    /** `recycle_stack_frame`. */
    method RecycleStackFrame(frame: nat)
      requires frame < |frames|
      modifies this`frames, this`recycledFrames
      ensures frames == old(frames)[frame := old(frames)[frame].(prev := old(recycledFrames))]
      ensures recycledFrames == To(frame)
    {
      frames := frames[frame := frames[frame].(prev := recycledFrames)];
      recycledFrames := To(frame);
    }

    /** `task_pop_stack`. */
    method PopStack(t: nat)
      requires Valid() && t < |tasks| && pool.stacks[t] != []
      modifies this
      ensures Valid() && pool == Pop(old(pool), t)
      ensures implicitTask == old(implicitTask)
      ensures IdsKept(old(tasks), tasks)
    {
      FollowTask(t);
      if tasks[t].currentIndex == 0 {
        PopFrame(t);
      } else {
        PopSlot(t);
      }
    }

    /** The branch for the last region of a frame: the frame is recycled. */
    method PopFrame(t: nat)
      requires Valid() && t < |tasks| && pool.stacks[t] != [] && tasks[t].currentIndex == 0
      modifies this`frames, this`tasks, this`recycledFrames, this`pool, this`shape
      ensures Valid() && pool == Pop(old(pool), t)
      ensures IdsKept(old(tasks), tasks)
    {
      FollowTask(t);
      ghost var frames0, tasks0 := frames, tasks;
      var task := tasks[t];
      var oldFrame := task.currentFrame.address;
      task := task.(currentFrame := frames[oldFrame].prev);
      task := task.(currentIndex := 29);
      tasks := tasks[t := task];
      RecycleStackFrame(oldFrame);
      RepresentsDrop(frames0, tasks0, shape, pool, t, oldFrame, frames, task);
      DepthFacts(|pool.stacks[t]|);
      DropFacts(pool, t);
      shape := AfterDrop(shape, t);
      pool := Pop(pool, t);
    }

    /** The branch for any other region. */
    method PopSlot(t: nat)
      requires Valid() && t < |tasks| && pool.stacks[t] != [] && tasks[t].currentIndex > 0
      modifies this`tasks, this`pool
      ensures Valid() && pool == Pop(old(pool), t)
      ensures IdsKept(old(tasks), tasks)
    {
      ghost var tasks0 := tasks;
      var task := tasks[t];
      task := task.(currentIndex := task.currentIndex - 1);
      tasks := tasks[t := task];
      RepresentsPop(frames, tasks0, shape, pool, t, task);
      pool := Pop(pool, t);
    }

    /** `SCOREP_Task_Exit`. */
    method Exit()
      requires Valid() && pool.stacks[pool.current] != []
      modifies this
      ensures Valid() && pool == Pop(old(pool), old(pool.current))
      ensures implicitTask == old(implicitTask)
      ensures IdsKept(old(tasks), tasks)
    {
      PopStack(currentTask);
    }

    /** `SCOREP_Task_GetTopRegion`. */
    method GetTopRegion(t: nat) returns (region: Region)
      requires Valid() && t < |tasks|
      ensures region == if pool.stacks[t] == [] then Invalid else pool.stacks[t][|pool.stacks[t]| - 1]
    {
      FollowTask(t);
      if tasks[t].currentFrame == Null {
        region := Invalid;
      } else {
        region := frames[tasks[t].currentFrame.address].regions[tasks[t].currentIndex];
      }
    }

    /** `SCOREP_Task_ClearStack`: the index is only put right after the loop. */
    method ClearStack(t: nat)
      requires Valid() && t < |tasks|
      modifies this
      ensures Valid() && pool == TaskPool.ClearStack(old(pool), t)
      ensures implicitTask == old(implicitTask)
      ensures IdsKept(old(tasks), tasks)
    {
      FollowTask(t);
      ghost var index := tasks[t].currentIndex;
      ghost var target := TaskPool.ClearStack(pool, t);
      assert tasks[t := tasks[t].(currentIndex := index)] == tasks;
      while tasks[t].currentFrame != Null
        invariant t < |tasks|
        invariant Represents(frames, tasks[t := tasks[t].(currentIndex := index)], shape, pool)
        invariant currentTask == pool.current && recycledTasks == Top(pool.recycled)
        invariant recycledFrames == Top(shape.free) && implicitTask == old(implicitTask) < |tasks|
        invariant TaskPool.ClearStack(pool, t) == target
        invariant IdsKept(old(tasks), tasks)
        decreases |pool.stacks[t]|
      {
        index := DropOne(t, index);
      }
      EndOfChain(t, index);
      tasks := tasks[t := tasks[t].(currentIndex := 29)];
    }

    /** The index stands at the end of a frame once the chain is empty, and the stack is empty then. */
    lemma EndOfChain(t: nat, index: nat)
      requires t < |tasks| && tasks[t].currentFrame == Null
      requires Represents(frames, tasks[t := tasks[t].(currentIndex := index)], shape, pool)
      ensures index == 29 && TaskPool.ClearStack(pool, t) == pool
    {
      var tasks0 := tasks[t := tasks[t].(currentIndex := index)];
      assert TaskOk(frames, tasks0, shape, pool, t);
      TopRegion(frames, tasks0[t], shape.chains[t], pool.stacks[t]);
      assert pool.stacks[t := []] == pool.stacks;
    }

    /** The body of the loop of `SCOREP_Task_ClearStack`. The representation holds as if the index
        were `index`. */
    method DropOne(t: nat, ghost index: nat) returns (ghost index': nat)
      requires t < |tasks| && Represents(frames, tasks[t := tasks[t].(currentIndex := index)], shape, pool)
      requires recycledFrames == Top(shape.free) && tasks[t].currentFrame != Null
      modifies this`frames, this`tasks, this`recycledFrames, this`shape, this`pool
      ensures |tasks| == |old(tasks)| && IdsKept(old(tasks), tasks)
      ensures Represents(frames, tasks[t := tasks[t].(currentIndex := index')], shape, pool)
      ensures recycledFrames == Top(shape.free)
      ensures old(pool.stacks[t]) != [] && pool == DropFrame(old(pool), t)
      ensures pool.current == old(pool.current) && pool.recycled == old(pool.recycled)
      ensures |pool.stacks[t]| < |old(pool.stacks[t])|
      ensures TaskPool.ClearStack(pool, t) == TaskPool.ClearStack(old(pool), t)
    {
      ghost var frames0, tasks0 := frames, tasks[t := tasks[t].(currentIndex := index)];
      assert TaskOk(frames0, tasks0, shape, pool, t);
      TopRegion(frames0, tasks0[t], shape.chains[t], pool.stacks[t]);
      var oldFrame := tasks[t].currentFrame.address;
      tasks := tasks[t := tasks[t].(currentFrame := frames[oldFrame].prev)];
      RecycleStackFrame(oldFrame);
      index' := 29;
      RepresentsDrop(frames0, tasks0, shape, pool, t, oldFrame, frames, tasks[t].(currentIndex := 29));
      DropFacts(pool, t);
      assert tasks0[t := tasks[t].(currentIndex := 29)] == tasks[t := tasks[t].(currentIndex := 29)];
      shape := AfterDrop(shape, t);
      pool := DropFrame(pool, t);
    }

    /** `stack_frame_aggregation`: the frames from the bottom up to level l, the top one of them up
        to slot `frameSize`, which are the lowest `depth` regions of the stack. */
    method StackFrameAggregation(frame: Link, frameSize: nat, parent: Word, ghost chain: seq<nat>,
                                 ghost stack: seq<Region>, ghost l: nat, ghost depth: nat)
      returns (hash: Word)
      requires Linked(frames, chain) && Holds(frames, chain, stack)
      requires l <= |chain| && frame == Below(chain, l)
      requires frameSize < 30 && depth <= |stack| && depth == if l == 0 then 0 else 30 * (l - 1) + frameSize + 1
      ensures hash == FoldHash(RegionStep(hashOf), parent, stack[..depth])
      decreases l
    {
      if frame == Null {
        assert stack[..depth] == [];
        hash := parent;
        return;
      }
      ghost var lower: nat := 30 * (l - 1);
      FrameLinked(chain, l - 1);
      FrameHolds(chain, stack, l - 1, lower, depth);
      var top := frames[frame.address];
      hash := StackFrameAggregation(top.prev, 29, parent, chain, stack, l - 1, lower);
      hash := HashOnTop(top, frameSize, hash, parent, stack, lower, depth);
    }

    lemma FrameLinked(chain: seq<nat>, l: nat)
      requires Linked(frames, chain) && l < |chain|
      ensures chain[l] < |frames| && frames[chain[l]].prev == Below(chain, l)
    {
      assert LinkOk(frames, chain, l);
    }

    method HashOnTop(frame: Frame, frameSize: nat, seed: Word, ghost parent: Word, ghost stack: seq<Region>,
                     ghost lower: nat, ghost depth: nat)
      returns (hash: Word)
      requires frameSize < |frame.regions| && depth == lower + frameSize + 1 <= |stack|
      requires frame.regions[..depth - lower] == stack[lower..depth]
      requires seed == FoldHash(RegionStep(hashOf), parent, stack[..lower])
      ensures hash == FoldHash(RegionStep(hashOf), parent, stack[..depth])
    {
      FoldOnTop(RegionStep(hashOf), parent, stack, lower, depth);
      hash := HashFrame(frame, frameSize, seed);
    }

    lemma FoldOnTop(step: HashStep, parent: Word, stack: seq<Region>, lower: nat, depth: nat)
      requires lower <= depth <= |stack|
      ensures FoldHash(step, FoldHash(step, parent, stack[..lower]), stack[lower..depth]) ==
              FoldHash(step, parent, stack[..depth])
    {
      FoldHashAppend(step, parent, stack[..lower], stack[lower..depth]);
      assert stack[..lower] + stack[lower..depth] == stack[..depth];
    }

    /** The loop of `stack_frame_aggregation` over the slots of one frame. */
    method HashFrame(frame: Frame, frameSize: nat, seed: Word) returns (hash: Word)
      requires frameSize < |frame.regions|
      ensures hash == FoldHash(RegionStep(hashOf), seed, frame.regions[..frameSize + 1])
    {
      hash := seed;
      for i := 0 to frameSize + 1
        invariant hash == FoldHash(RegionStep(hashOf), seed, frame.regions[..i])
      {
        FoldHashSnoc(RegionStep(hashOf), seed, frame.regions, i);
        hash := HashRegion(frame.regions[i], hash);
      }
    }

    /** The first slots of the frame at level l hold the regions from 30 * l on. */
    lemma FrameHolds(chain: seq<nat>, stack: seq<Region>, l: nat, lower: nat, depth: nat)
      requires Holds(frames, chain, stack) && lower == 30 * l && lower < depth <= |stack| && depth <= lower + 30
      ensures l < |chain| && chain[l] < |frames| && |frames[chain[l]].regions| == 30
      ensures frames[chain[l]].regions[..depth - lower] == stack[lower..depth]
    {
      SlotHolds(chain, stack, l, lower, 0);
      forall i | 0 <= i < depth - lower
        ensures frames[chain[l]].regions[..depth - lower][i] == stack[lower..depth][i]
      {
        SlotHolds(chain, stack, l, lower, i);
      }
    }

    lemma SlotHolds(chain: seq<nat>, stack: seq<Region>, l: nat, lower: nat, i: nat)
      requires Holds(frames, chain, stack) && lower == 30 * l && i < 30 && lower + i < |stack|
      ensures l < |chain| && chain[l] < |frames| && |frames[chain[l]].regions| == 30
      ensures frames[chain[l]].regions[i] == stack[lower + i]
    {
      assert SlotOk(frames, chain, stack, lower + i);
      SlotAt(l, i);
    }

    lemma FoldHashSnoc(step: HashStep, parent: Word, stack: seq<Region>, k: nat)
      requires k < |stack|
      ensures FoldHash(step, parent, stack[..k + 1]) == step(FoldHash(step, parent, stack[..k]), stack[k])
    {
      assert stack[..k + 1][..k] == stack[..k];
    }

    lemma SlotAt(l: nat, i: nat)
      requires i < 30
      ensures (30 * l + i) / 30 == l && (30 * l + i) % 30 == i
    {
    }

    /** The hash of a region becomes the key, the four bytes it occupies in memory. */
    method HashRegion(region: Region, seed: Word) returns (hash: Word)
      ensures hash == RegionStep(hashOf)(seed, region)
    {
      var key := WordBytes(bigEndian, [hashOf(region)]);
      WordFormsAgree(bigEndian, [hashOf(region)], seed, 0);
      hash := Hash(bigEndian, key, seed);
    }

    /** `SCOREP_Task_GetRegionStackHash`: frame boundaries do not show in the hash. */
    method GetRegionStackHash(t: nat) returns (hash: Word)
      requires Valid() && t < |tasks|
      ensures hash == StackHash(RegionStep(hashOf), pool.parents[t], pool.stacks[t])
    {
      FollowTask(t);
      if tasks[t].currentFrame == Null {
        return 0;
      }
      ghost var chain, stack := shape.chains[t], pool.stacks[t];
      StackTop(|stack|);
      hash := StackFrameAggregation(tasks[t].currentFrame, tasks[t].currentIndex, tasks[t].parentHash, chain, stack,
                                    |chain|, |stack|);
      assert stack[..|stack|] == stack;
    }

    lemma StackTop(depth: nat)
      requires depth > 0
      ensures 30 * (FramesFor(depth) - 1) + (depth + 29) % 30 + 1 == depth
    {
    }

    /** The first half of `scorep_task_create`: a task object with an empty stack. */
    method Obtain(threadId: nat, generationNumber: nat) returns (t: nat)
      requires Valid()
      modifies this
      ensures Valid() && pool == ObtainTask(old(pool)) && t == CreatedTask(old(pool))
      ensures implicitTask == old(implicitTask)
      ensures t < |tasks| && tasks[t].threadId == threadId && tasks[t].generationNumber == generationNumber
      ensures IdsKeptBut(old(tasks), tasks, t)
    {
      ghost var step := RegionStep(hashOf);
      ghost var tasks0 := tasks;
      if recycledTasks != Null {
        t := recycledTasks.address;
        assert NextOk(tasks, pool.recycled, |pool.recycled| - 1);
        recycledTasks := tasks[t].next;
        var task := tasks[t].(currentFrame := Null, currentIndex := 29, threadId := threadId,
                              generationNumber := generationNumber);
        tasks := tasks[t := task];
        assert TaskOk(frames, tasks0, shape, pool, t);
        RepresentsReuse(step, frames, tasks0, shape, pool, task);
        shape := AfterAbandon(shape, t);
      } else {
        t := |tasks|;
        var task := Task(Null, 29, threadId, generationNumber, 0, Null);
        tasks := tasks + [task];
        RepresentsNewTask(step, frames, tasks0, shape, pool, task);
        shape := shape.(chains := shape.chains + [[]]);
      }
      pool := ObtainTask(pool);
    }

    /** `scorep_task_create`, once the location has a current task. */
    method Create(threadId: nat, generationNumber: nat) returns (t: nat)
      requires Valid()
      modifies this
      ensures Valid() && pool == CreateTask(RegionStep(hashOf), old(pool)) && t == CreatedTask(old(pool))
      ensures t < |pool.parents| && pool.stacks[t] == []
      ensures var open, parent := old(pool.stacks[pool.current]), old(pool.parents[pool.current]);
              old(pool.current) != t && open != [] ==>
                forall region :: StackHash(RegionStep(hashOf), pool.parents[t], [region]) ==
                                 FoldHash(RegionStep(hashOf), parent, open + [region])
      ensures implicitTask == old(implicitTask)
      ensures t < |tasks| && tasks[t].threadId == threadId && tasks[t].generationNumber == generationNumber
      ensures IdsKeptBut(old(tasks), tasks, t)
    {
      ghost var before := pool;
      t := Obtain(threadId, generationNumber);
      var hash := GetRegionStackHash(currentTask);
      RepresentsParent(RegionStep(hashOf), frames, tasks, shape, pool, t, tasks[t].(parentHash := hash));
      tasks := tasks[t := tasks[t].(parentHash := hash)];
      pool := SetParent(RegionStep(hashOf), pool, t);
      if before.current != t && before.stacks[before.current] != [] {
        forall region
          ensures StackHash(RegionStep(hashOf), pool.parents[t], [region]) ==
                  FoldHash(RegionStep(hashOf), before.parents[before.current], before.stacks[before.current] + [region])
        {
          CreatedInherits(RegionStep(hashOf), before, region);
        }
      }
    }

    /** `scorep_task_complete`: the stack is left as it is. */
    method Complete(t: nat)
      requires Valid() && t < |tasks| && t !in pool.recycled
      modifies this
      ensures Valid() && pool == CompleteTask(old(pool), t)
      ensures implicitTask == old(implicitTask)
      ensures IdsKept(old(tasks), tasks)
    {
      RepresentsComplete(frames, tasks, shape, pool, t, tasks[t].(next := recycledTasks));
      tasks := tasks[t := tasks[t].(next := recycledTasks)];
      recycledTasks := To(t);
      pool := CompleteTask(pool, t);
    }

    /** `scorep_task_switch`. */
    method Switch(t: nat)
      requires Valid() && t < |tasks|
      modifies this
      ensures Valid() && pool == SwitchTask(old(pool), t)
      ensures implicitTask == old(implicitTask)
      ensures IdsKept(old(tasks), tasks)
    {
      RepresentsSwitch(frames, tasks, shape, pool, t);
      currentTask := t;
      pool := SwitchTask(pool, t);
    }
  }
}
