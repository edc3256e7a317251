/**
  The region stacks of the tasks on one location, as values.

  A task's stack is a plain list of regions; frames are only counted. Each operation of the task
  interface is a function on this state, and the properties of whole runs are proved here. The
  linked frames that implement it are in module TaskStack.
*/
module TaskPool {
  import opened LookupMix
  import opened JenkinsHash

  datatype Region = Invalid | Filtered | Measured(id: nat)

  /** SCOREP_TASK_STACK_SIZE is 30; a frame has that many slots. */
  function FramesFor(depth: nat): nat
  {
    (depth + 29) / 30
  }

  function InUse(stacks: seq<seq<Region>>): nat
  {
    if stacks == [] then 0 else InUse(stacks[..|stacks| - 1]) + FramesFor(|stacks[|stacks| - 1]|)
  }

  /**
    - stacks: the open regions of every task object, oldest first;
    - parents: the parent hash of every task object;
    - current: the current task; recycled: the free list of task objects, the next one last;
    - free, lost, made: frames on the free list, frames no list leads to any more, and frames
      ever taken from memory.
  */
  datatype Pool = Pool(stacks: seq<seq<Region>>, parents: seq<Word>, current: nat, recycled: seq<nat>,
                       free: nat, lost: nat, made: nat)

  ghost predicate ValidPool(p: Pool)
  {
    && |p.stacks| == |p.parents|
    && p.current < |p.stacks|
    && (forall i :: 0 <= i < |p.recycled| ==> p.recycled[i] < |p.stacks|)
    && (forall i, j :: 0 <= i < j < |p.recycled| ==> p.recycled[i] != p.recycled[j])
  }

  // ------------------------------------------------------------------ the region stack hash

  /** One step of `stack_frame_aggregation`: a hash so far and a region to a hash. */
  type HashStep = (Word, Region) -> Word

  /** The step of the program: the hash value of the region is the key, the hash so far the seed. A
      32-bit key hashes alike in either byte order. */
  function RegionStep(hashOf: Region -> Word): HashStep
  {
    (hash: Word, region: Region) => WordsDigest([hashOf(region)], hash, 0).c
  }

  /** The region's value enters the first word of the hash's state only; the hash so far enters all three. */
  lemma RegionIsKey(hashOf: Region -> Word, hash: Word, region: Region, x: Word)
    requires x == Add(0xdead_bef3, hash)
    ensures RegionStep(hashOf)(hash, region) == LookupMix.Final(State(Add(x, hashOf(region)), x, x)).c
  {
    OneWordDigest(hashOf(region), hash, x);
  }

  function FoldHash(step: HashStep, hash: Word, stack: seq<Region>): Word
  {
    if stack == [] then hash
    else step(FoldHash(step, hash, stack[..|stack| - 1]), stack[|stack| - 1])
  }

  function StackHash(step: HashStep, parent: Word, stack: seq<Region>): Word
  {
    if stack == [] then 0 else FoldHash(step, parent, stack)
  }

  /** Hashing one stack on top of another is hashing the two in a row. */
  lemma {:induction false} FoldHashAppend(step: HashStep, hash: Word, below: seq<Region>, above: seq<Region>)
    ensures FoldHash(step, hash, below + above) == FoldHash(step, FoldHash(step, hash, below), above)
  {
    if above == [] {
      assert below + above == below;
    } else {
      var whole, front, last := below + above, above[..|above| - 1], above[|above| - 1];
      assert whole[..|whole| - 1] == below + front;
      calc {
        FoldHash(step, hash, whole);
        step(FoldHash(step, hash, below + front), last);
        { FoldHashAppend(step, hash, below, front); }
        step(FoldHash(step, FoldHash(step, hash, below), front), last);
        FoldHash(step, FoldHash(step, hash, below), above);
      }
    }
  }

  function Flatten(stacks: seq<seq<Region>>): seq<Region>
  {
    if stacks == [] then [] else Flatten(stacks[..|stacks| - 1]) + stacks[|stacks| - 1]
  }

  /** The hash of the last task of a chain, each task created while the one before it was current. */
  function ChainHash(step: HashStep, base: Word, stacks: seq<seq<Region>>): Word
  {
    if stacks == [] then base
    else StackHash(step, ChainHash(step, base, stacks[..|stacks| - 1]), stacks[|stacks| - 1])
  }

  /** Along a chain of tasks with non-empty stacks the hash is that of one long stack. */
  lemma {:induction false} ChainHashIsFold(step: HashStep, base: Word, stacks: seq<seq<Region>>)
    requires forall i :: 0 <= i < |stacks| ==> stacks[i] != []
    ensures ChainHash(step, base, stacks) == FoldHash(step, base, Flatten(stacks))
  {
    if stacks != [] {
      var front, last := stacks[..|stacks| - 1], stacks[|stacks| - 1];
      ChainHashIsFold(step, base, front);
      FoldHashAppend(step, base, Flatten(front), last);
    }
  }

  // ------------------------------------------------------------------ operations

  datatype Op =
    | Enter(region: Region)
    | Exit
    | Clear(task: nat)
    | Create
    | Complete(task: nat)
    | Switch(task: nat)

  function Init(forkHash: Word): (p: Pool)
    ensures ValidPool(p) && Conserved(p)
  {
    Pool([[]], [forkHash], 0, [], 0, 0, 0)
  }

  function Push(p: Pool, region: Region): Pool
    requires ValidPool(p)
  {
    var stack := p.stacks[p.current];
    var p' := p.(stacks := p.stacks[p.current := stack + [region]]);
    if |stack| % 30 != 0 then p'
    else if p.free > 0 then p'.(free := p.free - 1)
    else p'.(made := p.made + 1)
  }

  /** `task_pop_stack`. */
  function Pop(p: Pool, task: nat): Pool
    requires ValidPool(p) && task < |p.stacks| && p.stacks[task] != []
  {
    var stack := p.stacks[task];
    p.(stacks := p.stacks[task := stack[..|stack| - 1]],
       free := if |stack| % 30 == 1 then p.free + 1 else p.free)
  }

  function ClearStack(p: Pool, task: nat): Pool
    requires ValidPool(p) && task < |p.stacks|
  {
    p.(stacks := p.stacks[task := []], free := p.free + FramesFor(|p.stacks[task]|))
  }

  /** The task object that `scorep_task_create` hands out. */
  function CreatedTask(p: Pool): nat
  {
    if p.recycled != [] then p.recycled[|p.recycled| - 1] else |p.stacks|
  }

  /** A reused task object starts with an empty stack; frames it still had are lost. */
  function ObtainTask(p: Pool): Pool
    requires ValidPool(p)
  {
    var t := CreatedTask(p);
    if p.recycled != [] then
      p.(stacks := p.stacks[t := []], recycled := p.recycled[..|p.recycled| - 1],
         lost := p.lost + FramesFor(|p.stacks[t]|))
    else
      p.(stacks := p.stacks + [[]], parents := p.parents + [0])
  }

  /** The new task descends from the current one. */
  function SetParent(step: HashStep, p: Pool, t: nat): Pool
    requires ValidPool(p) && t < |p.stacks|
  {
    p.(parents := p.parents[t := StackHash(step, p.parents[p.current], p.stacks[p.current])])
  }

  function CreateTask(step: HashStep, p: Pool): Pool
    requires ValidPool(p)
  {
    SetParent(step, ObtainTask(p), CreatedTask(p))
  }

  function CompleteTask(p: Pool, task: nat): Pool
  {
    p.(recycled := p.recycled + [task])
  }

  function SwitchTask(p: Pool, task: nat): Pool
  {
    p.(current := task)
  }

  /** What callers must respect: no exit from an empty stack, task handles that exist, and no use
      of a task after its completion. */
  predicate Allowed(p: Pool, op: Op)
  {
    match op
    case Enter(_) => p.current < |p.stacks| && p.current !in p.recycled
    case Exit => p.current < |p.stacks| && p.stacks[p.current] != [] && p.current !in p.recycled
    case Clear(t) => t < |p.stacks| && t !in p.recycled
    case Create => true
    case Complete(t) => t < |p.stacks| && t !in p.recycled
    case Switch(t) => t < |p.stacks| && t !in p.recycled
  }

  function Step(step: HashStep, p: Pool, op: Op): Pool
    requires ValidPool(p) && Allowed(p, op)
  {
    match op
    case Enter(region) => Push(p, region)
    case Exit => Pop(p, p.current)
    case Clear(t) => ClearStack(p, t)
    case Create => CreateTask(step, p)
    case Complete(t) => CompleteTask(p, t)
    case Switch(t) => SwitchTask(p, t)
  }

  // ------------------------------------------------------------------ one step

  lemma {:induction false} InUseUpdate(stacks: seq<seq<Region>>, t: nat, stack: seq<Region>)
    requires t < |stacks|
    ensures InUse(stacks[t := stack]) == InUse(stacks) - FramesFor(|stacks[t]|) + FramesFor(|stack|)
    decreases |stacks|
  {
    var last := |stacks| - 1;
    if t < last {
      InUseUpdate(stacks[..last], t, stack);
      assert stacks[t := stack][..last] == stacks[..last][t := stack];
    } else {
      assert stacks[t := stack][..last] == stacks[..last];
    }
  }

  lemma InUseAppend(stacks: seq<seq<Region>>)
    ensures InUse(stacks + [[]]) == InUse(stacks)
  {
    assert (stacks + [[]])[..|stacks|] == stacks;
  }

  lemma FramesStep(depth: nat)
    ensures FramesFor(depth + 1) == FramesFor(depth) + if depth % 30 == 0 then 1 else 0
    ensures (depth + 1) % 30 == 1 <==> depth % 30 == 0
  {
  }

  /** Frames that are neither free nor in a stack nor lost do not exist. */
  ghost predicate Conserved(p: Pool)
  {
    p.made == p.free + InUse(p.stacks) + p.lost
  }

  lemma PushConserves(p: Pool, region: Region)
    requires ValidPool(p) && Conserved(p)
    ensures ValidPool(Push(p, region)) && Conserved(Push(p, region))
    ensures Push(p, region).made ==
            if InUse(Push(p, region).stacks) + p.lost > p.made
            then InUse(Push(p, region).stacks) + p.lost else p.made
  {
    var stack := p.stacks[p.current];
    InUseUpdate(p.stacks, p.current, stack + [region]);
    FramesStep(|stack|);
  }

  lemma PopConserves(p: Pool, task: nat)
    requires ValidPool(p) && Conserved(p) && task < |p.stacks| && p.stacks[task] != []
    ensures ValidPool(Pop(p, task)) && Conserved(Pop(p, task))
  {
    var stack := p.stacks[task];
    InUseUpdate(p.stacks, task, stack[..|stack| - 1]);
    FramesStep(|stack| - 1);
  }

  lemma CreateConserves(step: HashStep, p: Pool)
    requires ValidPool(p) && Conserved(p)
    ensures ValidPool(ObtainTask(p)) && Conserved(ObtainTask(p))
    ensures ValidPool(CreateTask(step, p)) && Conserved(CreateTask(step, p))
  {
    if p.recycled != [] {
      InUseUpdate(p.stacks, CreatedTask(p), []);
    } else {
      InUseAppend(p.stacks);
    }
  }

  /** Every operation keeps the state valid and the frames conserved, and takes a frame from memory
      only when more are in use than ever before. */
  lemma StepConserves(step: HashStep, p: Pool, op: Op)
    requires ValidPool(p) && Conserved(p) && Allowed(p, op)
    ensures ValidPool(Step(step, p, op)) && Conserved(Step(step, p, op))
    ensures Step(step, p, op).made == Max(p.made, Taken(Step(step, p, op)))
  {
    match op
    case Enter(region) => PushConserves(p, region);
    case Exit => PopConserves(p, p.current);
    case Clear(t) => InUseUpdate(p.stacks, t, []);
    case Create => CreateConserves(step, p);
    case Complete(_) =>
    case Switch(_) =>
  }

  function Max(x: nat, y: nat): nat
  {
    if x < y then y else x
  }

  /** Frames that are out of the free list. */
  function Taken(p: Pool): nat
  {
    InUse(p.stacks) + p.lost
  }

  // ------------------------------------------------------------------ whole runs

  ghost predicate ValidRun(step: HashStep, p: Pool, ops: seq<Op>)
    requires ValidPool(p) && Conserved(p)
    decreases |ops|
  {
    ops != [] ==>
      Allowed(p, ops[0]) && (StepConserves(step, p, ops[0]); ValidRun(step, Step(step, p, ops[0]), ops[1..]))
  }

  ghost function Final(step: HashStep, p: Pool, ops: seq<Op>): Pool
    requires ValidPool(p) && Conserved(p) && ValidRun(step, p, ops)
    decreases |ops|
  {
    if ops == [] then p
    else
      StepConserves(step, p, ops[0]);
      Final(step, Step(step, p, ops[0]), ops[1..])
  }

  /** The largest number of frames out of the free list at any time of the run. */
  ghost function Peak(step: HashStep, p: Pool, ops: seq<Op>): nat
    requires ValidPool(p) && Conserved(p) && ValidRun(step, p, ops)
    decreases |ops|
  {
    if ops == [] then Taken(p)
    else
      StepConserves(step, p, ops[0]);
      Max(Taken(p), Peak(step, Step(step, p, ops[0]), ops[1..]))
  }

  /** Over any run the frames are conserved, and exactly as many are ever allocated as were needed
      at the busiest moment. */
  lemma {:induction false} RunConserves(step: HashStep, p: Pool, ops: seq<Op>)
    requires ValidPool(p) && Conserved(p) && ValidRun(step, p, ops)
    ensures ValidPool(Final(step, p, ops)) && Conserved(Final(step, p, ops))
    ensures Final(step, p, ops).made == Max(p.made, Peak(step, p, ops))
    decreases |ops|
  {
    if ops != [] {
      StepConserves(step, p, ops[0]);
      RunConserves(step, Step(step, p, ops[0]), ops[1..]);
    }
  }

  lemma AllocatedIsPeak(step: HashStep, forkHash: Word, ops: seq<Op>)
    requires ValidRun(step, Init(forkHash), ops)
    ensures Final(step, Init(forkHash), ops).made == Peak(step, Init(forkHash), ops)
  {
    RunConserves(step, Init(forkHash), ops);
  }

  /** Completed tasks wait with empty stacks. */
  ghost predicate RecycledEmpty(p: Pool)
    requires ValidPool(p)
  {
    forall i :: 0 <= i < |p.recycled| ==> p.stacks[p.recycled[i]] == []
  }

  ghost predicate CompletesEmpty(step: HashStep, p: Pool, ops: seq<Op>)
    requires ValidPool(p) && Conserved(p) && ValidRun(step, p, ops)
    decreases |ops|
  {
    ops != [] ==>
      && (ops[0].Complete? ==> p.stacks[ops[0].task] == [])
      && (StepConserves(step, p, ops[0]); CompletesEmpty(step, Step(step, p, ops[0]), ops[1..]))
  }

  /** If tasks complete with empty stacks only, no frame is ever lost: allocated frames are free or
      in a stack. */
  lemma {:induction false} NoFrameLost(step: HashStep, p: Pool, ops: seq<Op>)
    requires ValidPool(p) && Conserved(p) && ValidRun(step, p, ops) && CompletesEmpty(step, p, ops)
    requires RecycledEmpty(p) && p.lost == 0
    ensures var q := Final(step, p, ops); q.lost == 0 && q.made == q.free + InUse(q.stacks)
    decreases |ops|
  {
    if ops == [] {
    } else {
      var q := Step(step, p, ops[0]);
      StepConserves(step, p, ops[0]);
      assert RecycledEmpty(q) && q.lost == 0;
      NoFrameLost(step, q, ops[1..]);
    }
  }

  /** The largest number of frames in stacks at any time of the run. */
  ghost function PeakInUse(step: HashStep, p: Pool, ops: seq<Op>): nat
    requires ValidPool(p) && Conserved(p) && ValidRun(step, p, ops)
    decreases |ops|
  {
    if ops == [] then InUse(p.stacks)
    else
      StepConserves(step, p, ops[0]);
      Max(InUse(p.stacks), PeakInUse(step, Step(step, p, ops[0]), ops[1..]))
  }

  lemma {:induction false} PeakWithoutLoss(step: HashStep, p: Pool, ops: seq<Op>)
    requires ValidPool(p) && Conserved(p) && ValidRun(step, p, ops) && CompletesEmpty(step, p, ops)
    requires RecycledEmpty(p) && p.lost == 0
    ensures Peak(step, p, ops) == PeakInUse(step, p, ops)
    decreases |ops|
  {
    if ops != [] {
      var q := Step(step, p, ops[0]);
      StepConserves(step, p, ops[0]);
      assert RecycledEmpty(q) && q.lost == 0;
      PeakWithoutLoss(step, q, ops[1..]);
    }
  }

  /** If tasks complete with empty stacks only, a location allocates over a whole run exactly as many frames
      as were in stacks at the busiest moment. */
  lemma AllocatedIsBusiest(step: HashStep, forkHash: Word, ops: seq<Op>)
    requires ValidRun(step, Init(forkHash), ops) && CompletesEmpty(step, Init(forkHash), ops)
    ensures Final(step, Init(forkHash), ops).made == PeakInUse(step, Init(forkHash), ops)
  {
    AllocatedIsPeak(step, forkHash, ops);
    PeakWithoutLoss(step, Init(forkHash), ops);
  }

  /** Otherwise the loss happens when the task object is reused: creation loses exactly the frames
      that the completed task still had. */
  lemma LossAtReuse(step: HashStep, p: Pool)
    requires ValidPool(p)
    ensures CreateTask(step, p).lost == p.lost <==> p.recycled == [] || p.stacks[CreatedTask(p)] == []
  {
    if p.recycled != [] && p.stacks[CreatedTask(p)] != [] {
      assert FramesFor(|p.stacks[CreatedTask(p)]|) > 0;
    }
  }

  /** Every task object that is used again has an empty stack. */
  ghost predicate ReusesEmpty(step: HashStep, p: Pool, ops: seq<Op>)
    requires ValidPool(p) && Conserved(p) && ValidRun(step, p, ops)
    decreases |ops|
  {
    ops != [] ==>
      && (ops[0].Create? && p.recycled != [] ==> p.stacks[CreatedTask(p)] == [])
      && (StepConserves(step, p, ops[0]); ReusesEmpty(step, Step(step, p, ops[0]), ops[1..]))
  }

  /** A run loses no frame if and only if it does not use a task object again that has open regions. */
  lemma {:induction false} LossExactly(step: HashStep, p: Pool, ops: seq<Op>)
    requires ValidPool(p) && Conserved(p) && ValidRun(step, p, ops)
    ensures Final(step, p, ops).lost >= p.lost
    ensures Final(step, p, ops).lost == p.lost <==> ReusesEmpty(step, p, ops)
    decreases |ops|
  {
    if ops != [] {
      StepConserves(step, p, ops[0]);
      LossAtReuse(step, p);
      LossExactly(step, Step(step, p, ops[0]), ops[1..]);
    }
  }

  // A task that is completed inside a region, and whose object is used again.
  const LOSSY_RUN: seq<Op> :=
    [Op.Create, Op.Switch(1), Op.Enter(Measured(0)), Op.Switch(0), Op.Complete(1), Op.Create]

  /** Such a run loses a frame. */
  lemma FrameLost(step: HashStep, forkHash: Word)
    ensures ValidRun(step, Init(forkHash), LOSSY_RUN)
    ensures Final(step, Init(forkHash), LOSSY_RUN).lost == 1
  {
  }

  // ------------------------------------------------------------------ the state as the history tells it

  /** The current task is the one switched to last, at first the implicit one. */
  function CurrentOf(ops: seq<Op>): nat
  {
    if ops == [] then 0
    else if ops[|ops| - 1].Switch? then ops[|ops| - 1].task
    else CurrentOf(ops[..|ops| - 1])
  }

  /** The completed tasks that were not handed out again, in the order of completion. */
  function WaitingOf(ops: seq<Op>): seq<nat>
  {
    if ops == [] then []
    else
      var waiting := WaitingOf(ops[..|ops| - 1]);
      match ops[|ops| - 1]
      case Complete(t) => waiting + [t]
      case Create => if waiting == [] then [] else waiting[..|waiting| - 1]
      case _ => waiting
  }

  /** The task that a creation after these operations hands out: the one completed last, or a new one. */
  function HandedOut(ops: seq<Op>): nat
  {
    if WaitingOf(ops) != [] then WaitingOf(ops)[|WaitingOf(ops)| - 1] else TaskCount(ops)
  }

  function TaskCount(ops: seq<Op>): nat
  {
    if ops == [] then 1
    else
      var front := ops[..|ops| - 1];
      if ops[|ops| - 1].Create? && WaitingOf(front) == [] then TaskCount(front) + 1 else TaskCount(front)
  }

  /** The regions a task has open: entered while it was current, and not left or cleared since, and since
      its last creation. */
  function OpenOf(ops: seq<Op>, t: nat): seq<Region>
  {
    if ops == [] then []
    else
      var front := ops[..|ops| - 1];
      var open := OpenOf(front, t);
      match ops[|ops| - 1]
      case Enter(region) => if CurrentOf(front) == t then open + [region] else open
      case Exit => if CurrentOf(front) == t && open != [] then open[..|open| - 1] else open
      case Clear(u) => if u == t then [] else open
      case Create => if HandedOut(front) == t then [] else open
      case _ => open
  }

  /** A call path, and the hash it starts from. */
  datatype Origin = Origin(base: Word, path: seq<Region>)

  /** The call path below a task: that of the task that was current when it was created, and behind it the
      regions that one had open then. The implicit task starts from the fork hash. Creation inside no region
      starts anew. */
  function OriginOf(forkHash: Word, ops: seq<Op>, t: nat): Origin
  {
    if ops == [] then Origin(forkHash, [])
    else
      var front := ops[..|ops| - 1];
      if ops[|ops| - 1].Create? && HandedOut(front) == t then
        var creator := CurrentOf(front);
        var open, below := OpenOf(ops, creator), OriginOf(forkHash, front, creator);
        if open == [] then Origin(0, []) else Origin(below.base, below.path + open)
      else OriginOf(forkHash, front, t)
  }

  /** The state is what the history tells. */
  ghost predicate Tells(step: HashStep, forkHash: Word, ops: seq<Op>, p: Pool)
  {
    && ValidPool(p) && p.current == CurrentOf(ops) && p.recycled == WaitingOf(ops) && |p.stacks| == TaskCount(ops)
    && forall t :: 0 <= t < |p.stacks| ==> TellsTask(step, forkHash, ops, p, t)
  }

  ghost predicate TellsTask(step: HashStep, forkHash: Word, ops: seq<Op>, p: Pool, t: nat)
    requires ValidPool(p) && t < |p.stacks|
  {
    var origin := OriginOf(forkHash, ops, t);
    p.stacks[t] == OpenOf(ops, t) && p.parents[t] == FoldHash(step, origin.base, origin.path)
  }

  lemma CreateTells(step: HashStep, forkHash: Word, ops: seq<Op>, p: Pool, t: nat)
    requires Tells(step, forkHash, ops, p) && ValidPool(CreateTask(step, p)) && t < |CreateTask(step, p).stacks|
    ensures TellsTask(step, forkHash, ops + [Op.Create], CreateTask(step, p), t)
  {
    var all := ops + [Op.Create];
    var c := p.current;
    assert all[..|ops|] == ops;
    assert TellsTask(step, forkHash, ops, p, c);
    assert CreatedTask(p) == HandedOut(ops);
    if t == HandedOut(ops) {
      var below := OriginOf(forkHash, ops, c);
      assert ObtainTask(p).stacks[c] == OpenOf(all, c);
      FoldHashAppend(step, below.base, below.path, OpenOf(all, c));
    } else {
      assert TellsTask(step, forkHash, ops, p, t);
    }
  }

  lemma StepTells(step: HashStep, forkHash: Word, ops: seq<Op>, p: Pool, op: Op)
    requires Tells(step, forkHash, ops, p) && Conserved(p) && Allowed(p, op)
    ensures Tells(step, forkHash, ops + [op], Step(step, p, op))
  {
    var all, q := ops + [op], Step(step, p, op);
    StepConserves(step, p, op);
    assert all[..|ops|] == ops;
    forall t | 0 <= t < |q.stacks|
      ensures TellsTask(step, forkHash, all, q, t)
    {
      if op.Create? {
        CreateTells(step, forkHash, ops, p, t);
      } else {
        OtherStepTells(step, forkHash, ops, p, op, t);
      }
    }
  }

  lemma OtherStepTells(step: HashStep, forkHash: Word, ops: seq<Op>, p: Pool, op: Op, t: nat)
    requires Tells(step, forkHash, ops, p) && Allowed(p, op) && !op.Create?
    requires ValidPool(Step(step, p, op)) && t < |Step(step, p, op).stacks|
    ensures TellsTask(step, forkHash, ops + [op], Step(step, p, op), t)
  {
    assert (ops + [op])[..|ops|] == ops;
    assert TellsTask(step, forkHash, ops, p, t);
  }

  /** The last operation of a run comes after all others. */
  lemma {:induction false} RunSnoc(step: HashStep, p: Pool, ops: seq<Op>, op: Op)
    requires ValidPool(p) && Conserved(p) && ValidRun(step, p, ops + [op])
    ensures ValidRun(step, p, ops)
    ensures ValidPool(Final(step, p, ops)) && Conserved(Final(step, p, ops)) && Allowed(Final(step, p, ops), op)
    ensures Final(step, p, ops + [op]) == Step(step, Final(step, p, ops), op)
    decreases |ops|
  {
    var all := ops + [op];
    StepConserves(step, p, all[0]);
    if ops != [] {
      assert all[1..] == ops[1..] + [op];
      RunSnoc(step, Step(step, p, ops[0]), ops[1..], op);
    }
  }

  /** After any run from the start of a location the state is what the history tells: which task is current,
      which tasks wait, what each has open, and the hash of the call path below each. */
  lemma {:induction false} RunTells(step: HashStep, forkHash: Word, ops: seq<Op>)
    requires ValidRun(step, Init(forkHash), ops)
    ensures Tells(step, forkHash, ops, Final(step, Init(forkHash), ops))
    decreases |ops|
  {
    if ops != [] {
      var front, op := ops[..|ops| - 1], ops[|ops| - 1];
      assert front + [op] == ops;
      RunSnoc(step, Init(forkHash), front, op);
      RunTells(step, forkHash, front);
      StepTells(step, forkHash, front, Final(step, Init(forkHash), front), op);
    }
  }

  /** A task created inside a region is the next one of the chain that its creator ends. */
  lemma CreateExtendsChain(step: HashStep, p: Pool, base: Word, stacks: seq<seq<Region>>)
    requires ValidPool(p) && CreatedTask(p) != p.current
    requires p.parents[p.current] == ChainHash(step, base, stacks)
    ensures CreatedTask(p) < |CreateTask(step, p).parents|
    ensures CreateTask(step, p).parents[CreatedTask(p)] == ChainHash(step, base, stacks + [p.stacks[p.current]])
  {
    assert (stacks + [p.stacks[p.current]])[..|stacks|] == stacks;
  }

  /** So in every reachable state the hash of a task with open regions is the fold of its whole call path: the
      regions its creators had open when they created, then its own. */
  lemma HashIsWholePath(step: HashStep, forkHash: Word, ops: seq<Op>, t: nat)
    requires ValidRun(step, Init(forkHash), ops) && t < |Final(step, Init(forkHash), ops).stacks|
    ensures ValidPool(Final(step, Init(forkHash), ops))
    ensures var q, origin := Final(step, Init(forkHash), ops), OriginOf(forkHash, ops, t);
            StackHash(step, q.parents[t], q.stacks[t]) ==
            if OpenOf(ops, t) == [] then 0 else FoldHash(step, origin.base, origin.path + OpenOf(ops, t))
  {
    RunTells(step, forkHash, ops);
    var origin := OriginOf(forkHash, ops, t);
    assert TellsTask(step, forkHash, ops, Final(step, Init(forkHash), ops), t);
    FoldHashAppend(step, origin.base, origin.path, OpenOf(ops, t));
  }

  /** The first region of a new task is hashed on top of what its creator has open. */
  lemma CreatedInherits(step: HashStep, p: Pool, region: Region)
    requires ValidPool(p) && p.stacks[p.current] != [] && CreatedTask(p) != p.current
    ensures CreatedTask(p) < |CreateTask(step, p).parents|
    ensures StackHash(step, CreateTask(step, p).parents[CreatedTask(p)], [region]) ==
            FoldHash(step, p.parents[p.current], p.stacks[p.current] + [region])
  {
    FoldHashAppend(step, p.parents[p.current], p.stacks[p.current], [region]);
  }
}
