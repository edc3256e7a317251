/**
  The tasks of one location as the program keeps them: stacks of linked 30-slot frames, a free list
  of frames and a free list of task objects. Every operation is proved to do what module TaskPool
  says.

  Frames and task objects come from the location's memory pages and are never given back, so the
  memory is two growing lists and a pointer is a position in one of them.
*/
module TaskStack {
  import opened LookupMix
  import opened JenkinsHash
  import opened TaskPool

  datatype Link = Null | To(address: nat)

  datatype Frame = Frame(regions: seq<Region>, prev: Link)

  datatype Task = Task(currentFrame: Link, currentIndex: nat, threadId: nat, generationNumber: nat,
                       parentHash: Word, next: Link)

  // ------------------------------------------------------------------ lists spelled out by links

  /** The link below position i of a list whose top is the last element, and the link to the top. */
  function Below(list: seq<nat>, i: nat): Link
    requires i <= |list|
  {
    if i == 0 then Null else To(list[i - 1])
  }

  function Top(list: seq<nat>): Link
  {
    Below(list, |list|)
  }

  /** Following `prev` from the top of the list visits exactly the list. */
  ghost predicate Linked(frames: seq<Frame>, list: seq<nat>)
  {
    forall i {:trigger LinkOk(frames, list, i)} :: 0 <= i < |list| ==> LinkOk(frames, list, i)
  }

  ghost predicate LinkOk(frames: seq<Frame>, list: seq<nat>, i: nat)
    requires i < |list|
  {
    list[i] < |frames| && |frames[list[i]].regions| == 30 && frames[list[i]].prev == Below(list, i)
  }

  ghost predicate TasksLinked(tasks: seq<Task>, list: seq<nat>)
  {
    forall i {:trigger NextOk(tasks, list, i)} :: 0 <= i < |list| ==> NextOk(tasks, list, i)
  }

  ghost predicate NextOk(tasks: seq<Task>, list: seq<nat>, i: nat)
    requires i < |list|
  {
    list[i] < |tasks| && tasks[list[i]].next == Below(list, i)
  }

  /** The links of a list survive changes to other frames, and to the slots of its own. */
  lemma LinkedKept(frames: seq<Frame>, frames': seq<Frame>, list: seq<nat>)
    requires Linked(frames, list) && |frames| <= |frames'|
    requires forall i :: 0 <= i < |list| && list[i] < |frames| ==>
               frames'[list[i]].prev == frames[list[i]].prev && |frames'[list[i]].regions| == |frames[list[i]].regions|
    ensures Linked(frames', list)
  {
    forall i | 0 <= i < |list|
      ensures LinkOk(frames', list, i)
    {
      assert LinkOk(frames, list, i);
    }
  }

  lemma TasksLinkedKept(tasks: seq<Task>, tasks': seq<Task>, list: seq<nat>)
    requires TasksLinked(tasks, list) && |tasks| <= |tasks'|
    requires forall t :: 0 <= t < |tasks| ==> tasks'[t].next == tasks[t].next
    ensures TasksLinked(tasks', list)
  {
    forall i | 0 <= i < |list|
      ensures NextOk(tasks', list, i)
    {
      assert NextOk(tasks, list, i);
    }
  }

  lemma LinkedPrefix(frames: seq<Frame>, list: seq<nat>, n: nat)
    requires Linked(frames, list) && n <= |list|
    ensures Linked(frames, list[..n])
  {
    forall i | 0 <= i < n
      ensures LinkOk(frames, list[..n], i)
    {
      assert LinkOk(frames, list, i);
    }
  }

  lemma TasksLinkedPrefix(tasks: seq<Task>, list: seq<nat>, n: nat)
    requires TasksLinked(tasks, list) && n <= |list|
    ensures TasksLinked(tasks, list[..n])
  {
    forall i | 0 <= i < n
      ensures NextOk(tasks, list[..n], i)
    {
      assert NextOk(tasks, list, i);
    }
  }

  lemma LinkedSnoc(frames: seq<Frame>, list: seq<nat>, frame: nat)
    requires Linked(frames, list) && frame < |frames|
    requires |frames[frame].regions| == 30 && frames[frame].prev == Top(list)
    ensures Linked(frames, list + [frame])
  {
    forall i | 0 <= i < |list| + 1
      ensures LinkOk(frames, list + [frame], i)
    {
      if i < |list| {
        assert LinkOk(frames, list, i);
      }
    }
  }

  // ------------------------------------------------------------------ chunked stacks

  /** Slot k mod 30 of frame k div 30 of the chain holds region k of the stack. */
  ghost predicate Holds(frames: seq<Frame>, chain: seq<nat>, stack: seq<Region>)
  {
    forall k {:trigger SlotOk(frames, chain, stack, k)} :: 0 <= k < |stack| ==> SlotOk(frames, chain, stack, k)
  }

  ghost predicate SlotOk(frames: seq<Frame>, chain: seq<nat>, stack: seq<Region>, k: nat)
    requires k < |stack|
  {
    && k / 30 < |chain| && chain[k / 30] < |frames| && |frames[chain[k / 30]].regions| == 30
    && frames[chain[k / 30]].regions[k % 30] == stack[k]
  }

  /** A task object and its chain represent a stack: as many frames as needed, all but the top one
      full, and index 29 if there are none. */
  ghost predicate Chunked(frames: seq<Frame>, task: Task, chain: seq<nat>, stack: seq<Region>)
  {
    && |chain| == FramesFor(|stack|)
    && Linked(frames, chain)
    && task.currentFrame == Top(chain)
    && task.currentIndex == (|stack| + 29) % 30
    && Holds(frames, chain, stack)
  }

  lemma DepthFacts(depth: nat)
    ensures (depth + 29) % 30 == 29 <==> depth % 30 == 0
    ensures (depth + 29) % 30 == 0 <==> depth % 30 == 1
    ensures (depth + 30) % 30 == depth % 30
    ensures (depth + 29) % 30 < 29 ==> (depth + 30) % 30 == (depth + 29) % 30 + 1
    ensures FramesFor(depth + 1) == FramesFor(depth) + if depth % 30 == 0 then 1 else 0
    ensures depth % 30 == 0 ==> FramesFor(depth) == depth / 30
    ensures depth % 30 != 0 ==> FramesFor(depth) == depth / 30 + 1
    ensures depth > 0 ==> (depth - 1) / 30 == FramesFor(depth) - 1 && (depth - 1) % 30 == (depth + 29) % 30
  {
  }

  /** Frames of other chains do not matter. */
  lemma ChunkedKept(frames: seq<Frame>, frames': seq<Frame>, task: Task, chain: seq<nat>,
                    stack: seq<Region>)
    requires Chunked(frames, task, chain, stack) && |frames| <= |frames'|
    requires forall i :: 0 <= i < |chain| && chain[i] < |frames| ==> frames'[chain[i]] == frames[chain[i]]
    ensures Chunked(frames', task, chain, stack)
  {
    forall i | 0 <= i < |chain|
      ensures LinkOk(frames', chain, i)
    {
      assert LinkOk(frames, chain, i);
    }
    forall k | 0 <= k < |stack|
      ensures SlotOk(frames', chain, stack, k)
    {
      assert SlotOk(frames, chain, stack, k);
    }
  }

  /** A region stored into the next slot of the top frame. */
  lemma ChunkedPush(frames: seq<Frame>, task: Task, chain: seq<nat>, stack: seq<Region>,
                    region: Region,
                    top: nat, frames': seq<Frame>)
    requires Chunked(frames, task, chain, stack) && task.currentIndex < 29 && task.currentFrame == To(top)
    requires top < |frames| && |frames[top].regions| == 30
    requires frames' == PushedFrames(frames, top, task.currentIndex + 1, region)
    requires top !in chain[..|chain| - 1]
    ensures Chunked(frames', task.(currentIndex := task.currentIndex + 1), chain, stack + [region])
  {
    var stack' := stack + [region];
    DepthFacts(|stack|);
    LinkedKept(frames, frames', chain);
    forall k | 0 <= k < |stack'|
      ensures SlotOk(frames', chain, stack', k)
    {
      if k < |stack| {
        assert SlotOk(frames, chain, stack, k);
        KeptSlot(frames, chain, stack, k, top, frames', region);
      }
    }
  }

  /** The stored slot is none of those in use. */
  lemma KeptSlot(frames: seq<Frame>, chain: seq<nat>, stack: seq<Region>, k: nat, top: nat,
                 frames': seq<Frame>, region: Region)
    requires k < |stack| && SlotOk(frames, chain, stack, k) && |chain| == FramesFor(|stack|)
    requires |stack| % 30 != 0 && chain[|chain| - 1] == top && top !in chain[..|chain| - 1]
    requires top < |frames| && |frames[top].regions| == 30
    requires frames' == PushedFrames(frames, top, |stack| % 30, region)
    ensures SlotOk(frames', chain, stack, k)
  {
    DepthFacts(|stack|);
    if k / 30 < |chain| - 1 {
      assert chain[..|chain| - 1][k / 30] == chain[k / 30];
    } else {
      assert k % 30 < |stack| % 30;
    }
  }

  function PushedFrames(frames: seq<Frame>, top: nat, index: nat, region: Region): seq<Frame>
    requires top < |frames| && index < |frames[top].regions|
  {
    frames[top := frames[top].(regions := frames[top].regions[index := region])]
  }

  /** A region stored into the first slot of a frame that becomes the top. */
  lemma ChunkedPushFrame(frames: seq<Frame>, task: Task, chain: seq<nat>, stack: seq<Region>,
                         region: Region, frame: nat)
    requires Chunked(frames, task, chain, stack) && task.currentIndex == 29
    requires frame < |frames| && |frames[frame].regions| == 30 && frames[frame].regions[0] == region
    requires frames[frame].prev == task.currentFrame
    ensures Chunked(frames, task.(currentFrame := To(frame), currentIndex := 0), chain + [frame], stack + [region])
  {
    var chain', stack' := chain + [frame], stack + [region];
    DepthFacts(|stack|);
    LinkedSnoc(frames, chain, frame);
    forall k | 0 <= k < |stack'|
      ensures SlotOk(frames, chain', stack', k)
    {
      if k < |stack| {
        assert SlotOk(frames, chain, stack, k);
      }
    }
  }

  /** A shorter stack is held by the frames it still needs. */
  lemma ChunkedPrefix(frames: seq<Frame>, task: Task, chain: seq<nat>, stack: seq<Region>,
                      depth: nat)
    requires Chunked(frames, task, chain, stack) && depth <= |stack|
    ensures FramesFor(depth) <= |chain|
    ensures Chunked(frames, task.(currentFrame := Top(chain[..FramesFor(depth)]), currentIndex := (depth + 29) % 30),
                    chain[..FramesFor(depth)], stack[..depth])
  {
    var chain', stack' := chain[..FramesFor(depth)], stack[..depth];
    LinkedPrefix(frames, chain, |chain'|);
    forall k | 0 <= k < depth
      ensures SlotOk(frames, chain', stack', k)
    {
      assert SlotOk(frames, chain, stack, k);
      PoppedSlot(depth, k);
    }
  }

  lemma PoppedSlot(depth: nat, k: nat)
    requires k < depth
    ensures k / 30 < FramesFor(depth)
  {
  }

  /** What the current frame and index of a task lead to. */
  lemma TopRegion(frames: seq<Frame>, task: Task, chain: seq<nat>, stack: seq<Region>)
    requires Chunked(frames, task, chain, stack)
    ensures stack == [] <==> chain == []
    ensures task.currentFrame == Null <==> stack == []
    ensures task.currentIndex < 29 ==> chain != []
    ensures chain != [] ==>
              var top := chain[|chain| - 1];
              && top < |frames| && |frames[top].regions| == 30 && task.currentFrame == To(top)
              && frames[top].prev == Top(chain[..|chain| - 1])
              && frames[top].regions[task.currentIndex] == stack[|stack| - 1]
  {
    DepthFacts(|stack|);
    if chain != [] {
      assert LinkOk(frames, chain, |chain| - 1);
      assert SlotOk(frames, chain, stack, |stack| - 1);
    }
  }

  // ------------------------------------------------------------------ where frames are

  /** A frame is on one level of one task's chain, on the free list, or no list leads to it. */
  datatype Place = InTask(task: nat, level: nat) | Free(position: nat) | Lost

  datatype Shape = Shape(chains: seq<seq<nat>>, free: seq<nat>, home: seq<Place>)

  /** What is on a list is at home there, and what is at home on a list is there. */
  ghost predicate Placed(s: Shape)
  {
    && (forall t, l :: 0 <= t < |s.chains| && 0 <= l < |s.chains[t]| ==>
          s.chains[t][l] < |s.home| && s.home[s.chains[t][l]] == InTask(t, l))
    && (forall p :: 0 <= p < |s.free| ==> s.free[p] < |s.home| && s.home[s.free[p]] == Free(p))
    && (forall f {:trigger AtHome(s, f)} :: 0 <= f < |s.home| ==> AtHome(s, f))
  }

  ghost predicate AtHome(s: Shape, f: nat)
    requires f < |s.home|
  {
    match s.home[f]
    case InTask(t, l) => t < |s.chains| && l < |s.chains[t]| && s.chains[t][l] == f
    case Free(p) => p < |s.free| && s.free[p] == f
    case Lost => true
  }

  /** The frame that a push takes: the top of the free list, else a new one. */
  function TakenFrame(s: Shape): nat
  {
    if s.free != [] then s.free[|s.free| - 1] else |s.home|
  }

  function AfterTake(s: Shape, t: nat): Shape
    requires t < |s.chains| && TakenFrame(s) <= |s.home|
  {
    var place := InTask(t, |s.chains[t]|);
    Shape(s.chains[t := s.chains[t] + [TakenFrame(s)]],
          if s.free != [] then s.free[..|s.free| - 1] else [],
          if TakenFrame(s) < |s.home| then s.home[TakenFrame(s) := place] else s.home + [place])
  }

  lemma PlacedAfterTake(s: Shape, t: nat)
    requires Placed(s) && t < |s.chains|
    ensures TakenFrame(s) <= |s.home| && Placed(AfterTake(s, t))
    ensures forall u :: 0 <= u < |s.chains| ==> TakenFrame(s) !in s.chains[u]
  {
    var frame := TakenFrame(s);
    assert s.free != [] ==> s.home[frame] == Free(|s.free| - 1);
    var s' := AfterTake(s, t);
    forall u, l | 0 <= u < |s'.chains| && 0 <= l < |s'.chains[u]|
      ensures s'.chains[u][l] < |s'.home| && s'.home[s'.chains[u][l]] == InTask(u, l)
    {
      if u != t || l < |s.chains[t]| {
        assert s'.chains[u][l] == s.chains[u][l];
      }
    }
    forall f | 0 <= f < |s'.home|
      ensures AtHome(s', f)
    {
      assert f < |s.home| ==> AtHome(s, f);
    }
  }

  /** The top frame of a chain goes to the free list. */
  function AfterDrop(s: Shape, t: nat): Shape
    requires t < |s.chains| && s.chains[t] != [] && s.chains[t][|s.chains[t]| - 1] < |s.home|
  {
    var last := |s.chains[t]| - 1;
    Shape(s.chains[t := s.chains[t][..last]], s.free + [s.chains[t][last]],
          s.home[s.chains[t][last] := Free(|s.free|)])
  }

  lemma PlacedAfterDrop(s: Shape, t: nat)
    requires Placed(s) && t < |s.chains| && s.chains[t] != []
    ensures s.chains[t][|s.chains[t]| - 1] < |s.home| && Placed(AfterDrop(s, t))
    ensures s.chains[t][|s.chains[t]| - 1] !in s.free
    ensures s.chains[t][|s.chains[t]| - 1] !in s.chains[t][..|s.chains[t]| - 1]
    ensures forall u :: 0 <= u < |s.chains| && u != t ==> s.chains[t][|s.chains[t]| - 1] !in s.chains[u]
  {
    var last := |s.chains[t]| - 1;
    assert s.home[s.chains[t][last]] == InTask(t, last);
    var s' := AfterDrop(s, t);
    forall u, l | 0 <= u < |s'.chains| && 0 <= l < |s'.chains[u]|
      ensures s'.chains[u][l] < |s'.home| && s'.home[s'.chains[u][l]] == InTask(u, l)
    {
      assert s'.chains[u][l] == s.chains[u][l];
    }
    forall p | 0 <= p < |s'.free|
      ensures s'.free[p] < |s'.home| && s'.home[s'.free[p]] == Free(p)
    {
      if p < |s.free| {
        assert s.home[s.free[p]] == Free(p);
      }
    }
    forall f | 0 <= f < |s'.home|
      ensures AtHome(s', f)
    {
      assert AtHome(s, f);
    }
  }

  /** No list leads to the frames of the chain any more. */
  function AfterAbandon(s: Shape, t: nat): Shape
    requires t < |s.chains|
  {
    Shape(s.chains[t := []], s.free,
          seq(|s.home|, f requires 0 <= f < |s.home| =>
                if s.home[f].InTask? && s.home[f].task == t then Lost else s.home[f]))
  }

  lemma PlacedAfterAbandon(s: Shape, t: nat)
    requires Placed(s) && t < |s.chains|
    ensures Placed(AfterAbandon(s, t))
  {
    var s' := AfterAbandon(s, t);
    forall u, l | 0 <= u < |s'.chains| && 0 <= l < |s'.chains[u]|
      ensures s'.chains[u][l] < |s'.home| && s'.home[s'.chains[u][l]] == InTask(u, l)
    {
      assert s.home[s.chains[u][l]] == InTask(u, l);
    }
    forall p | 0 <= p < |s'.free|
      ensures s'.free[p] < |s'.home| && s'.home[s'.free[p]] == Free(p)
    {
      assert s.home[s.free[p]] == Free(p);
    }
    forall f | 0 <= f < |s'.home|
      ensures AtHome(s', f)
    {
      assert AtHome(s, f);
    }
  }

  lemma PlacedAfterNewTask(s: Shape)
    requires Placed(s)
    ensures Placed(s.(chains := s.chains + [[]]))
  {
    var s' := s.(chains := s.chains + [[]]);
    forall u, l | 0 <= u < |s'.chains| && 0 <= l < |s'.chains[u]|
      ensures s'.chains[u][l] < |s'.home| && s'.home[s'.chains[u][l]] == InTask(u, l)
    {
      assert s.home[s.chains[u][l]] == InTask(u, l);
    }
    forall f | 0 <= f < |s'.home|
      ensures AtHome(s', f)
    {
      assert AtHome(s, f);
    }
  }

  // ------------------------------------------------------------------ memory and pool

  /** The memory represents a state of the pool. */
  ghost predicate Represents(frames: seq<Frame>, tasks: seq<Task>, s: Shape, p: Pool)
  {
    && ValidPool(p) && Conserved(p) && Placed(s)
    && |tasks| == |p.stacks| == |s.chains|
    && |frames| == |s.home| == p.made
    && |s.free| == p.free && Linked(frames, s.free)
    && TasksLinked(tasks, p.recycled)
    && (forall t {:trigger TaskOk(frames, tasks, s, p, t)} :: 0 <= t < |tasks| ==> TaskOk(frames, tasks, s, p, t))
  }

  ghost predicate TaskOk(frames: seq<Frame>, tasks: seq<Task>, s: Shape, p: Pool, t: nat)
    requires t < |tasks| && |tasks| == |p.stacks| == |s.chains| == |p.parents|
  {
    Chunked(frames, tasks[t], s.chains[t], p.stacks[t]) && tasks[t].parentHash == p.parents[t]
  }

  /** Only one stack changes, and with it one chain. */
  ghost predicate OneStack(s: Shape, p: Pool, s': Shape, p': Pool, c: nat, chain: seq<nat>, stack: seq<Region>)
  {
    && c < |p.stacks| == |s.chains|
    && s'.chains == s.chains[c := chain]
    && p'.stacks == p.stacks[c := stack]
    && p'.parents == p.parents && p'.recycled == p.recycled
  }

  /** Only one frame differs, and no other chain has it. */
  ghost predicate OneFrame(frames: seq<Frame>, s: Shape, frames': seq<Frame>, c: nat, frame: nat)
  {
    && |frames| <= |frames'|
    && (forall f :: 0 <= f < |frames| && f != frame ==> frames'[f] == frames[f])
    && (forall t :: 0 <= t < |s.chains| && t != c ==> frame !in s.chains[t])
  }

  lemma LinkedApart(frames: seq<Frame>, frames': seq<Frame>, list: seq<nat>, frame: nat)
    requires Linked(frames, list) && |frames| <= |frames'| && frame !in list
    requires forall f :: 0 <= f < |frames| && f != frame ==> frames'[f] == frames[f]
    ensures Linked(frames', list)
    ensures forall i :: 0 <= i < |list| && list[i] < |frames| ==> frames'[list[i]] == frames[list[i]]
  {
    forall i | 0 <= i < |list|
      ensures LinkOk(frames', list, i) && list[i] != frame
    {
      assert LinkOk(frames, list, i);
      assert list[i] in list;
    }
  }

  lemma OtherTaskKept(frames: seq<Frame>, tasks: seq<Task>, s: Shape, p: Pool,
                      frames': seq<Frame>, s': Shape, p': Pool,
                      c: nat, frame: nat, task: Task, t: nat)
    requires |tasks| == |p.stacks| == |s.chains| == |p.parents| && t < |tasks| && t != c && c < |tasks|
    requires TaskOk(frames, tasks, s, p, t)
    requires c < |s'.chains| && c < |p'.stacks|
    requires OneStack(s, p, s', p', c, s'.chains[c], p'.stacks[c]) && OneFrame(frames, s, frames', c, frame)
    ensures TaskOk(frames', tasks[c := task], s', p', t)
  {
    LinkedApart(frames, frames', s.chains[t], frame);
    ChunkedKept(frames, frames', tasks[t], s.chains[t], p.stacks[t]);
  }

  lemma RepresentsAfter(frames: seq<Frame>, tasks: seq<Task>, s: Shape, p: Pool,
                        frames': seq<Frame>, task: Task, s': Shape, p': Pool,
                        c: nat, frame: nat, chain: seq<nat>, stack: seq<Region>)
    requires Represents(frames, tasks, s, p) && c < |tasks|
    requires OneStack(s, p, s', p', c, chain, stack) && OneFrame(frames, s, frames', c, frame)
    requires ValidPool(p') && Conserved(p') && Placed(s')
    requires |frames'| == |s'.home| == p'.made && |s'.free| == p'.free && Linked(frames', s'.free)
    requires Chunked(frames', task, chain, stack)
    requires task.parentHash == tasks[c].parentHash && task.next == tasks[c].next
    ensures Represents(frames', tasks[c := task], s', p')
  {
    assert TaskOk(frames, tasks, s, p, c);
    var tasks' := tasks[c := task];
    TasksLinkedKept(tasks, tasks', p.recycled);
    forall t | 0 <= t < |tasks'|
      ensures TaskOk(frames', tasks', s', p', t)
    {
      if t != c {
        assert TaskOk(frames, tasks, s, p, t);
        OtherTaskKept(frames, tasks, s, p, frames', s', p', c, frame, task, t);
      }
    }
  }

  /** The top frame of a chain. */
  lemma TopFrame(s: Shape, t: nat)
    requires Placed(s) && t < |s.chains| && s.chains[t] != []
    ensures var top := s.chains[t][|s.chains[t]| - 1];
            && top < |s.home| && top !in s.free
            && (forall i :: 0 <= i < |s.chains[t]| - 1 ==> s.chains[t][i] != top)
            && (forall u :: 0 <= u < |s.chains| && u != t ==> top !in s.chains[u])
  {
    PlacedAfterDrop(s, t);
    forall i | 0 <= i < |s.chains[t]| - 1
      ensures s.chains[t][i] != s.chains[t][|s.chains[t]| - 1]
    {
      assert s.chains[t][..|s.chains[t]| - 1][i] == s.chains[t][i];
    }
  }

  /** A push into the top frame of the current task. */
  lemma RepresentsPush(frames: seq<Frame>, tasks: seq<Task>, s: Shape, p: Pool, region: Region,
                       top: nat, frames': seq<Frame>, task': Task)
    requires Represents(frames, tasks, s, p)
    requires tasks[p.current].currentIndex < 29 && tasks[p.current].currentFrame == To(top)
    requires top < |frames| && |frames[top].regions| == 30
    requires frames' == PushedFrames(frames, top, tasks[p.current].currentIndex + 1, region)
    requires task' == tasks[p.current].(currentIndex := tasks[p.current].currentIndex + 1)
    ensures Represents(frames', tasks[p.current := task'], s, Push(p, region))
  {
    var c := p.current;
    var task, chain, stack := tasks[c], s.chains[c], p.stacks[c];
    assert TaskOk(frames, tasks, s, p, c);
    DepthFacts(|stack|);
    TopRegion(frames, task, chain, stack);
    TopFrame(s, c);
    ChunkedPush(frames, task, chain, stack, region, top, frames');
    PushConserves(p, region);
    LinkedApart(frames, frames', s.free, top);
    RepresentsAfter(frames, tasks, s, p, frames', task', s, Push(p, region), c, top, chain, stack + [region]);
  }

  /** A push that opens a new top frame, taken from the free list or from memory. */
  lemma RepresentsPushFrame(frames: seq<Frame>, tasks: seq<Task>, s: Shape, p: Pool, region: Region,
                            frames': seq<Frame>, frame: nat, task': Task)
    requires Represents(frames, tasks, s, p) && tasks[p.current].currentIndex == 29
    requires frame == TakenFrame(s) && |frames'| == (if frame < |frames| then |frames| else |frames| + 1)
    requires frame < |frames'| && |frames'[frame].regions| == 30 && frames'[frame].regions[0] == region
    requires frames'[frame].prev == tasks[p.current].currentFrame
    requires forall f :: 0 <= f < |frames| && f != frame ==> frames'[f] == frames[f]
    requires task' == tasks[p.current].(currentFrame := To(frame), currentIndex := 0)
    ensures frame <= |s.home|
    ensures Represents(frames', tasks[p.current := task'], AfterTake(s, p.current), Push(p, region))
  {
    var c := p.current;
    var task, chain, stack := tasks[c], s.chains[c], p.stacks[c];
    assert TaskOk(frames, tasks, s, p, c);
    DepthFacts(|stack|);
    PlacedAfterTake(s, c);
    LinkedApart(frames, frames', chain, frame);
    ChunkedKept(frames, frames', task, chain, stack);
    ChunkedPushFrame(frames', task, chain, stack, region, frame);
    PushConserves(p, region);
    var s' := AfterTake(s, c);
    FreeAfterTake(frames, s, c, frames');
    RepresentsAfter(frames, tasks, s, p, frames', task', s', Push(p, region), c, frame, chain + [frame],
                    stack + [region]);
  }

  lemma FreeAfterTake(frames: seq<Frame>, s: Shape, c: nat, frames': seq<Frame>)
    requires Placed(s) && c < |s.chains| && |frames| == |s.home| <= |frames'| && Linked(frames, s.free)
    requires forall f :: 0 <= f < |frames| && f != TakenFrame(s) ==> frames'[f] == frames[f]
    ensures TakenFrame(s) <= |s.home| && Linked(frames', AfterTake(s, c).free)
  {
    PlacedAfterTake(s, c);
    var free' := AfterTake(s, c).free;
    LinkedPrefix(frames, s.free, |free'|);
    assert free' == s.free[..|free'|];
    forall i | 0 <= i < |free'|
      ensures free'[i] != TakenFrame(s)
    {
      assert s.home[s.free[i]] == Free(i) && s.home[s.free[|s.free| - 1]] == Free(|s.free| - 1);
    }
    LinkedApart(frames, frames', free', TakenFrame(s));
  }

  /** A pop that leaves the top frame in place. */
  lemma RepresentsPop(frames: seq<Frame>, tasks: seq<Task>, s: Shape, p: Pool, t: nat, task': Task)
    requires Represents(frames, tasks, s, p) && t < |tasks| && p.stacks[t] != []
    requires tasks[t].currentIndex > 0
    requires task' == tasks[t].(currentIndex := tasks[t].currentIndex - 1)
    ensures Represents(frames, tasks[t := task'], s, Pop(p, t))
  {
    var task, chain, stack := tasks[t], s.chains[t], p.stacks[t];
    assert TaskOk(frames, tasks, s, p, t);
    DepthFacts(|stack|);
    DepthFacts(|stack| - 1);
    TopRegion(frames, task, chain, stack);
    TopFrame(s, t);
    ChunkedPrefix(frames, task, chain, stack, |stack| - 1);
    assert chain[..|chain|] == chain;
    PopConserves(p, t);
    RepresentsAfter(frames, tasks, s, p, frames, task', s, Pop(p, t), t, chain[|chain| - 1], chain,
                    stack[..|stack| - 1]);
  }

  /** The number of regions below the top frame. */
  function LowerDepth(depth: nat): (d: nat)
    requires depth > 0
    ensures d < depth
  {
    30 * (FramesFor(depth) - 1)
  }

  /** The pool without the regions in the top frame of a task. */
  function DropFrame(p: Pool, t: nat): Pool
    requires t < |p.stacks| && p.stacks[t] != []
  {
    p.(stacks := p.stacks[t := p.stacks[t][..LowerDepth(|p.stacks[t]|)]], free := p.free + 1)
  }

  lemma DropFacts(p: Pool, t: nat)
    requires ValidPool(p) && Conserved(p) && t < |p.stacks| && p.stacks[t] != []
    ensures ValidPool(DropFrame(p, t)) && Conserved(DropFrame(p, t))
    ensures ClearStack(DropFrame(p, t), t) == ClearStack(p, t)
    ensures |p.stacks[t]| % 30 == 1 ==> DropFrame(p, t) == Pop(p, t)
    ensures FramesFor(|DropFrame(p, t).stacks[t]|) == FramesFor(|p.stacks[t]|) - 1
    ensures (|DropFrame(p, t).stacks[t]| + 29) % 30 == 29
  {
    LowerDepthFacts(|p.stacks[t]|);
    InUseUpdate(p.stacks, t, p.stacks[t][..LowerDepth(|p.stacks[t]|)]);
    assert DropFrame(p, t).stacks[t := []] == p.stacks[t := []];
  }

  lemma LowerDepthFacts(depth: nat)
    requires depth > 0
    ensures FramesFor(LowerDepth(depth)) == FramesFor(depth) - 1
    ensures (LowerDepth(depth) + 29) % 30 == 29
    ensures depth % 30 == 1 ==> LowerDepth(depth) == depth - 1
  {
  }

  /** The chain below the top frame holds the regions below it. */
  lemma ChunkedDrop(frames: seq<Frame>, task: Task, chain: seq<nat>, stack: seq<Region>,
                    top: nat, frames': seq<Frame>)
    requires Chunked(frames, task, chain, stack) && stack != [] && task.currentFrame == To(top)
    requires top < |frames| && top !in chain[..|chain| - 1]
    requires |frames'| == |frames| && forall f :: 0 <= f < |frames| && f != top ==> frames'[f] == frames[f]
    ensures Chunked(frames', task.(currentFrame := frames[top].prev, currentIndex := 29),
                    chain[..|chain| - 1], stack[..LowerDepth(|stack|)])
  {
    TopRegion(frames, task, chain, stack);
    LowerDepthFacts(|stack|);
    var chain', stack' := chain[..|chain| - 1], stack[..LowerDepth(|stack|)];
    ChunkedPrefix(frames, task, chain, stack, |stack'|);
    LinkedApart(frames, frames', chain', top);
    ChunkedKept(frames, frames', task.(currentFrame := frames[top].prev, currentIndex := 29), chain', stack');
  }

  /** The top frame of a task goes to the free list. */
  lemma RepresentsDrop(frames: seq<Frame>, tasks: seq<Task>, s: Shape, p: Pool, t: nat,
                       top: nat, frames': seq<Frame>, task': Task)
    requires Represents(frames, tasks, s, p) && t < |tasks| && p.stacks[t] != []
    requires tasks[t].currentFrame == To(top) && top < |frames|
    requires frames' == frames[top := frames[top].(prev := Top(s.free))]
    requires task' == tasks[t].(currentFrame := frames[top].prev, currentIndex := 29)
    ensures s.chains[t] != [] && top == s.chains[t][|s.chains[t]| - 1] && top < |s.home|
    ensures Represents(frames', tasks[t := task'], AfterDrop(s, t), DropFrame(p, t))
  {
    var task, chain, stack, p' := tasks[t], s.chains[t], p.stacks[t], DropFrame(p, t);
    assert TaskOk(frames, tasks, s, p, t);
    TopRegion(frames, task, chain, stack);
    TopFrame(s, t);
    PlacedAfterDrop(s, t);
    ChunkedDrop(frames, task, chain, stack, top, frames');
    DropFacts(p, t);
    LinkedApart(frames, frames', s.free, top);
    LinkedSnoc(frames', s.free, top);
    RepresentsAfter(frames, tasks, s, p, frames', task', AfterDrop(s, t), p', t, top,
                    chain[..|chain| - 1], p'.stacks[t]);
  }

  // ------------------------------------------------------------------ task objects

  ghost predicate FreshTask(task: Task, parent: Word)
  {
    task.currentFrame == Null && task.currentIndex == 29 && task.parentHash == parent
  }

  lemma FreshTaskOk(frames: seq<Frame>, task: Task, parent: Word)
    requires FreshTask(task, parent)
    ensures Chunked(frames, task, [], [])
  {
  }

  /** A completed task object is handed out again. */
  lemma RepresentsReuse(step: HashStep, frames: seq<Frame>, tasks: seq<Task>, s: Shape, p: Pool,
                        task': Task)
    requires Represents(frames, tasks, s, p) && p.recycled != []
    requires FreshTask(task', p.parents[CreatedTask(p)])
    requires task'.next == tasks[CreatedTask(p)].next
    ensures Represents(frames, tasks[CreatedTask(p) := task'], AfterAbandon(s, CreatedTask(p)), ObtainTask(p))
  {
    var t, p' := CreatedTask(p), ObtainTask(p);
    var s', tasks' := AfterAbandon(s, t), tasks[t := task'];
    CreateConserves(step, p);
    PlacedAfterAbandon(s, t);
    TasksLinkedKept(tasks, tasks', p.recycled);
    TasksLinkedPrefix(tasks', p.recycled, |p.recycled| - 1);
    FreshTaskOk(frames, task', p'.parents[t]);
    forall u | 0 <= u < |tasks'|
      ensures TaskOk(frames, tasks', s', p', u)
    {
      assert TaskOk(frames, tasks, s, p, u);
    }
  }

  /** A new task object. */
  lemma RepresentsNewTask(step: HashStep, frames: seq<Frame>, tasks: seq<Task>, s: Shape, p: Pool,
                          task': Task)
    requires Represents(frames, tasks, s, p) && p.recycled == []
    requires FreshTask(task', 0)
    ensures Represents(frames, tasks + [task'], s.(chains := s.chains + [[]]), ObtainTask(p))
  {
    var p', s', tasks' := ObtainTask(p), s.(chains := s.chains + [[]]), tasks + [task'];
    CreateConserves(step, p);
    PlacedAfterNewTask(s);
    FreshTaskOk(frames, task', 0);
    forall u | 0 <= u < |tasks'|
      ensures TaskOk(frames, tasks', s', p', u)
    {
      if u < |tasks| {
        assert TaskOk(frames, tasks, s, p, u);
      }
    }
  }

  lemma RepresentsParent(step: HashStep, frames: seq<Frame>, tasks: seq<Task>, s: Shape, p: Pool,
                         t: nat, task': Task)
    requires Represents(frames, tasks, s, p) && t < |tasks|
    requires task' == tasks[t].(parentHash := SetParent(step, p, t).parents[t])
    ensures Represents(frames, tasks[t := task'], s, SetParent(step, p, t))
  {
    var p', tasks' := SetParent(step, p, t), tasks[t := task'];
    TasksLinkedKept(tasks, tasks', p.recycled);
    forall u | 0 <= u < |tasks'|
      ensures TaskOk(frames, tasks', s, p', u)
    {
      assert TaskOk(frames, tasks, s, p, u);
    }
  }

  /** A task object goes to the free list of task objects. */
  lemma RepresentsComplete(frames: seq<Frame>, tasks: seq<Task>, s: Shape, p: Pool, t: nat,
                           task': Task)
    requires Represents(frames, tasks, s, p) && t < |tasks| && t !in p.recycled
    requires task' == tasks[t].(next := Top(p.recycled))
    ensures Represents(frames, tasks[t := task'], s, CompleteTask(p, t))
  {
    var p', tasks' := CompleteTask(p, t), tasks[t := task'];
    forall i | 0 <= i < |p'.recycled|
      ensures NextOk(tasks', p'.recycled, i)
    {
      if i < |p.recycled| {
        assert NextOk(tasks, p.recycled, i);
        assert p.recycled[i] in p.recycled;
      }
    }
    forall u | 0 <= u < |tasks'|
      ensures TaskOk(frames, tasks', s, p', u)
    {
      assert TaskOk(frames, tasks, s, p, u);
    }
  }

  lemma RepresentsSwitch(frames: seq<Frame>, tasks: seq<Task>, s: Shape, p: Pool, t: nat)
    requires Represents(frames, tasks, s, p) && t < |tasks|
    ensures Represents(frames, tasks, s, SwitchTask(p, t))
  {
    var p' := SwitchTask(p, t);
    forall u | 0 <= u < |tasks|
      ensures TaskOk(frames, tasks, s, p', u)
    {
      assert TaskOk(frames, tasks, s, p, u);
    }
  }

  // ------------------------------------------------------------------ no frame is out of reach

  function Elements(list: seq<nat>): set<nat>
  {
    set i | 0 <= i < |list| :: list[i]
  }

  lemma {:induction false} ElementsCount(list: seq<nat>)
    requires forall i, j :: 0 <= i < j < |list| ==> list[i] != list[j]
    ensures |Elements(list)| == |list|
  {
    if list != [] {
      var last := |list| - 1;
      ElementsCount(list[..last]);
      assert Elements(list) == Elements(list[..last]) + {list[last]};
    }
  }

  /** The frames on the free list and in the chains of the first n tasks. */
  function Listed(s: Shape, n: nat): set<nat>
    requires n <= |s.chains|
  {
    if n == 0 then Elements(s.free) else Listed(s, n - 1) + Elements(s.chains[n - 1])
  }

  function Lengths(chains: seq<seq<nat>>): nat
  {
    if chains == [] then 0 else Lengths(chains[..|chains| - 1]) + |chains[|chains| - 1]|
  }

  lemma ChainCount(s: Shape, t: nat)
    requires Placed(s) && t < |s.chains|
    ensures |Elements(s.chains[t])| == |s.chains[t]|
    ensures forall f :: f in Elements(s.chains[t]) ==> f < |s.home| && s.home[f].InTask? && s.home[f].task == t
  {
    var chain := s.chains[t];
    forall i, j | 0 <= i < j < |chain|
      ensures chain[i] != chain[j]
    {
      assert s.home[chain[i]] == InTask(t, i) && s.home[chain[j]] == InTask(t, j);
    }
    ElementsCount(chain);
    forall f | f in Elements(chain)
      ensures f < |s.home| && s.home[f].InTask? && s.home[f].task == t
    {
      var i :| 0 <= i < |chain| && chain[i] == f;
      assert s.home[s.chains[t][i]] == InTask(t, i);
    }
  }

  lemma FreeCount(s: Shape)
    requires Placed(s)
    ensures |Elements(s.free)| == |s.free|
    ensures forall f :: f in Elements(s.free) ==> f < |s.home| && s.home[f].Free?
  {
    forall i, j | 0 <= i < j < |s.free|
      ensures s.free[i] != s.free[j]
    {
      assert s.home[s.free[i]] == Free(i) && s.home[s.free[j]] == Free(j);
    }
    ElementsCount(s.free);
  }

  /** Frames on the free list or in the chains of the first n tasks. */
  ghost predicate ListedAt(s: Shape, f: nat, n: nat)
  {
    f < |s.home| && s.home[f] != Lost && (s.home[f].InTask? ==> s.home[f].task < n)
  }

  lemma {:induction false} ListedCount(s: Shape, n: nat)
    requires Placed(s) && n <= |s.chains|
    ensures |Listed(s, n)| == |s.free| + Lengths(s.chains[..n])
  {
    if n == 0 {
      FreeCount(s);
    } else {
      ListedCount(s, n - 1);
      ListedStep(s, n);
      LengthsStep(s.chains, n);
    }
  }

  lemma ListedStep(s: Shape, n: nat)
    requires Placed(s) && 0 < n <= |s.chains|
    ensures |Listed(s, n)| == |Listed(s, n - 1)| + |s.chains[n - 1]|
  {
    ChainCount(s, n - 1);
    ListedApart(s, n - 1);
    UnionCount(Listed(s, n - 1), Elements(s.chains[n - 1]));
  }

  lemma LengthsStep(chains: seq<seq<nat>>, n: nat)
    requires 0 < n <= |chains|
    ensures Lengths(chains[..n]) == Lengths(chains[..n - 1]) + |chains[n - 1]|
  {
    assert chains[..n][..n - 1] == chains[..n - 1];
  }

  lemma {:induction false} ListedBelow(s: Shape, n: nat)
    requires Placed(s) && n <= |s.chains|
    ensures forall f :: f in Listed(s, n) ==> ListedAt(s, f, n)
  {
    if n == 0 {
      FreeCount(s);
    } else {
      ListedBelow(s, n - 1);
      ChainCount(s, n - 1);
    }
  }

  lemma ListedApart(s: Shape, n: nat)
    requires Placed(s) && n < |s.chains|
    ensures Listed(s, n) !! Elements(s.chains[n])
  {
    ListedBelow(s, n);
    ChainCount(s, n);
    forall f | f in Listed(s, n)
      ensures f !in Elements(s.chains[n])
    {
      assert ListedAt(s, f, n);
    }
  }

  lemma UnionCount(a: set<nat>, b: set<nat>)
    requires a !! b
    ensures |a + b| == |a| + |b|
  {
  }

  lemma {:induction false} LengthsInUse(chains: seq<seq<nat>>, stacks: seq<seq<Region>>)
    requires |chains| == |stacks|
    requires forall t :: 0 <= t < |chains| ==> |chains[t]| == FramesFor(|stacks[t]|)
    ensures Lengths(chains) == InUse(stacks)
  {
    if chains != [] {
      LengthsInUse(chains[..|chains| - 1], stacks[..|stacks| - 1]);
    }
  }

  lemma {:induction false} FullSet(elements: set<nat>, n: nat)
    requires |elements| == n && forall f :: f in elements ==> f < n
    ensures forall f :: 0 <= f < n ==> f in elements
  {
    if n > 0 {
      if n - 1 in elements {
        FullSet(elements - {n - 1}, n - 1);
      } else {
        BelowCount(elements, n - 1);
      }
    }
  }

  lemma {:induction false} BelowCount(elements: set<nat>, n: nat)
    requires forall f :: f in elements ==> f < n
    ensures |elements| <= n
  {
    if n == 0 {
      assert elements == {};
    } else {
      BelowCount(elements - {n - 1}, n - 1);
    }
  }

  /** As long as no frames are lost, every frame ever taken from memory is in exactly one place: at
      one position of the free list or on one level of one task's chain. */
  lemma EveryFrameHasOnePlace(frames: seq<Frame>, tasks: seq<Task>, s: Shape, p: Pool, f: nat)
    requires Represents(frames, tasks, s, p) && p.lost == 0 && f < |frames|
    ensures s.home[f] != Lost
    ensures forall i :: 0 <= i < |s.free| ==> (s.free[i] == f <==> s.home[f] == Free(i))
    ensures forall t, l :: 0 <= t < |s.chains| && 0 <= l < |s.chains[t]| ==>
              (s.chains[t][l] == f <==> s.home[f] == InTask(t, l))
  {
    var n := |s.chains|;
    ListedCount(s, n);
    ListedBelow(s, n);
    forall t | 0 <= t < n
      ensures |s.chains[t]| == FramesFor(|p.stacks[t]|)
    {
      assert TaskOk(frames, tasks, s, p, t);
    }
    LengthsInUse(s.chains, p.stacks);
    assert s.chains[..n] == s.chains;
    FullSet(Listed(s, n), |frames|);
    assert f in Listed(s, n);
    assert ListedAt(s, f, n);
    assert AtHome(s, f);
  }
}
