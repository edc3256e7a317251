# A verified model of the Score-P measurement core

Score-P's measurement core is C code that keeps state and runs on many processes at once. This
project models five parts of it in Dafny and proves what they promise.

* **User topologies** (`TopologyNames`, `TopologyGroups`, `TopologyUnify`, `TopologyMapping`,
  `LocationIds`). Every rank removes duplicate topology names, packs and exchanges them, numbers them
  globally, exchanges member lists and merges them into one group per topology. Afterwards rank 0
  replaces the coordinates by group indices, found with a downward scan. P ranks are a sequence of
  local definitions; all-gather and all-reduce are exact.
* **Tasks and events** (`TaskPool`, `TaskStack`, `LocationTasks`, `EventLog`, `EventRuns`,
  `EventHistory`, `Measurement`). The region stack of a task is a chain of 30-slot frames; frames and task objects are
  recycled through free lists. `TaskPool` says what the operations do to plain lists and proves what
  holds over whole runs; `TaskStack` and `LocationTasks` prove that the linked frames implement it.
  `EventLog` and `EventRuns` say the same for the events of a run, and `Measurement` proves it of the
  objects, from initialization to finalization. What a run leaves behind is also given by its history
  alone, without the state: the tasks in `TaskPool`, the whole log in `EventHistory`.
* **The Jenkins hash** (`LookupMix`, `JenkinsHash`, `HashVectors`): every way in which it is written
  computes the same reference function on 32-bit words, nothing of the key is lost before the result is
  cut out, and the reference function gives the values that the self-test of the C code lists.
* **Configuration values** (`CText`, `ConfigSize`, `ConfigBitset`, `BitsetParser`, `TokenLaws`,
  `ShellQuote`, `WrapLines`, `WrapLaws`): parsers, printers, quoting and word wrapping. `TokenLaws` and
  `WrapLaws` say what is read and printed in terms of characters.
* **Allocation and locations** (`AlignedMemory`, `LocationList`): aligned blocks with a hidden offset
  record, and a list that grows while it is traversed.

`Bits` and `FirstOccurrences` hold bit arithmetic on naturals and the removal of duplicates.

Conventions. A 32-bit word is a natural below 2^32, and wrap-around is written out. A pointer into
memory that is never given back is a position in a list. Clocks, the system's allocator, the callbacks
of other subsystems and the collective operations are parameters. Each imperative method states its
result by a function of its inputs or of the old state; the lemmas then say what that function means.

Where the code differs from what one would expect, the code is followed:

* The packing loop replaces the last character of a topology name by a terminator, so names that
  differ only there are exchanged as one, and a later list overwrites the first slots of an earlier one.
  `GroupIsUnionIff` says exactly when a group is still the union of all members; `ClashLosesMember` is a
  run in which it is not.
* The start position of the scan is 32-bit arithmetic. `LookupExact` says exactly when the scan
  succeeds; `LookupCanMiss` is a distribution where it wraps and the scan ends in the fatal case.
* A completed task keeps its frames; if it is reused, they are lost (`LossExactly`, `FrameLost`).
* The overflow tests of the size parser notice only results that got smaller (`MissedWrap`,
  `MissedScale`); `AcceptedIsExact` and `SizeExact` say exactly which accepted values are right.
* `parse_bitset` does not end if the first token is blank, for instance a tab: the search then starts
  over for ever (`BlankFirstRepeats`, `TabRepeats`). Otherwise it ends (`ParseBitset`).
* The size computed by the aligned allocation can wrap; the heap stays intact if and only if it does not
  (`ContainedIffNoWrap`, `AlignedMalloc`).
* Asked to close a task that is not current, the loop that exits all regions removes regions of the
  current task instead, until it exits from an empty stack. `CloseTaskEmpties` says exactly when it
  closes the task; both callers ask for the current one.
* An exit that does not name the innermost region still pops the stack, so the log cannot be closed
  (`WrongExitSpoils`, `WrongExitEnds`).

## Model

| member | source | states |
|---|---|---|
| `TopologyNames.PackNames` | src/measurement/SCOREP_Topologies.c:474-503 | the buffer holds the unique names one after the other, the last character of each overwritten by a terminator |
| `TopologyNames.BufferNext` | src/measurement/SCOREP_Topologies.c:496-503 | one name more in the buffer: all of its characters but the last, and a terminator in the place of that |
| `TopologyNames.UnpackRecoversName` | src/measurement/SCOREP_Topologies.c:569-571 | reading the C string at the running offset gives back every packed name, for any list of non-empty names |
| `TopologyNames.SharedIndex` | src/measurement/SCOREP_Topologies.c:573-594 | two (rank, local topology) pairs have the same global index if and only if their packed names are equal |
| `TopologyNames.IndicesDense` | src/measurement/SCOREP_Topologies.c:543-596 | the global indices are exactly 0 to one below the number of global names |
| `TopologyNames.LookUpOrAppend` | src/measurement/SCOREP_Topologies.c:573-594 | the search finds the first equal entry of the table or appends the name, and leaves the other entries |
| `TopologyNames.EnterNames` | src/measurement/SCOREP_Topologies.c:558-595 | one row: its packed names join the table in order of first occurrence, each mapped to its entry, unused slots to -1 |
| `TopologyNames.BuildGlobalTable` | src/measurement/SCOREP_Topologies.c:543-596 | over all rows the table is the list of distinct packed names, and every map entry is the global index of its name |
| `TopologyGroups.CollectUniqueNames` | src/measurement/SCOREP_Topologies.c:370-405 | the distinct names of the user topologies in order, and for each topology the index of its name |
| `TopologyGroups.UniqueNamesAre` | src/measurement/SCOREP_Topologies.c:370-405 | the unique names are the names of the user topologies, each once, and no others |
| `TopologyGroups.LocateCoord` | src/measurement/SCOREP_Topologies.c:426-469 | the downward scan for a coordinate returns the position that the reference search gives, or the fatal case |
| `TopologyGroups.FoundWithoutWrap` | src/measurement/SCOREP_Topologies.c:431-469 | without wrap-around of the start position every coordinate is found at the index of its location |
| `TopologyGroups.CollectMembers` | src/measurement/SCOREP_Topologies.c:409-472 | the members of every local group are the positions of its coordinates, each once |
| `TopologyGroups.MembersAre` | src/measurement/SCOREP_Topologies.c:409-472 | a location is a member of a name if and only if a coordinate of a user topology of that name is at it |
| `TopologyGroups.MembersFit` | src/measurement/SCOREP_Topologies.c:410-411 | a local group has no more members than the rank has locations, so the row it is written to is long enough |
| `TopologyGroups.FillSlots` | src/measurement/SCOREP_Topologies.c:600-617 | the exchange buffer: each list in the row of its global index, the rest of the row marked as unused |
| `TopologyGroups.PaddedSlots` | src/measurement/SCOREP_Topologies.c:600-617 | a list stands at the beginning of its row, and UINT64_MAX in every slot behind it |
| `TopologyUnify.GroupsAgree` | src/measurement/SCOREP_Topologies.c:624-668 | two ranks that own the same packed name compute the identical group |
| `TopologyUnify.GroupShape` | src/measurement/SCOREP_Topologies.c:625-668 | a group is strictly ascending and never larger than the number of all locations |
| `TopologyUnify.GroupIsSound` | src/measurement/SCOREP_Topologies.c:624-668 | whatever is in a group is a member, on some rank, of a topology of that packed name |
| `TopologyUnify.GroupHoldsMember` | src/measurement/SCOREP_Topologies.c:600-668 | a member of a rank is in the group if and only if it stands at a place of a list of that packed name on its rank that no later list of the name reaches |
| `TopologyUnify.SentIsKept` | src/measurement/SCOREP_Topologies.c:600-617 | a rank sends an element for a name if and only if it stands, in some list of that packed name, at a place that no later list of the name reaches |
| `TopologyUnify.GroupIsUnionIff` | src/measurement/SCOREP_Topologies.c:600-668 | the group is the union of the members on all ranks if and only if every member is kept in that sense on its rank |
| `TopologyUnify.GroupIsUnion` | src/measurement/SCOREP_Topologies.c:600-668 | in particular it is the union if no rank has two names that pack alike |
| `TopologyUnify.ClashLosesMember` | src/measurement/SCOREP_Topologies.c:496-503 | a run in which two names of a rank pack alike and a member is missing from the group |
| `TopologyUnify.AppendMember` | src/measurement/SCOREP_Topologies.c:645-659 | a location id is appended to a group unless it is there, and the group never outgrows its row |
| `TopologyUnify.MergeGroups` | src/measurement/SCOREP_Topologies.c:624-668 | after all rounds and the sort each group is the sorted list of distinct ids that were received for its name |
| `TopologyUnify.GatherNames` | src/measurement/SCOREP_Topologies.c:493-541 | every rank receives the packed names and lengths of all ranks |
| `TopologyUnify.ExchangeSlots` | src/measurement/SCOREP_Topologies.c:600-622 | every rank receives the same slots from all ranks |
| `TopologyUnify.OwnGroupsAreUnified` | src/measurement/SCOREP_Topologies.c:599-670 | the groups of all ranks: equal for equal packed names, ascending, within their buffers, and each the union of all members if and only if all members are kept |
| `TopologyUnify.UnifyUserTopologies` | src/measurement/SCOREP_Topologies.c:370-668 | the whole exchange over all ranks: each rank ends with the groups that the reference definition gives, so they are unified |
| `TopologyMapping.MapCoordinate` | src/measurement/SCOREP_Topologies.c:912-987 | a coordinate's rank becomes the index of its location, or for a user topology the index in the group; a coordinate of an MPI topology keeps its rank |
| `TopologyMapping.MapCoordinates` | src/measurement/SCOREP_Topologies.c:908-988 | the loop over all definitions does so for each of them; coordinates of MPI topologies keep their ranks, also if another one is the fatal case |
| `TopologyMapping.LocationRoundTrip` | src/measurement/SCOREP_Topologies.c:997-1070 | for process and platform topologies the two look-ups give back rank and thread if and only if the scan reaches the location; else it is the fatal case |
| `TopologyMapping.GroupRoundTrip` | src/measurement/SCOREP_Topologies.c:960-976 | the double indirection through the user group gives back rank and thread of every location that is in the group |
| `TopologyMapping.UserCoordRoundTrip` | src/measurement/SCOREP_Topologies.c:370-1070 | end to end: the mapping and the look-ups give back rank and thread of a coordinate of a user topology if and only if its location is kept in the exchange, so always without a clash |
| `LocationIds.GlobalIdRoundTrip` | src/measurement/scorep_location_management.c:416-443 | unpacking a global id gives back rank and thread |
| `LocationIds.GlobalIdIsSum` | src/measurement/scorep_location_management.c:416-420 | a global id is the thread times 2^32 plus the rank |
| `LocationIds.ThreadSurvivesPacking` | src/measurement/scorep_location_management.c:416-443 | for any C int as rank, the thread survives if and only if the rank is not negative or the thread has all bits set |
| `LocationIds.FindLocation` | src/measurement/SCOREP_Topologies.c:916-985 | the scan from min(start, count - 1) downward returns what the reference scan says |
| `LocationIds.LookupExact` | src/measurement/SCOREP_Topologies.c:431-469 | the scan ends at the one index that holds the id if and only if the 32-bit start position is not below it, else in the fatal case |
| `LocationIds.LookupFinds` | src/measurement/SCOREP_Topologies.c:921-927 | for any uneven distribution of threads over ranks the scan succeeds as long as the start position does not wrap |
| `LocationIds.LookupCanMiss` | src/measurement/SCOREP_Topologies.c:929 | 65537 ranks, the first with 65536 threads: the start position of the last rank wraps to 0 and the scan misses it |
| `LocationIds.LocationsDistinct` | src/measurement/SCOREP_Topologies.c:921-927 | in a list ordered by rank and thread no two locations have the same global id |
| `LocationTasks.TaskData.constructor` | src/measurement/SCOREP_Task.c:121-142 | a location starts with one current task that carries the fork hash of its parent and the id of the location, and nothing recycled |
| `LocationTasks.TaskData.AllocNewStackFrame` | src/measurement/SCOREP_Task.c:94-112 | the top of the free list is taken, else a new frame |
| `LocationTasks.TaskData.Enter` | src/measurement/SCOREP_Task.c:334-356 | the linked frames represent the stack with the region pushed; a frame is taken exactly when the top one is full |
| `LocationTasks.TaskData.PopStack` | src/measurement/SCOREP_Task.c:153-169 | the top region is gone; an emptied frame goes to the free list and the index is 29 again |
| `LocationTasks.TaskData.Exit` | src/measurement/SCOREP_Task.c:358-366 | pops the current task |
| `LocationTasks.TaskData.GetTopRegion` | src/measurement/SCOREP_Task.c:287-292 | the last region of the stack, or the invalid region if it is empty |
| `LocationTasks.TaskData.ClearStack` | src/measurement/SCOREP_Task.c:314-325 | all frames of the task are free and its stack is empty |
| `LocationTasks.TaskData.StackFrameAggregation` | src/measurement/SCOREP_Task.c:383-402 | the recursion over frames is the left fold over the regions they hold |
| `LocationTasks.TaskData.GetRegionStackHash` | src/measurement/SCOREP_Task.c:404-417 | the fold of the hash over the plain stack from the parent hash, 0 for an empty stack: frame boundaries do not show |
| `LocationTasks.TaskData.Create` | src/measurement/SCOREP_Task.c:182-221 | the task handed out has thread and generation as asked for, an empty stack, and the stack hash of the current task as parent hash: its first region is hashed on top of what that one has open. Thread and generation of all other tasks stay |
| `LocationTasks.TaskData.Complete` | src/measurement/SCOREP_Task.c:223-230 | the task object goes to the free list, its stack as it is |
| `LocationTasks.TaskData.Switch` | src/measurement/SCOREP_Task.c:232-239 | another task is current, nothing else changes |
| `TaskStack.EveryFrameHasOnePlace` | src/measurement/SCOREP_Task.c:74-112 | while no frames are lost, every frame ever allocated is at exactly one place: one level of one task, or one position of the free list |
| `TaskStack.TopRegion` | src/measurement/SCOREP_Task.c:287-292 | a chunked stack: its chain is empty exactly if the stack is, and current frame and index lead to the last region |
| `TaskStack.ChunkedPush` | src/measurement/SCOREP_Task.c:344-348 | a store into the next slot pushes a region without disturbing the others |
| `TaskStack.ChunkedPushFrame` | src/measurement/SCOREP_Task.c:349-355 | a store into a new top frame pushes a region |
| `TaskStack.ChunkedPrefix` | src/measurement/SCOREP_Task.c:156-168 | lower frames are full, so cutting the chain and the index to any smaller depth leaves that many regions |
| `TaskPool.StepConserves` | src/measurement/SCOREP_Task.c:74-366 | every operation keeps allocated = free + in use + lost, and allocates only when more frames are out than ever before |
| `TaskPool.RunConserves` | src/measurement/SCOREP_Task.c:74-366 | over any sequence of operations frames are conserved and the number allocated is the peak number out of the free list |
| `TaskPool.AllocatedIsPeak` | src/measurement/SCOREP_Task.c:94-112 | from the start of a location the number of frames ever allocated equals the peak number out of the free list, lost ones included |
| `TaskPool.NoFrameLost` | src/measurement/SCOREP_Task.c:223-230 | if tasks complete with empty stacks only, allocated frames are free or in use, none is lost |
| `TaskPool.AllocatedIsBusiest` | src/measurement/SCOREP_Task.c:94-112 | from the start of a location, if tasks complete with empty stacks only, the number of frames ever allocated is the largest number in stacks at one time |
| `TaskPool.LossAtReuse` | src/measurement/SCOREP_Task.c:189-201 | creation loses frames if and only if the reused task object still has some |
| `TaskPool.LossExactly` | src/measurement/SCOREP_Task.c:189-201 | over any run frames are lost if and only if a task object is reused whose stack is not empty |
| `TaskPool.FrameLost` | src/measurement/SCOREP_Task.c:223-230 | a run of six operations that loses a frame |
| `TaskPool.ChainHashIsFold` | src/measurement/SCOREP_Task.c:207-211 | along a chain of tasks with non-empty stacks the hash is the fold over the concatenated stacks |
| `TaskPool.HashIsWholePath` | src/measurement/SCOREP_Task.c:207-211 | after any run the hash of a task with open regions is the fold over its call path, which the history of operations tells: the path of the task that was current at its creation, what that one had open then, and what is open in it now |
| `TaskPool.RunTells` | src/measurement/SCOREP_Task.c:182-366 | after any run the current task, the tasks waiting for reuse, the open regions of each and the parent hash of each are what the history of operations tells |
| `TaskPool.CreatedInherits` | src/measurement/SCOREP_Task.c:207-211 | the first region of a new task is hashed on top of what its creator has open |
| `TaskPool.CreateExtendsChain` | src/measurement/SCOREP_Task.c:207-211 | a creation puts the stack of the current task at the end of the chain that the parent hash stands for |
| `TaskPool.RegionIsKey` | src/measurement/SCOREP_Task.c:383-402 | the value of a region is the key of a hashing step and the hash so far is its seed |
| `EventLog.ExitAllEmits` | src/measurement/SCOREP_Task.c:243-285 | the loops terminate and emit exactly the open unfiltered regions of the current task, innermost first, and leave other tasks alone |
| `EventLog.CloseTaskEmpties` | src/measurement/SCOREP_Task.c:249-261 | asked to close any task, the loop empties its stack if and only if the task is current or has filtered regions only; else it empties the stack of the current task and then exits from it |
| `EventLog.CloseCurrentTask` | src/measurement/SCOREP_Task.c:243-285 | asked to close the current task, the loop over a task is that one |
| `EventLog.ExitKeeps` | src/measurement/SCOREP_Events.c:286-300 | an exit of the innermost region keeps the log in step with the stacks |
| `EventLog.WrongExitSpoils` | src/measurement/SCOREP_Events.c:286-300 | after a recorded exit on top of another region that is not filtered, no continuation of the log is balanced |
| `EventRuns.WrongExitEnds` | src/measurement/SCOREP_Events.c:286-300 | after a recorded exit of another region than the innermost one, filtered or not, whatever actions follow, the finished log is not balanced if the task is current at the end |
| `EventRuns.ActKeeps` | src/measurement/SCOREP_Events.c:156-351 | every action of a run keeps nesting, time order and conservation, and takes no timestamp below the last one |
| `EventRuns.ActionsKeep` | src/measurement/scorep_location_management.c:445-457 | over any run with a clock that does not run backwards timestamps never fall and the next reading is not below the last timestamp, so the check never fails, and the log stays ordered and nested |
| `EventRuns.EndBalances` | src/measurement/SCOREP_RuntimeManagement.c:384-408 | closing at the end of the epoch balances the log if and only if no other task has recorded open regions |
| `EventRuns.WholeRun` | src/measurement/SCOREP_RuntimeManagement.c:337-408 | over any run the log starts and ends with the program events, is ordered in time, and is balanced exactly when no other task was left open |
| `EventHistory.RunLog` | src/measurement/SCOREP_Events.c:156-351 | after any run the log, the current task, its open regions and the last timestamp are what the actions tell: an event for every region entered or left that is not filtered, in the current task, with the next reading of the timer |
| `EventHistory.WholeLog` | src/measurement/SCOREP_RuntimeManagement.c:337-408 | the finished log of any run from its actions alone: that log, an exit for every region still open in the current task, innermost first, and the end of the program, each with its own reading of the timer in order |
| `EventHistory.WholeLogEndedAt` | src/measurement/SCOREP_RuntimeManagement.c:384-408 | if another location finalizes, the exits that close the main location and the end of the program all carry the time of the end |
| `Measurement.Location.EnterRegion` | src/measurement/SCOREP_Events.c:205-225 | one timer reading, the region on the stack of the current task, one event |
| `Measurement.Location.ExitRegion` | src/measurement/SCOREP_Events.c:335-350 | one timer reading, one event, then the top of the stack of the current task is gone |
| `Measurement.Location.LocationExitRegion` | src/measurement/SCOREP_Events.c:353-375 | the same with a given timestamp |
| `Measurement.Location.TaskExitAllRegions` | src/measurement/SCOREP_Task.c:243-262 | the loop ends in the state that the specification gives, with one timer reading for each unfiltered region |
| `Measurement.Location.LocationTaskExitAllRegions` | src/measurement/SCOREP_Task.c:264-285 | the same with all exits at one given time |
| `Measurement.Location.Run` | src/measurement/SCOREP_Events.c:156-351 | a run of enters, exits and task operations on the objects ends in the state that the reference run gives |
| `Measurement.Process.InitMeasurement` | src/measurement/SCOREP_RuntimeManagement.c:433-643 | the first call begins the epoch on a new main location, later calls change nothing |
| `Measurement.Process.BeginEpoch` | src/measurement/SCOREP_RuntimeManagement.c:337-374 | the first event is the beginning of the program at the time the epoch begins |
| `Measurement.Process.EndEpoch` | src/measurement/scorep_clock_synchronization.c:76-84 | succeeds if and only if the timer advanced since the beginning; then all regions are closed at the end time and the program end follows, at the time that the end of the epoch is set to |
| `Measurement.Process.Finalize` | src/measurement/SCOREP_RuntimeManagement.c:879-934 | does nothing unless initialized, not finalized and not aborted; else the main log is finished, also when another location finalizes |
| `Measurement.Measure` | src/measurement/SCOREP_RuntimeManagement.c:433-934 | initialization, any actions on the main location and finalization, on the objects: it fails if and only if the timer did not advance, else the log is the finished log of that run |
| `Measurement.MeasureAborted` | src/measurement/SCOREP_RuntimeManagement.c:879-934 | after an abort finalization changes nothing: the log holds what the run recorded and has no end |
| `LookupMix.MixInPlace` | common/hash/jenkins_hash.h:114-122 | the six assignments compute the mixing function on wrapping 32-bit words |
| `LookupMix.FinalInPlace` | common/hash/jenkins_hash.h:149-158 | the seven assignments compute the final function |
| `LookupMix.RotIsRotation` | common/hash/jenkins_hash.h:68 | a rotation to the left, in plain arithmetic: the low 32 - k bits times 2^k plus the high k bits |
| `LookupMix.MixIsBijection` | common/hash/jenkins_hash.h:70-113 | mix is reversible: an explicit inverse on both sides |
| `LookupMix.FinalIsBijection` | common/hash/jenkins_hash.h:124-148 | final is reversible: an explicit inverse on both sides |
| `JenkinsHash.HashLittle` | common/hash/jenkins_hash.h:186-236 | the little-endian digest of the key, primary value |
| `JenkinsHash.HashBig` | common/hash/jenkins_hash.h:262-312 | the same digest on words composed in big-endian order |
| `JenkinsHash.Hash` | common/hash/jenkins_hash.h:320-327 | the byte order of the machine selects between the two |
| `JenkinsHash.HashWord` | common/hash/jenkins_hash.c:70-103 | the digest of a word array |
| `JenkinsHash.HashWord2` | common/hash/jenkins_hash.c:106-150 | the digest of a word array with two seeds, both values |
| `JenkinsHash.HashLittle2Aligned4` | common/hash/jenkins_hash.c:172-243 | the 32-bit reads give both values of the digest, whatever lies behind the key |
| `JenkinsHash.HashLittle2Aligned2` | common/hash/jenkins_hash.c:244-290 | the 16-bit reads give both values of the digest |
| `JenkinsHash.HashLittle2Unaligned` | common/hash/jenkins_hash.c:291-333 | the byte reads give both values of the digest |
| `JenkinsHash.HashLittle2` | common/hash/jenkins_hash.c:162-336 | for every address, key and pair of seeds all three branches return the same pair |
| `HashVectors.FourScore` | common/hash/jenkins_hash.c:574-575 | the digest of the listed 30-byte key without seeds has the two listed values, 17770551 and ce7226e6 |
| `HashVectors.KeyIsText` | common/hash/jenkins_hash.c:574-575 | that key is the listed text |
| `HashVectors.EmptyKey` | common/hash/jenkins_hash.c:568-573 | the digest of the empty key has the listed values for the three listed pairs of seeds |
| `JenkinsHash.WordFormsAgree` | common/hash/jenkins_hash.c:58-69 | hashing a word array as words is hashing the bytes it occupies, in either byte order |
| `JenkinsHash.CompareForms` | common/hash/jenkins_hash.c:433-545 | hashword, hashword2, hashlittle, hashlittle2 and hashbig agree on every word array and seed |
| `JenkinsHash.DigestIsBijection` | common/hash/jenkins_hash.h:194-235 | for a fixed key the digest is reversible from its final state |
| `JenkinsHash.BlockReachesState` | common/hash/jenkins_hash.h:199-209 | two word keys of equal length that differ in exactly one block end in different states |
| `JenkinsHash.KeyBlockReachesState` | common/hash/jenkins_hash.h:186-236 | two byte keys of equal length and seed that differ in exactly one 12-byte block end in different internal states |
| `ConfigSize.ParseUint64` | src/measurement/SCOREP_Config.c:1163-1209 | white space, digits, and the number with the check that only notices smaller results; range and format errors |
| `ConfigSize.WrappedIsModulo` | src/measurement/SCOREP_Config.c:1185-1199 | what is accepted is the written number modulo 2^64 |
| `ConfigSize.AcceptedIsExact` | src/measurement/SCOREP_Config.c:1189-1193 | an accepted number is the written one if and only if that is below 2^64 |
| `ConfigSize.MissedWrap` | src/measurement/SCOREP_Config.c:1189-1193 | the text 30000000000000000000 is accepted as another number |
| `ConfigSize.ScaleFactor` | src/measurement/SCOREP_Config.c:1275-1297 | the fall-through cases multiply by 1024 to the power of the unit |
| `ConfigSize.ParseSize` | src/measurement/SCOREP_Config.c:1249-1347 | number, unit, optional B once, white space; all error cases |
| `ConfigSize.SizeTextAccepted` | src/measurement/SCOREP_Config.c:1249-1347 | every text of that form is read as its number and unit say |
| `ConfigSize.AcceptedIsSizeText` | src/measurement/SCOREP_Config.c:1249-1347 | only texts of that form are accepted |
| `ConfigSize.SizeExact` | src/measurement/SCOREP_Config.c:1335-1343 | an accepted size is the written one if and only if that is below 2^64 |
| `ConfigSize.MissedScale` | src/measurement/SCOREP_Config.c:1336 | the text 19140298416324608K, more than 2^64, is accepted as 2^60 |
| `ConfigSize.RejectedBecause` | src/measurement/SCOREP_Config.c:1249-1347 | a value is out of range exactly if the check in the number fires, and invalid exactly if it does not and the value is no size at all |
| `ConfigSize.UnitMeans` | src/measurement/SCOREP_Config.c:1275-1319 | one of the six unit letters in either case, perhaps with a b behind it, multiplies by the first to sixth power of 1024; a b alone does not multiply |
| `ConfigSize.DefaultTotalMemory` | src/measurement/scorep_environment.c:151 | the default of the total memory, 16000k, is read as 16384000 |
| `ConfigSize.DumpSize` | src/measurement/SCOREP_Config.c:1685-1703 | prints the value divided by the largest power of 1024 that divides it, with its suffix |
| `ConfigSize.LargestUnitPrinted` | src/measurement/SCOREP_Config.c:1690-1702 | the unit printed is the largest power of 1024 that divides the value, up to the sixth, and the number in front of it is the quotient |
| `ConfigSize.SizeRoundTrip` | src/measurement/SCOREP_Config.c:1685-1703 | every 64-bit value survives printing and parsing, and no check fires |
| `ShellQuote.QuotedLength` | src/measurement/SCOREP_Config.c:1556-1570 | the first loop counts the length of the quoted string |
| `ShellQuote.SingleQuote` | src/measurement/SCOREP_Config.c:1553-1605 | the second loop writes exactly as many characters as were counted, which are the quoted string, and a terminator follows |
| `ShellQuote.ReadQuoted` | src/measurement/SCOREP_Config.c:1552-1605 | in front of any other text a quoted string is read as the string |
| `ShellQuote.QuoteRoundTrip` | src/measurement/SCOREP_Config.c:1552-1605 | the shell's quoting rules give back every string |
| `ShellQuote.NoBangExposed` | src/measurement/SCOREP_Config.c:1552-1605 | in a quoted string no exclamation mark stands within single quotes, nor outside of them without a backslash |
| `ConfigBitset.EqualIcaseN` | src/measurement/SCOREP_Config.c:993-1005 | comparison regardless of case, from the end |
| `CText.CharacterCodes` | src/measurement/SCOREP_Config.c:998 | the classification of white space and digits and the conversion to upper case, by character codes |
| `ConfigBitset.StringInAliasList` | src/measurement/SCOREP_Config.c:1400-1425 | true exactly if one of the names between slashes is the given one regardless of case |
| `TokenLaws.NamedBySlashed` | src/measurement/SCOREP_Config.c:1400-1425 | for any names without slashes, joined by slashes: a text is found if and only if it equals one of them regardless of case |
| `ConfigBitset.FindEntry` | src/measurement/SCOREP_Config.c:1464-1486 | the first entry that has the text among its names, regardless of case, or none |
| `ConfigBitset.EffectSucceeds` | src/measurement/SCOREP_Config.c:1487-1492 | parsing succeeds if and only if every token names an entry |
| `ConfigBitset.UnknownTokenEnds` | src/measurement/SCOREP_Config.c:1487-1492 | the first unknown token ends the parsing without success, with the bits that the tokens in front of it left |
| `ConfigBitset.LastTokenDecides` | src/measurement/SCOREP_Config.c:1447-1493 | on success a bit is set if and only if the last token whose entry has the bit is not negated |
| `TokenLaws.TokensOfText` | src/measurement/SCOREP_Config.c:1451 | any text of words with spaces, commas, colons and semicolons in any number between, before and behind them, and other white space around them, is taken apart into those words |
| `TokenLaws.TokensClean` | src/measurement/SCOREP_Config.c:1451-1456 | of any value no token is empty, contains one of the four separators, or begins or ends with white space |
| `TokenLaws.PlainTokenAdds` | src/measurement/SCOREP_Config.c:1461-1486 | a token without a tilde in front adds the bits of the first entry of that name, or fails |
| `TokenLaws.TildeTokenRemoves` | src/measurement/SCOREP_Config.c:1461-1486 | with a tilde in front it removes them |
| `TokenLaws.NoneIsEmpty` | src/measurement/SCOREP_Config.c:1434-1438 | the values that mean the empty set are no and none in any case |
| `ConfigBitset.DumpBitset` | src/measurement/SCOREP_Config.c:1613-1649 | prints the quoted first names of the entries taken greedily, with commas between them |
| `ConfigBitset.DumpedAre` | src/measurement/SCOREP_Config.c:1622-1647 | an entry is printed if and only if all its bits are in the mask and no entry printed before it has one of them; left over are the bits of the mask that no printed entry has |
| `ConfigBitset.BitsetRoundTrip` | src/measurement/SCOREP_Config.c:1613-1649 | parsing what the shell makes of the output gives the mask without the greedy residue, so the mask itself if and only if the residue is empty |
| `ConfigBitset.DisjointLeavesUncovered` | src/measurement/SCOREP_Config.c:1622-1644 | with pairwise disjoint values the residue is what no value within the mask covers |
| `ConfigBitset.CoveredRoundTrip` | src/measurement/SCOREP_Config.c:1613-1649 | a mask covered by pairwise disjoint values survives printing and parsing |
| `ConfigBitset.OverlapLosesBits` | src/measurement/SCOREP_Config.c:1622-1644 | with overlapping values a mask covered by the table loses a bit when it is printed and parsed |
| `BitsetParser.Strtok` | src/measurement/SCOREP_Config.c:1451 | the next token, between two of the four separators, is terminated in the buffer and the search position moves behind it |
| `BitsetParser.TrimString` | src/measurement/SCOREP_Config.c:1373-1397 | white space at both ends of the string is cut off in place and nothing else changes |
| `BitsetParser.NextEntry` | src/measurement/SCOREP_Config.c:1451 | strtok and trimming in the buffer give the next entry, the buffer and the search position of the reference pass |
| `BitsetParser.ParseBitset` | src/measurement/SCOREP_Config.c:1427-1501 | the loop over tokens in the buffer ends if and only if the value means none or its first token is not blank, within one turn more than the value has characters, with success and mask of the reference definition |
| `BitsetParser.BlankFirstRepeats` | src/measurement/SCOREP_Config.c:1451-1459 | with a blank first token every turn of strtok and trimming, however many came before, starts at the beginning of the buffer and finds an empty entry |
| `BitsetParser.TabRepeats` | src/measurement/SCOREP_Config.c:1451-1459 | for a value of one tab every turn does so, whatever their number |
| `BitsetParser.DumpIsParsable` | src/measurement/SCOREP_Config.c:1613-1649 | the output of a dump has no blank first token and no terminator inside |
| `WrapLines.Wrap` | src/measurement/SCOREP_Config.c:671-759 | for every message, width and indent the loop terminates and prints the greedy layout of the words |
| `WrapLines.Separate` | src/measurement/SCOREP_Config.c:692-726 | the separators of the switch with its fall-through cases |
| `WrapLines.PlaceAllIsLayout` | src/measurement/SCOREP_Config.c:671-759 | the layout holds exactly the words in order, lines of several words fit the column, lines end only where they must |
| `WrapLines.LayoutIsGreedy` | src/measurement/SCOREP_Config.c:671-759 | there is no other layout with these properties |
| `WrapLaws.PrintsAll` | src/measurement/SCOREP_Config.c:671-759 | of any message all characters that are not white are printed, in order, and no others |
| `WrapLaws.TwoWords` | src/measurement/SCOREP_Config.c:671-759 | what is printed for any message of two words: a space if both fit the column, a new line and the indent if not or if a newline follows the first, an empty line in between if two do |
| `WrapLaws.NoHardSpaces` | src/measurement/SCOREP_Config.c:651-669 | no non-breaking space is printed |
| `AlignedMemory.AlignedAddress` | src/measurement/SCOREP_Memory.c:396-398 | the mask rounds up to the first multiple of the alignment that leaves room for the record |
| `AlignedMemory.ContainedIffNoWrap` | src/measurement/SCOREP_Memory.c:393 | the user's bytes lie within the raw block if and only if the computed size did not wrap |
| `AlignedMemory.SizeAskedFor` | src/measurement/SCOREP_Memory.c:393 | the computed size is that of the user plus the alignment plus one, less 2^64 if it wraps |
| `AlignedMemory.PowersAccepted` | src/measurement/SCOREP_Memory.c:371-387 | accepted are the powers of two from the alignment of the allocator up to 2^15, for at least one byte |
| `AlignedMemory.NewBlock` | src/measurement/SCOREP_Memory.c:401-404 | handing out a block with any contents and writing its record keeps every other record and block intact |
| `AlignedMemory.ClientByte` | src/measurement/SCOREP_Memory.c:367-412 | a write inside a user range changes no record |
| `AlignedMemory.Heap.AlignedMalloc` | src/measurement/SCOREP_Memory.c:367-412 | null exactly for the rejected requests or a failed allocation; else aligned, with a 16-bit offset record, and the heap stays intact if and only if the computed size did not wrap |
| `AlignedMemory.Heap.ClientWrite` | src/measurement/SCOREP_Memory.c:361-365 | all blocks stay intact when a client writes into its range |
| `AlignedMemory.Heap.AlignedFree` | src/measurement/SCOREP_Memory.c:415-429 | exactly the raw address of the block is given back and the other blocks stay intact |
| `AlignedMemory.Heap.Run` | src/measurement/SCOREP_Memory.c:361-429 | over any history of allocations, writes and frees without wrap-around the system gets back exactly the raw addresses it handed out, in the order of the frees |
| `AlignedMemory.TwoBlocks` | src/measurement/SCOREP_Memory.c:361-429 | from an empty heap: two blocks side by side are granted, written to and given back |
| `LocationList.LocationManagement.CreateLocation` | src/measurement/scorep_location_management.c:127-162 | the new location is appended through the tail pointer, the rest of the list is unchanged |
| `LocationList.LocationManagement.CreateNonCPULocation` | src/measurement/scorep_location_management.c:165-186 | appended; once initialisation is not deferred it and all its callbacks create is initialised before the call returns |
| `LocationList.LocationManagement.CreateCPULocation` | src/measurement/scorep_location_management.c:189-209 | appended and not initialised here |
| `LocationList.LocationManagement.ActivateInitLocations` | src/measurement/scorep_location_management.c:252-282 | terminates for every finite creation behaviour and initialises every listed location with its parent, also those appended meanwhile, and activates the CPU locations among them and no others |
| `LocationList.InitializedInOrder` | src/measurement/scorep_location_management.c:258-262 | initialisations happen in the order of creation, so none happens twice |
| `LocationList.InitializedIff` | src/measurement/scorep_location_management.c:252-282 | exactly the locations listed at activation and the non-CPU ones created later are initialised, with their parents |
| `LocationList.ActivatedIff` | src/measurement/scorep_location_management.c:264-270 | exactly the CPU locations listed at activation are activated, with their parents |
| `LocationList.EventsWellPlaced` | src/measurement/scorep_location_management.c:262-270 | every event is about a location and its parent, and an activation comes directly behind the initialisation of the same location |
| `LocationList.ActivatedOnce` | src/measurement/scorep_location_management.c:264-270 | activations happen in the order of creation, so none happens twice |

## Left out

- AlignedMemory.Heap.AlignedMalloc: addresses are below 2^63, where the signed casts do not matter. The check for out of memory, which aborts, is not modelled.
- AlignedMemory.Heap.Run: histories hold no request whose computed size wraps, since the heap is not intact after one.
- Measurement.Process.InitMeasurement: of the initialization only the main location, the epoch and the phase; configuration, subsystems and substrates are not part of this model. Recording is on throughout.
- Measurement.Process.Finalize: exit callbacks, synchronization, subsystems and everything after the end of the epoch are left out. A failed assertion on the timer is an out-parameter.
- LocationTasks.TaskData.GetRegionStackHash: the hash value of a region is any function of the region; for a filtered region, whose handle the code dereferences as well, the model takes any value.
- LocationTasks.TaskData.Create: substrate data and the notification of substrates are left out. Memory of new objects is never exhausted.
- TopologyUnify.UnifyUserTopologies: the ranks run in lockstep between collective operations, and the gathered buffers are padded to the common width, which stands for the bytes that the code reads past a shorter rank's buffer. There are fewer than 2^32 locations, the width of the stored index.
- LocationIds.FindLocation: the location list is the one that the comment at SCOREP_Topologies.c:921-927 describes; `scorep_unify_helper_*` is not part of this model.
- JenkinsHash.HashLittle2: addresses enter only through their alignment; bytes behind the key are arbitrary. The branch for memory checkers (jenkins_hash.c:222-242) is the byte-wise switch again.
- BitsetParser.ParseBitset: it runs for a given number of turns of the loop, as for some values the loop has no end; a failed allocation of the copy is left out.
- ConfigBitset.DumpBitset: a 64-bit mask is the set of its bits, since only and, or and complement act on it.
- ConfigSize.ParseSize: error messages are left out, and so is the number that a late failure leaves in the reference.
- WrapLines.Wrap: the HTML mode is left out; arithmetic on widths does not overflow.
- LocationList.LocationManagement.ActivateInitLocations: the callbacks are a finite tree of creations; locks, and locations created by other threads meanwhile, are left out.
- Creation of CPU locations sets a thread id from the operating system, which is left out.
- Unwinding and sampling are off; forwarders for MPI, RMA, I/O and similar events only read a clock and call a callback.
- The list of the tracing page managers is left out.
- The interpolation of timestamps rests on rounding of doubles and is left out.
- Parsers for booleans, option sets and strings, and the help output around `wrap_lines`, are left out.
