# vmill in Dafny

vmill runs machine code by translating it. It decodes code into traces, lifts each trace to a graph
of basic blocks, and runs the result over an emulated copy-on-write address space under a
cooperative Linux scheduler. This project models the parts whose correctness is not visible in any
one function, and proves the properties that span them. `dafny verify dfyconfig.toml` checks all of
it.

## Parts

| files | what they model |
|---|---|
| Program, Decoder, Lifter, Interpreter, TraceFlow, Executor, ExecutorRuns | decoding, lifting, runs of lifted code against a flat fetch-execute loop, what traces have to do with runs, the live-trace table, and runs whose lookups it answers |
| Pages, MappedRange, Tiling, RangeCache, ByteAccess, RangeList, AddressSpace, TypedAccess, Family, MemoryCalls | emulated memory, values in it, cloning, the mmap and munmap system calls |
| ControlFlow, EdgeSplitting, SplitRuns, Coverage | branch coverage by edge splitting, with PHI repair |
| TaskStatus, TaskRuns, LiftedTasks | the status of a task, runs of many tasks, and what runs of lifted code do to it |
| Rounds, LinuxTasks, Scheduler, Futex | scheduler rounds as a function, tasks with their list and ring, the scheduler, futex wake and wait |
| Allocators, Zones, ZoneAllocators | the bump area and the recycling zone allocator |
| Coroutines | the x86-64 stack switch |
| FileCache | the file-backed cache |
| Options | values that may be missing |

## Main results

- **Translation.** For any instruction semantics that agrees with the decoder about direct control
  flow, a run of the lifted graphs executes exactly the PCs of the flat interpreter
  (`LiftedRunFollowsFlatRun`), and leaves out none of them unless a memory fault ends it
  (`FlatRunIsExecuted`). This holds of runs in which the executor decodes and lifts on demand, as long
  as its functions hold their heads, which in closed code they do (`RunSteps`, `RunInstructions`).
  Lifted code keeps the structure of calls and returns (`StructureIsKept`), and a trace is the least
  set of PCs that direct flow does not leave (`TraceIsLeastClosed`).
- **Memory.** Any history of map, unmap, protect, clone, and reads and writes of bytes and of values,
  over a family of spaces, behaves as if every space had a byte map of its own and cloning copied it
  (`Families.Run`). After the permissions of part of a map have been changed, only reads and typed
  writes that touch that map are affected. Without such changes, a history only ever stops at a step
  that is out of range, a map or unmap whose end a map straddles, or a clone of a split range.
- **Coverage.** The instrumented graph visits the same blocks with the same PHI values, and makes
  exactly one call with the edge's own number on each instrumented edge it takes
  (`InstrumentedRun`, `OneReportPerEdge`, `DistinctReports`).
- **Tasks.** In every run of many tasks, a task that has recorded a fault, an error or an exit never
  gets control again, and its first fault stays (`DoomedIsNeverEntered`). Every run of lifted code is
  such a run (`LiftedRunIsPermitted`), so where the program cannot go on, its task is stopped for good
  (`FlatEndIsFinal`), and so it is where it gives up control after a memory fault (`FaultIsFinal`).
- **Scheduling.** The scheduler does to all tasks what a function of the code in them says
  (`Scheduler.Round`), in which each task gets one turn and what its code does is all that happens to
  it, but for being unblocked (`RoundIsOk`). It returns only when every task is stopped, and nothing
  about a stopped task changes (`Scheduler.Resume`). A futex waiter is unblocked exactly by a wake on its
  address in its address space with a bitset in common (`WaitThenWake`). Whatever other tasks do, a wait
  on a nonzero address is run again within 101 rounds, and completes then (`FutexWait`).
- **Allocation.** Live, free and skipped bytes always add up, blocks never overlap, and every block
  handed out is zeroed (`Conserved`, `ZoneAllocator.Allocate`).

## Where the code does less than it is meant to

All but the last of these follow the code as it is, and say exactly when it does what is meant.

- Removing a range has no case for a map that starts inside the range and ends behind it. A map or
  unmap step keeps the tiling exactly if there is no such map (`MapStepTilesIffNoStraddle`).
- A cache hit only tests whether the range contains the page. The cache gives what a scan would give
  exactly if all pages of each indexed range are indexed (`TransparentIffUniform`). For reads, that
  means that each valid map can be accessed as a whole or not at all, whatever the kinds of access
  (`IndexesAreUniformIff`), and reads are always those of the byte map exactly then
  (`ReadsAreAlwaysFlatIff`). Changing the permissions of part of a map breaks this exactly if the part
  becomes accessible and the rest is not, or the other way round (`SetPermissions`). What counts for
  a single read is the map it is in: it is always that of the byte map exactly if no page of the map is
  accessible, or every page that the read touches is (`ReadInMapIff`, and for all reads inside an
  interval `ReadsWithinAreFlatIff`).
- A typed write that finds a range through the write cache asks for no permission. It always respects
  permissions exactly if it crosses pages, or its page is writable, or no page of the map it is in is
  writable and not executable (`StoreIsAlwaysCheckedIff`, and for all writes `FastPathIsCheckedIff`).
  Otherwise a write to another page of the map opens the way (`WriteUnchecked`, with a witness in
  `ReadOnlyPageIsWritten`).
- The highest range ends at the last address rather than behind it. A hole is on a page exactly if it
  is not found at the top of the space (`FindHole`, with a witness in `UnalignedHole`).
- Cloning a copy-on-write range uses the bounds of the array behind it. A space's clones tile exactly
  if no copy-on-write range has been split (`ClonesTileIffWhole`, with a witness in
  `CloneOfSplitGrows`).
- A failed decode leaves its work list behind, and the next trace can lose its own head
  (`FailedDecodeLosesNextHead`). It keeps its head exactly if everything that the leftover work list
  leads to, along PCs below the head, decodes (`HoldsHeadIff`, and for all traces of one decoding
  `TracesHoldHeadsIff`).
- The loop over a switch's edges counts its cases but indexes its successors, and successor zero is
  the default. The last case is never instrumented (`SwitchIsCoveredIff`).
- A futex wait on address zero is taken for a new wait each time it is run
  (`ResumedWaitCompletesIff`). The time-out result is never returned (`GivesUpIff`).
- An exit only stops a task because a jump follows each hyper call (`ExitNeedsJump`).
- The sub-range copy-on-write constructor reads the member `parent` where its argument is meant
  (vmill/Program/MappedRange.cpp:345). The model uses the argument.

## Model

| member | source | states |
|---|---|---|
| Lifter.LiftTrace | vmill/BC/Lifter.cpp:223-384 | the graph has exactly one block per instruction and per successor, each with the body and terminator its instruction calls for; every block is terminated |
| Lifter.ConnectBlocks | vmill/BC/Lifter.cpp:280-373 | after the loop over the instructions, exactly those blocks are wired to their successors, and all targets exist |
| Lifter.TerminateStragglers | vmill/BC/Lifter.cpp:375-381 | blocks without a terminator, and only those, get the missing-block tail call |
| Interpreter.ExecuteStep | vmill/BC/Lifter.cpp:297-372 | running a block with an instruction is one step of the flat loop, from related states to related states |
| Interpreter.StutterStep | vmill/Executor/Runtime.cpp:374-408 | every other step (intrinsics, lookups, returns to callers) leaves the flat state where it is and executes nothing |
| Interpreter.StepFollows | vmill/Executor/Runtime.cpp:374-542 | with a good answer to each lookup, every step keeps the log a prefix of the flat run, with the flat PC, state and first fault, and executes an instruction or gets closer to one |
| Interpreter.LiftedRunFollowsFlatRun | vmill/BC/Lifter.cpp:200-384 | after any number of machine steps, the PCs executed are the first ones of the flat run, and PC, state and first memory fault are the flat ones |
| Interpreter.DispatcherSeesFlatPc | vmill/Executor/Runtime.cpp:493-542 | whenever control is back in the dispatcher, the task's PC and state are the flat interpreter's |
| Interpreter.StutterDecreasesRank | vmill/Executor/Runtime.cpp:382-408 | the machine cannot go on forever without executing an instruction |
| Interpreter.NextExecution | vmill/Executor/Runtime.cpp:382-408 | from any point, the machine reaches its next instruction or halts, and executes nothing on the way |
| Interpreter.FlatRunIsExecuted | vmill/BC/Lifter.cpp:200-384 | every flat prefix without a failure is executed by some machine run, unless an earlier instruction faulted and the machine has halted because of it |
| Interpreter.FlatEndStopsTask | vmill/Executor/Runtime.cpp:374-385 | if the flat run fails at an instruction, or a hyper call stops it, the task stops for good; if nothing has faulted, with that PC and state, after executing all before it and nothing else |
| Interpreter.StructureIsKept | vmill/BC/Lifter.cpp:280-373 | after each instruction, lifted code goes on in the same function, returns to its caller, or enters a declared callee, all without giving up control, or gives it up at a jump, hyper call or other call; exactly calls leave a caller waiting, with the PC behind the call |
| Interpreter.ReturnResumesCaller | vmill/BC/Lifter.cpp:286-345 | a callee that returns to the PC behind the call resumes its caller there; if it returns to another PC, the caller returns as well |
| Decoder.DecodeTrace | vmill/Arch/Decoder.cpp:162-195 | one trace: the instructions, the leftover work list and the call targets are those of the work-list closure |
| Decoder.TraceIsReachableSet | vmill/Arch/Decoder.cpp:64-94 | a trace holds only PCs reachable by direct flow; decoding it succeeds if and only if all of these decode, and it then holds every one of them, with nothing left over |
| TraceFlow.DecoderFollowsFlow | vmill/Arch/Decoder.cpp:64-94 | the decoder follows an instruction exactly to the PCs that running it can result in, and calls to behind themselves |
| TraceFlow.TraceIsLeastClosed | vmill/Arch/Decoder.cpp:64-190 | a trace that decodes is the least set that holds its head and that control does not leave but by calls, returns, indirect jumps and hyper calls |
| TraceFlow.RunStaysInTrace | vmill/Arch/Decoder.cpp:64-190 | a flat step from a plain instruction, jump or branch of such a trace stays in it, and the PC behind a call is in it |
| TraceFlow.NoBlockIsMissing | vmill/BC/Lifter.cpp:280-381 | the graph of such a trace has a block for each instruction and no others; only calls to the next instruction are left to the missing-block intrinsic |
| Decoder.HoldsHeadIff | vmill/Arch/Decoder.cpp:64-190 | a trace holds its own head if and only if every PC that the leftover work list reaches along PCs below the head decodes |
| Decoder.DecodeTraces | vmill/Arch/Decoder.cpp:138-208 | terminates with exactly one trace per newly marked head and every direct-call target marked; each trace is decoded with what those before it left over; traces are exact reachable sets while decoding succeeds |
| TraceFlow.HeadsAreCallTargets | vmill/Arch/Decoder.cpp:96-208 | every target of a direct call in a trace is marked; every head is the PC asked for or the target of a direct call in an earlier trace |
| Decoder.TracesHoldHeadsIff | vmill/Arch/Decoder.cpp:138-208 | every trace of a decoding holds its own head if and only if nothing left over by an earlier one is in the way |
| Decoder.FailedDecodeLosesNextHead | vmill/Arch/Decoder.cpp:186-190 | witness: after a failed decode, the next trace does not contain its own head, which decodes |
| Executor.NothingInTheWayInside | vmill/Arch/Decoder.cpp:138-208 | from inside code that is closed under direct calls and decodes, nothing is ever in the way of a head |
| Executor.Executor.FindLiftedFunction | vmill/Executor/Executor.cpp:305-342 | for every PC, the live function lifted for it; the error intrinsic exactly if the PC is neither live nor executable; no live function changes; functions go on holding their heads unless something left over by this decoding is in the way, which in closed code nothing is |
| ExecutorRuns.StepWith | vmill/Executor/Executor.cpp:305-342 | a machine step whose lookup the executor answers follows the flat run and makes progress, as long as the live functions hold their heads |
| ExecutorRuns.RunSteps | vmill/Executor/Executor.cpp:146-342 | any number of steps of a new task, with the executor decoding and lifting on demand: if the live functions hold their heads, the log is a prefix of the flat run; inside closed code they do |
| ExecutorRuns.RunInstructions | vmill/Executor/Executor.cpp:146-342 | in closed code, a new task executes exactly the first n instructions of the flat run, or halts where that fails, is stopped or has faulted; this takes finitely many steps |
| Executor.Executor.DecodeTracesFromTask | vmill/Executor/Executor.cpp:146-245 | afterwards the requested PC is live, no live trace and no cached one has been changed or lost, each new trace is live and in the code cache under its id, and all hold their heads if they did and nothing left over was in the way |
| Executor.Executor.UseCached | vmill/Executor/Executor.cpp:158-186 | traces found in the code cache become live, with the function cached for them; exactly the rest are left to lift |
| Executor.Executor.LiftMissing | vmill/Executor/Executor.cpp:220-245 | all traces that were missing become live and are in the code cache under their ids, each with a graph lifted for it; nothing else in the cache changes |
| Pages.AlignDownToPage | vmill/Program/AddressSpace.cpp:54-56 | the page that holds the address |
| Pages.RoundUpToPage | vmill/Program/AddressSpace.cpp:58-60 | the smallest whole number of pages, or zero where the 64-bit addition wraps |
| MappedRanges.MappedRange.Create | vmill/Program/MappedRange.cpp:403-410 | a valid range of zeroes |
| MappedRanges.MappedRange.CreateInvalid | vmill/Program/MappedRange.cpp:412-416 | a range without bytes |
| MappedRanges.MappedRange.CreateArray | vmill/Program/MappedRange.cpp:215-231 | a range that holds the given bytes and nothing shared |
| MappedRanges.MappedRange.CreateCopyOnWrite | vmill/Program/MappedRange.cpp:333-350 | a range that reads as its part of the array behind it |
| MappedRanges.MappedRange.Read | vmill/Program/MappedRange.cpp:184-360 | succeeds exactly on valid ranges, with the range's byte, whatever its kind |
| MappedRanges.MappedRange.Write | vmill/Program/MappedRange.cpp:189-366 | succeeds exactly on valid ranges and changes the one byte; the range then has an array of its own |
| MappedRanges.MappedRange.Materialize | vmill/Program/MappedRange.cpp:314-389 | the range becomes an array in place; its bytes stay the same |
| MappedRanges.MappedRange.Clone | vmill/Program/MappedRange.cpp:193-370 | the range and its clone read alike; an array's data moves behind both; a copy-on-write range's clone spans all of the array |
| MappedRanges.MappedRange.Copy | vmill/Program/MappedRange.cpp:206-395 | the copy of part of a range reads as that part, and is of the same kind |
| MappedRanges.CloneOfSplitGrows | vmill/Program/MappedRange.cpp:333-370 | witness: the clone of a one-page piece of a cloned three-page array covers three pages |
| Tiling.SpliceTiles | vmill/Program/AddressSpace.cpp:307-369 | taking an interval out of a tiling and adding a range for it gives a tiling, whose memory is the old one with the new range laid over it |
| Tiling.StraddleLosesMemory | vmill/Program/AddressSpace.cpp:359-364 | if a map straddles the end of the interval, the address at the end is covered before the step and by nothing after it |
| Tiling.MapStepTilesIffNoStraddle | vmill/Program/AddressSpace.cpp:307-369 | a map or unmap step leaves a tiling if and only if no map straddles the end of the interval |
| Tiling.SpliceKeepsUniform | vmill/Program/AddressSpace.cpp:400-469 | map and unmap steps keep the permissions of each valid map uniform |
| Tiling.ProtectKeepsUniformIff | vmill/Program/AddressSpace.cpp:373-398 | granting or taking a kind of access on an interval keeps it uniform if and only if each valid map it cuts has it, or lacks it, already |
| AddressSpaces.ProtectedUniform | vmill/Program/AddressSpace.cpp:373-398 | what one change of the three permissions does to being accessible at all, and to being writable and not executable, each as an if and only if |
| Tiling.HoleIsUnmapped | vmill/Program/AddressSpace.cpp:488-555 | a hole inside one invalid range holds no mapped byte, and mapping it straddles nothing |
| Tiling.GrownTilesIffSame | vmill/Program/AddressSpace.cpp:98-104 | if ranges are replaced by ranges at least as large, the result tiles if and only if all bounds are the same |
| RangeCache.LookupIsFresh | vmill/Program/AddressSpace.cpp:612-672 | a cached lookup gives the indexed range of the page, or a current range that contains it, or the sentinel for a page that is not indexed; the cache stays fresh |
| RangeCache.LookupTwice | vmill/Program/AddressSpace.cpp:620-672 | looking the same page up again gives the same range and changes nothing |
| RangeCache.CacheStaysFresh | vmill/Program/AddressSpace.cpp:612-672 | no sequence of lookups makes the cache stale |
| RangeCache.TransparentIffUniform | vmill/Program/AddressSpace.cpp:612-672 | for every sequence of lookups, each answers as a scan of the index would, if and only if all pages of each indexed range are indexed |
| RangeCache.StaleAfter | vmill/Program/AddressSpace.cpp:620-632 | after one lookup, every page of the range found is answered with it, indexed or not |
| ByteAccess.LoopReadIsFlatRead | vmill/Program/AddressSpace.cpp:155-173 | whatever is cached, the page loop reads what the byte map holds, if all pages of the access are indexed or there is one in no indexed range |
| ByteAccess.FlatWriteStretch | vmill/Program/AddressSpace.cpp:175-207 | writing bytes one by one is writing a stretch at once and then the rest |
| ByteAccess.LittleEndianOfToBytes | vmill/Program/AddressSpace.cpp:215-278 | values of 1, 2, 4 and 8 bytes survive the way through memory |
| ByteAccess.LittleEndianAt | vmill/Program/AddressSpace.cpp:215-239 | the byte at each address is the value's byte of that weight, the first one the least significant |
| ByteAccess.ToBytesAt | vmill/Program/AddressSpace.cpp:243-278 | the same for the bytes that a value is stored as |
| RangeLists.SortByBase | vmill/Program/AddressSpace.cpp:569-572 | the ranges sorted by where they start: the same ranges, none twice |
| RangeLists.BuildIndex | vmill/Program/AddressSpace.cpp:576-600 | the index maps exactly the permitted pages of valid ranges, each to its range |
| RangeLists.RemoveRanges | vmill/Program/AddressSpace.cpp:307-369 | what is left of the ranges around an interval, piece by piece, with the bytes of the originals |
| RangeLists.KeepOutside | vmill/Program/AddressSpace.cpp:318-366 | what is left of one range: all, nothing, one end, or both ends |
| RangeLists.CloneRanges | vmill/Program/AddressSpace.cpp:98-104 | the ranges of the list read as before; valid clones are new objects, invalid ranges are shared |
| RangeLists.ClonesTileIffWhole | vmill/Program/AddressSpace.cpp:84-107 | the clones of a tiling tile if and only if no copy-on-write range is part of a split one |
| AddressSpaces.AddressSpace.constructor | vmill/Program/AddressSpace.cpp:73-82 | a new space is one invalid range, with nothing mapped or permitted |
| AddressSpaces.AddressSpace.CreatePageToRangeMap | vmill/Program/AddressSpace.cpp:557-600 | the maps sorted, both page indexes rebuilt for the current permissions, both caches empty |
| AddressSpaces.AddressSpace.SetPermissions | vmill/Program/AddressSpace.cpp:373-398 | exactly the interval's pages get the permissions; memory and maps are the same; uniform access, and uniform writes, survive if and only if each valid map the interval cuts already has what the change gives |
| AddressSpaces.AddressSpace.AddMap | vmill/Program/AddressSpace.cpp:400-435 | memory becomes the old one with zeroes over the interval, readable and writable; the tiling, indexes and caches stay in order |
| AddressSpaces.AddressSpace.RemoveMap | vmill/Program/AddressSpace.cpp:437-469 | memory becomes the old one without the interval, and its pages lose all permissions |
| AddressSpaces.AddressSpace.FindRangeAligned | vmill/Program/AddressSpace.cpp:620-643 | the sentinel, or the one valid map that holds the page; with uniform access, what a scan of the maps for an accessible page gives; the cache stays fresh |
| AddressSpaces.AddressSpace.FindWnxRangeAligned | vmill/Program/AddressSpace.cpp:649-672 | the same for the cache of writable, non-executable pages |
| AddressSpaces.AddressSpace.TryReadBytes | vmill/Program/AddressSpace.cpp:155-173 | the bytes and the cache are those of the page loop; a failure gives none |
| AddressSpaces.AddressSpace.TryRead | vmill/Program/AddressSpace.cpp:215-239 | at any alignment and across pages, a typed read succeeds exactly when the page loop does, with its little-endian value and its cache |
| AddressSpaces.AddressSpace.SureReadIsFlat | vmill/Program/AddressSpace.cpp:155-173 | a read is that of the byte map, whatever was looked up before, if all pages it touches are accessible or one of them is in no map with an accessible page |
| AddressSpaces.AddressSpace.ReadInMapIff | vmill/Program/AddressSpace.cpp:155-173 | a read inside one map is that of the byte map after every sequence of lookups, if and only if the map has no accessible page or all pages the read touches are accessible |
| AddressSpaces.AddressSpace.ReadsWithinAreFlatIff | vmill/Program/AddressSpace.cpp:155-173 | all reads inside an interval are those of the byte map after every sequence of lookups, if and only if each page of the interval is accessible or in no map with an accessible page |
| AddressSpaces.AddressSpace.ReadsAreAlwaysFlatIff | vmill/Program/AddressSpace.cpp:155-173 | after every sequence of lookups, every read is that of the byte map, if and only if each valid map is accessible as a whole or not at all |
| AddressSpaces.AddressSpace.IndexesAreUniformIff | vmill/Program/AddressSpace.cpp:557-600 | the read index is uniform if and only if access is, and the write index if and only if being writable and not executable is |
| AddressSpaces.AddressSpace.AccessIsUniformIff | vmill/Program/AddressSpace.cpp:557-600 | a test over the maps that a caller can make decides uniform access |
| AddressSpaces.AddressSpace.TryWriteBytes | vmill/Program/AddressSpace.cpp:175-207 | success and memory are those of writing byte by byte to the byte map, stopping at the first that cannot be written |
| AddressSpaces.AddressSpace.TryWrite | vmill/Program/AddressSpace.cpp:243-278 | in every space, a typed write changes exactly its bytes through the range the write cache finds, or is the byte-by-byte write; it is always the latter if it crosses pages, its page is writable, or no map that holds the page has a writable, non-executable page |
| AddressSpaces.AddressSpace.StoreIsAlwaysCheckedIff | vmill/Program/AddressSpace.cpp:243-278 | for each typed write, that condition holds if and only if no sequence of lookups makes it go through to a page that is not writable |
| AddressSpaces.AddressSpace.FastPathIsCheckedIff | vmill/Program/AddressSpace.cpp:243-278 | after every sequence of lookups, the write cache finds a range only for writable pages, if and only if no range in the write index has a page that is not writable |
| AddressSpaces.AddressSpace.StoresAreCheckedIff | vmill/Program/AddressSpace.cpp:243-278 | a test over the maps that a caller can make decides that condition |
| AddressSpaces.AddressSpace.WriteUnchecked | vmill/Program/AddressSpace.cpp:243-278 | where the condition fails, the write succeeds after one to an indexed page of the map, and the byte-by-byte write does not |
| AddressSpaces.ReadOnlyPageIsWritten | vmill/Program/AddressSpace.cpp:243-435 | witness: the second page of a new two-page map is made read-only, and a typed write to it succeeds |
| TypedAccess.StoreThenLoadByte | vmill/Program/AddressSpace.cpp:215-278 | after a value is stored, a one-byte load at each place gives the value's byte of that weight |
| TypedAccess.WriteThenLoad | vmill/Program/AddressSpace.cpp:175-239 | after bytes are written one by one, a load gives the value whose byte of each weight is the one at that place, and that has no others |
| AddressSpaces.AddressSpace.Clone | vmill/Program/AddressSpace.cpp:84-107 | the child has the parent's memory and permissions; the parent's memory is the same; only arrays that nobody writes to are shared |
| AddressSpaces.AddressSpace.FindHole | vmill/Program/AddressSpace.cpp:488-555 | the highest place that any single invalid range allows inside the bounds; fails exactly if no single invalid range has room; on a page exactly if the room is not at the top of the space |
| AddressSpaces.UnalignedHole | vmill/Program/AddressSpace.cpp:488-555 | witness: the hole found at the top of a new space is not on a page |
| MemoryCalls.Mmap | vmill/Runtime/Linux/MM.cpp:173-233 | a non-fixed mapping adds zeroes at addresses where nothing was mapped and changes no other byte; fails exactly on size zero or if there is no hole |
| MemoryCalls.Munmap | vmill/Runtime/Linux/MM.cpp:289-312 | the interval is gone and nothing else; an unaligned address or size zero changes nothing |
| MemoryCalls.MmapThenMunmap | vmill/Runtime/Linux/MM.cpp:173-312 | unmapping what was just mapped succeeds and keeps access uniform; every read through the caches, and of the byte map, then behaves as before |
| Families.Apply | vmill/Program/AddressSpace.cpp:155-469 | each operation, typed loads and stores among them, does to a space what the model does to its byte map and permissions; all but a change of permissions leave it regular, that is, without maps that are accessible or writable in part |
| Families.RegularIsSure | vmill/Program/AddressSpace.cpp:155-278 | in a regular space, no read or typed write needs anything more |
| Families.OthersStay | vmill/Program/MappedRange.cpp:225-399 | an operation on one space is invisible in every other space of the family |
| Families.CloneIn | vmill/Program/AddressSpace.cpp:84-107 | cloning adds a copy of the space to the family and changes no space in it; the clone of a regular space is regular |
| Families.Run | vmill/Program/AddressSpace.cpp:84-469 | any history gives the outputs and the spaces of the deep-copy model, up to the first step that the code does not support; on a regular space whose permissions have not been changed since, that can only be a step out of range, a straddled map or unmap, or a clone of a split range |
| Families.RegularWithoutProtect | vmill/Program/AddressSpace.cpp:84-469 | without changes of permissions, all spaces of a family that starts regular stay so, and so do their clones |
| EdgeSplitting.SplitKeeps | tools/Fuzzer/BranchCoverage.cpp:208-248 | splitting an edge keeps every edge leading, directly or through its own block, to where it led, with PHI entries to match; duplicate edges and self loops included |
| EdgeSplitting.CallKeeps | tools/Fuzzer/BranchCoverage.cpp:145-154 | adding a call to an edge block keeps that |
| EdgeSplitting.DirectOperand | tools/Fuzzer/BranchCoverage.cpp:222-231 | while a direct edge remains, the PHI nodes behind it still have an entry for it, with the original operand |
| SplitRuns.StepTogether | tools/Fuzzer/BranchCoverage.cpp:208-248 | a step of the original graph is one step over a direct edge, or two over an edge with a block, to the same block with the same PHI values |
| SplitRuns.RunsTogether | tools/Fuzzer/BranchCoverage.cpp:129-248 | every run of the original has a run of the split graph with the same visits, and between them exactly the calls on the edges taken |
| SplitRuns.VisitsOfDecorated | tools/Fuzzer/BranchCoverage.cpp:129-248 | leaving out the calls gives back the original's visits |
| Coverage.BranchCoverage.BlockForEdge | tools/Fuzzer/BranchCoverage.cpp:208-248 | a new block in front of the target; in each PHI node the first entry for the source, and no other, moves to it |
| Coverage.BranchCoverage.InstrumentBranch | tools/Fuzzer/BranchCoverage.cpp:129-156 | two fresh locations; each side whose target can be instrumented reports its own and names the other's |
| Coverage.BranchCoverage.InstrumentSwitch | tools/Fuzzer/BranchCoverage.cpp:160-206 | one fresh location per instrumented edge, in order; each call also names the whole list |
| Coverage.BranchCoverage.InstrumentTrace | tools/Fuzzer/BranchCoverage.cpp:75-101 | exactly the edges to be instrumented have blocks, and each reports its location; a naked function is left alone |
| Coverage.BranchCoverage.OneReportPerEdge | tools/Fuzzer/BranchCoverage.cpp:142-206 | an edge taken is followed by exactly one call, with its location, if it is instrumented, and by none otherwise |
| Coverage.BranchCoverage.DistinctReports | tools/Fuzzer/BranchCoverage.cpp:138-174 | until the 32-bit counter has gone all the way round, no two edges report the same location |
| Coverage.BranchCoverage.InstrumentedRun | tools/Fuzzer/BranchCoverage.cpp:75-248 | running the instrumented function visits the original's blocks with the same PHI values and choices, plus the calls on the edges taken |
| Coverage.BranchCoverage.SwitchIsCoveredIff | tools/Fuzzer/BranchCoverage.cpp:166-176 | all edges of a switch that can be instrumented are, if and only if the last one cannot |
| TaskRuns.DoKeepsOk | vmill/Executor/Runtime.cpp:174-408 | whatever a task does while it has control, a stop is never undone and the first fault stays; when it gives up control, it can be entered exactly if nothing has stopped it |
| TaskRuns.TakeKeepsGood | vmill/Executor/Runtime.cpp:338-542 | every step of every task keeps the invariant: a task without control can be entered exactly if nothing has stopped it |
| TaskRuns.RunsStayGood | vmill/Executor/Runtime.cpp:338-542 | the invariant holds after every run of many tasks |
| TaskRuns.EnteredTaskIsLive | vmill/Executor/Runtime.cpp:525-542 | a task that is entered has recorded nothing that stops it, and a resumable one has Runnable as its saved status |
| TaskRuns.DoomedIsNeverEntered | vmill/Executor/Runtime.cpp:174-542 | once a task has recorded a fault, an error or an exit, no run enters it again; its first fault stays, and once without control it never changes |
| TaskRuns.StintIsRun | vmill/Executor/Runtime.cpp:525-542 | what a task does from getting control to giving it up is a run that changes this task only |
| TaskRuns.StintRecords | vmill/Executor/Runtime.cpp:174-521 | after a stint, a task has on record the PC and location recorded last, the first fault (an execute fault at its PC, if its code could not be executed), and, if its code has returned, where it was entered |
| LiftedTasks.StepMatches | vmill/Executor/Runtime.cpp:174-542 | every step of the lifted machine, memory faults included, is a run of permitted actions of its task, after which PC, fault, status and control match again |
| LiftedTasks.LiftedRunIsPermitted | vmill/Executor/Runtime.cpp:174-542 | every run of lifted code, from a new task on, is a run of permitted actions; the task is stopped exactly if the code has failed or faulted or a hyper call has stopped it |
| LiftedTasks.FlatEndIsFinal | vmill/Executor/Runtime.cpp:374-542 | where the flat run fails or is stopped, the task is never entered again, and nothing about it changes, in any run of any tasks; it is at that PC unless it has faulted |
| LiftedTasks.FaultIsFinal | vmill/Executor/Runtime.cpp:174-542 | once an instruction has faulted, the task is never entered again in any run of any tasks, and the flat run's first fault stays the recorded one |
| TaskRuns.ExitNeedsJump | vmill/BC/Lifter.cpp:367-371 | a task that recorded an exit could be entered again if its function returned; after a jump it cannot |
| LinuxTasks.LinuxTask.Perform | vmill/Executor/Runtime.cpp:174-521 | each intrinsic's updates in place are the permitted action of the state machine, from any state that a task with control can be in; the invariant is kept, a stop is not undone and the first fault stays |
| LinuxTasks.LinuxTask.Enter | vmill/Executor/Runtime.cpp:525-542 | a task without control that can be entered has recorded no stop, and goes on as runnable where it gave up control |
| LinuxTasks.LinuxTask.RunStint | vmill/Executor/Runtime.cpp:374-521 | everything a task does until it gives up control ends in the state that the state machine gives, without control |
| LinuxTasks.Linux.CreateTask | vmill/Runtime/Linux/Run.cpp:53-75 | the new task is first in the list; the ring runs through exactly the tasks of the list; task numbers start at 2 and are distinct |
| LinuxTasks.Linux.TasksAreDistinct | vmill/Runtime/Linux/Run.cpp:60 | no task is in the list twice |
| LinuxTasks.Linux.DoWake | vmill/Runtime/Linux/Futex.cpp:167-192 | terminates, and unblocks exactly the first min(max(1, n), waiters) tasks in ring order that are blocked in the same address space on that address with a bitset in common; all others keep their counts |
| Rounds.WokenIff | vmill/Runtime/Linux/Futex.cpp:167-192 | the same for one task: it is unblocked if and only if it is such a waiter and fewer than the limit come before it |
| Rounds.FirstWoken | vmill/Runtime/Linux/Futex.cpp:185-188 | stopping at the limit or at the end has woken exactly the first ones |
| Rounds.SomeStint | vmill/Executor/Runtime.cpp:374-521 | whatever a task with control has recorded, some permitted actions make it give up control |
| Rounds.TurnIsOk | vmill/Runtime/Linux/Run.cpp:84-101 | a turn runs a task, counts it down or reports it, as its status and count call for; a task that is run is left as its code leaves it; others are at most unblocked |
| Rounds.RunningTaskWakes | vmill/Runtime/Linux/Futex.cpp:167-192 | a task that is run and wakes others unblocks exactly those that its wake is for |
| Rounds.RoundIsOk | vmill/Runtime/Linux/Run.cpp:84-101 | in a round, each task there at the start gets exactly one turn, at its own time, and is left as its code then leaves it, at most unblocked since; the tasks created are exactly those that this code starts, new and in its address space |
| Rounds.StoppedInRounds | vmill/Runtime/Linux/Run.cpp:81-103 | no number of rounds changes what the executor knows of a stopped task |
| Scheduler.RunTask | vmill/Runtime/Linux/Run.cpp:78-90 | a task that gets control enters, does what its code does, wakes whom it wakes and starts its new tasks, which come in front; nothing else changes |
| Scheduler.Round | vmill/Runtime/Linux/Run.cpp:84-101 | the pass over the list does to all tasks what the function of a round says, in which each task there at the start gets exactly one turn and is left as its code leaves it, and the new tasks are those the code starts |
| Scheduler.Resume | vmill/Runtime/Linux/Run.cpp:81-103 | does whole rounds until one makes no progress; then every task has recorded a fault, an error or an exit; nothing changes about tasks that had done so before |
| Scheduler.RoundsUntilRun | vmill/Runtime/Linux/Run.cpp:81-103 | a task that nothing has stopped is run again after at most as many rounds as it is blocked for, plus one, as it was but unblocked, and is left as its code then leaves it |
| Futex.DoWaitPass | vmill/Runtime/Linux/Futex.cpp:105-163 | a pass that gives up leaves the task blocked on the address with the bitset; one that completes with 0 or -EAGAIN leaves it waiting on nothing; -EFAULT changes nothing |
| Futex.WaitThenWake | vmill/Runtime/Linux/Futex.cpp:105-192 | a task that waits is unblocked by another's wake if and only if address spaces and addresses are the same, the bitsets overlap and fewer than the limit come before it; otherwise its count stays |
| Futex.GivesUpIff | vmill/Runtime/Linux/Futex.cpp:105-163 | an unblocked task gives up control exactly if the word matches and it waits on nothing yet; it never times out |
| Futex.ResumedWaitCompletesIff | vmill/Runtime/Linux/Futex.cpp:125-133 | a wait that is run again completes if and only if the word has changed or the address is not zero |
| Futex.FutexWait | vmill/Runtime/Linux/Futex.cpp:86-165 | a wait that blocks does so on its address and bitset, is run again within 101 rounds and then completes: 0 exactly if the word is the expected one, -EAGAIN exactly if it differs, both leaving nothing waited on, -EFAULT exactly if it cannot be accessed |
| Allocators.AreaAllocator.Allocate | vmill/Util/AreaAllocator.cpp:100-167 | the next bytes after the least alignment, inside the area, which is whole pages, grows by zeroed ones, by no more than needed and a page, and keeps what it holds |
| Allocators.AreaAllocator.FreeAll | vmill/Util/AreaAllocator.cpp:96-98 | the area is empty again and keeps its memory |
| ZoneAllocators.ZoneAllocator.LowerBound | vmill/Util/ZoneAllocator.cpp:37 | the smallest listed size that is large enough, if there is one |
| ZoneAllocators.ZoneAllocator.Recycle | vmill/Util/ZoneAllocator.cpp:38-64 | exactly the block of that size freed last, or as much as is needed of its upper end if more than a page would be wasted; the rest stays free |
| ZoneAllocators.ZoneAllocator.AllocateNew | vmill/Util/ZoneAllocator.cpp:66-69 | a new block at the end of the area, on a cache line |
| ZoneAllocators.ZoneAllocator.Allocate | vmill/Util/ZoneAllocator.cpp:35-72 | exactly one more live block, large enough and zeroed; no byte outside it changes; it is recycled from the smallest fitting size, and the area grows exactly if that has no block left |
| ZoneAllocators.ZoneAllocator.FreeBlock | vmill/Util/ZoneAllocator.cpp:74-79 | exactly one live block less; an empty allocation changes nothing |
| ZoneAllocators.ZoneAllocator.Conserved | vmill/Util/ZoneAllocator.cpp:35-79 | live, free and skipped bytes add up to what the area has handed out; blocks are disjoint and inside it |
| ZoneAllocators.PiecesOnLines | vmill/Util/ZoneAllocator.cpp:46-57 | both pieces of a split aligned block are aligned if and only if the requested size is a multiple of 64 |
| Zones.BytesAreConserved | vmill/Util/ZoneAllocator.cpp:35-79 | the sizes of the parts of a tiling, by use, add up to its length |
| Coroutines.Cpu.Exchange | vmill/Arch/X86/Coroutine.S:27-45 | the registers and the slots trade places, and no other memory changes |
| Coroutines.Cpu.Pause | vmill/Arch/X86/Coroutine.S:27-45 | whoever started or last resumed the coroutine regains its registers and stack and goes on after its call; the coroutine's are kept |
| Coroutines.Cpu.Resume | vmill/Arch/X86/Coroutine.S:27-45 | the coroutine regains what it held when it gave up control; the resumer's are kept |
| Coroutines.Cpu.Start | vmill/Arch/X86/Coroutine.S:54-91 | the starter's context is kept, the count goes up, and the entry runs on the coroutine's stack |
| Coroutines.Cpu.Finish | vmill/Arch/X86/Coroutine.S:93-109 | the most recent resumer regains its context, and the count goes back to zero |
| Coroutines.SwitchKeepsOk | vmill/Arch/X86/Coroutine.S:27-109 | a switch of one coroutine disturbs no other; the count is nonzero exactly while an activation is unfinished |
| FileCache.FileBackedCache.Open | vmill/Util/FileBackedCache.h:114-168 | the entries are the whole ones of the file, whatever its size |
| FileCache.FileBackedCache.Extend | vmill/Util/FileBackedCache.h:178-215 | the entries are the old ones and then the new ones; the soft limit stays within the hard one |
| FileCache.FileBackedCache.Append | vmill/Util/FileBackedCache.h:171-175 | one more entry |
| FileCache.FileBackedCache.Close | vmill/Util/FileBackedCache.h:103-110 | the closed file has room for exactly the entries there are, and holds them |
| FileCache.CloseAndReopen | vmill/Util/FileBackedCache.h:103-168 | closing and opening again gives back exactly the entries in order, for every entry size |
| FileCache.NewSizes | vmill/Util/FileBackedCache.h:183-209 | after adding entries the file is their size rounded up, whether or not it had to grow, and the limits are in order |

## Left out

- TraceFlow.TraceIsLeastClosed: asks that what the lifter takes for the fall-through of a conditional branch is the next PC, where the decoder looks for it.
- TraceFlow.NoBlockIsMissing: asks the same, and excludes conditional hyper calls.
- Instruction semantics: an abstract function from state to state, PC and branch condition. Conditional hyper calls are excluded, and an instruction lifted to an error stop leaves state and PC alone.
- LLVM: lifted graphs are data, and PHI graphs are run by the semantics given in ControlFlow. Optimisation, compilation and object loading are not modelled.
- Instruction callbacks, and the callback option of the lifter.
- Code versions, trace hashes and stale code after permission changes or remaps.
- The pause inside lifting: decoding and publishing traces is one step.
- Killing an address space, the names of maps, and the lowest allowed address.
- The highest page of a 64-bit space: accesses that would wrap past the top of the address space, and maps that reach its last address, are excluded by preconditions.
- AddressSpaces.AddressSpace.AddMap: sizes that are zero or wrap around when rounded are excluded, and so are intervals whose end a map straddles.
- AddressSpaces.AddressSpace.RemoveMap: excludes the same sizes and intervals as adding a map.
- AddressSpaces.AddressSpace.Clone: excludes spaces with a split copy-on-write range, whose clones overlap.
- RangeLists.RemoveRanges: excludes intervals whose end a range straddles, for which the source has no case.
- RangeLists.KeepOutside: excludes ranges that straddle the end of the interval, for the same reason.
- AddressSpaces.AddressSpace.TryReadBytes: excludes accesses that reach the last page of a 64-bit space, where the page loop's end wraps around.
- AddressSpaces.AddressSpace.TryRead: excludes the same accesses.
- AddressSpaces.AddressSpace.TryWriteBytes: excludes the same accesses.
- AddressSpaces.AddressSpace.TryWrite: excludes the same accesses.
- AddressSpaces.AddressSpace.FindHole: of the hole of no bytes that is reported for a size whose rounding wraps to zero, only says that it is inside the bounds.
- MemoryCalls.Munmap: excludes intervals beyond the top of the space and intervals whose end a map straddles.
- Fixed, file-backed and shared mmap, mprotect as a system call, and brk.
- Sorting is insertion sort rather than the library's; only sortedness and the elements matter. The data buffers of ranges are sequences.
- Coverage.BranchCoverage.DistinctReports: says nothing once more than 2^32 locations have been used, when locations repeat.
- The file that keeps the location counter between runs, and value coverage.
- Interpreter.LiftedRunFollowsFlatRun: asks that lookups along the flat run yield functions that hold their heads, or the error intrinsic where the flat interpreter fails. The executor's do unless something left over by a failed decode is in the way.
- TaskRuns.RunsStayGood: the order in which hyper calls record locations and yield is part of the model. What lifted code does between hyper calls is derived in LiftedTasks.
- Memory faults in hyper calls: task runs allow them, but in the lifted machine only instructions fault.
- Families.Apply: excludes maps and unmaps whose end a map straddles, and reads and typed writes for which agreement depends on what is cached. For a read over several maps, the condition is sufficient only: a later map whose first page is not accessible must also be in the right slot of the cache to be found.
- Families.Run: stops at the first such step.
- Families.CloneIn: excludes spaces with a split copy-on-write range.
- Scheduler.Round: tasks do what lifted code and hyper calls can do until they give up control. A task that never gives it up is excluded.
- Scheduler.RunTask: wakes and clones are taken together, before and after the rest of what a task does.
- Scheduler.Resume: runs at most a given number of rounds, because the source's loop need not end. What it states holds for every such number.
- Task numbers beyond the range of a 32-bit integer, and tearing the task list down.
- Futex.FutexWait: the wait is on a nonzero address, and a stale futex address left by an earlier -EFAULT must be the same one, as the source asserts. A task that has already recorded a stop is excluded, since it is never run again.
- Futex requeue and wake-op, signals, and all other system calls.
- Allocators.AreaAllocator.Allocate: the host always has contiguous memory, sizes do not wrap around, and executable areas are not filled with breakpoints.
- Coroutines.Cpu.RunCode: code on either stack is arbitrary, but is assumed to stay away from the slots at the top of coroutine stacks.
- Floating-point rounding modes, which are also switched.
- FileCache.FileBackedCache.Extend: the size cap is a precondition, as the source aborts beyond it, and mapping the file always succeeds.
- AArch64, KVM, VxWorks and QEMU runtimes, snapshots, taint tracking and shadow memory.
