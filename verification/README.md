# Verification models of the coursework programs

Each part below models one program of the repository and proves what that program is for.
Programs that run several processes or threads are state machines whose steps are the
statements between two synchronisation points; programs that update memory are classes and
methods over a heap, proved against a small specification whose own properties are proved as
lemmas.  `dafny verify dfyconfig.toml` checks everything.

## The parts

**Bus and riders** (`Bus*.dfy`, for `sem_2/ios/proj_2/proj2.c`).  `BusModel` has one step per
semaphore operation, shared-variable access or printed line of `bus` and `rider`, for any
number of riders R >= 1 and any capacity C >= 1.  `BusInvariant` proves an inductive invariant
of all interleavings: it counts riders by program point (a census) and ties the census to the
semaphores and counters.  `BusLog` reads the log line by line with an automaton that knows
nothing of semaphores, and proves that every log of every interleaving is accepted;
`BusTheorems` and `BusTrips` derive the promises of the assignment from that, on the lines of the
log alone.  `BusProgress` proves that no
unfinished state is deadlocked and that every run can be continued to the end.  Finish tokens
are anonymous in the code, so the claim about them is a counting one.

**Parallel sed** (`Psed.dfy`, for `sem_3/ips/proj_1/psed.c`).  Main and k workers as steps;
`regex_replace` is an uninterpreted function, the locks that gate the workers are binary
semaphores, and the busy-waiting loops are awaits.  Every interleaving prints what the double
loop over lines and workers prints; every run has exactly N * (8k + 7) + 5k + 4 steps, where N
is the number of input lines, and never deadlocks.  A worker frees a pointer it never assigned
(line 53) if and only if the input is empty.

**First-fit allocator** (`Mmal*.dfy`, for `sem_3/ips/proj_2/mmal.c`).  `MmalLayout` describes
the heap as headers, arenas and their order in the ring; the header and arena sizes are
symbolic.  `MmalFree` finds the exact condition under which `mfree` keeps the arenas tiled, and
`MmalBlocks` says which blocks handing out and freeing leave.
`MmalLive`, `MmalFit`, `MmalApart` and `MmalBytes` say what the operations mean for the map of
blocks in use, for new arenas and first fit, for adjacent free blocks, and for the bytes of the
payloads.  `MmalRun` makes every call an event and follows whole runs of events: the heap of a run
is sound throughout if and only if every merge in it joins adjacent blocks of one arena, and free
blocks stay apart if and only if every request satisfies a condition on the heap before it.
`MmalHeld` follows what the program holds: its allocations have a block each throughout if and
only if no request is given a block in use, and no call then changes their bytes.
`MmalExamples` holds runs from a program's start in which these conditions fail.  `Mmal` is the
program itself, a class whose methods are proved to make exactly such events happen.

**Trees without recursion** (`BtShape.dfy`, `BtStack.dfy`, `BtOrder.dfy`, `Bt.dfy`, for
`sem_3/ial/proj_2/c402`).  Heap nodes, array stacks of MAXSTACK cells, and for each walk the
exact condition under which the stacks suffice, for a given tree and for the tree that a given
sequence of keys builds.  `BtOrder` says what makes the three listings pre-order, in-order and
post-order.

**Trees with recursion** (`BstShape.dfy`, `Bst.dfy`, for `sem_3/ial/proj_2/c401`).  Insertion,
deletion and search refine a finite map over all runs.

**Sieve** (`BitArray.dfy`, `Sieve.dfy`, for `sem_2/ijc/proj_1`).  The packed array refines a
sequence of bits; the sieve marks exactly the numbers that are not prime.

**DHCPv6 relay** (`RelayFormat.dfy`, `Relay.dfy`, for `sem_5/isa/proj/d6r.cpp`).  The bytes of
a Relay-forward and the walk over the options of a Relay-reply, in the formats of RFC 8415
sections 9.1, 9.2, 21.1, 21.10 and 21.18 and of RFC 6939 section 4.  `Relay` says where the walk
ends on any buffer of bytes; `RelayFormat` says what it finds in any list of options.

**Doubly linked list** (`DList.dfy`, for `sem_3/ial/proj_1/c206`) and **hash tables**
(`Chains.dfy`, `HashTable.dfy`, `Htab.dfy`, for `sem_3/ial/proj_2/c016` and
`sem_2/ijc/proj_2/htab_*.c`).  Heap containers that refine a sequence with a cursor, a finite
map, and a map of counts.  `Seqs.dfy` and `Options.dfy` are shared.

A freed node keeps its identity but nothing is known of its fields, and `live` says whether it
was freed: that is how "freed once" and "never read afterwards" are proved.

## Where the code differs from its comments

- `mmal.c:216-230`: `hdr_can_merge` promises adjacency in one arena and tests only that both
  blocks are free.  `MmalFree.FreedOkIff` gives the condition under which `mfree` is right
  nevertheless; otherwise the heap is not tiled any more, under any reading of it.
  `MmalExamples.LastBlockMergesWithFirst` and `MmalExamples.BlockMergesWithNextArena` are runs of
  a few calls that end so.
- `mmal.c:227`: with a single block in the ring, `mfree` merges the block with itself
  (`MmalExamples.OnlyBlockMergesWithItself`: one request that fills an arena, then its `mfree`).
- `mmal.c:263`: first fit compares the slack of a block, not whether it is free, so a request
  of less than two headers can be given a block in use, and `mmalloc` returns a pointer that the
  program holds already.  `MmalHeld.HandsOutUnusedIff` and `MmalHeld.RunHandsOutUnusedIff` give
  the exact condition, `MmalHeld.RunIsExclusiveIff` what it means for the allocations of a run,
  and `MmalExamples.SmallRequestSplitsUsedBlock` a run for every such request.  What is left over
  of the block is free, and may lie in front of a free block: two adjacent free blocks, which the
  program means to merge (`MmalApart.AllocCoalesced`, `MmalRun.RunNoFreePairsIff`).  `mrealloc` can even find the slack of the block it is to enlarge; it then returns
  that block and frees it (`MmalExamples.MoveFreesItsResult`).
- `mmal.c:263`: the comparison is strict, so a request that fills a new arena exactly maps all
  the memory there is and fails.
- `mmal.c:316`: `mmalloc(0)` returns a block, not NULL.
- `mmal.c:405-406`: when `mmalloc` fails inside `mrealloc`, the copy goes to NULL (`fault`).
- The comments of `mmal.c` are preconditions checked by `assert`; the model is that of a build
  without assertions.
- `c402.c:85`: the overflow test is one value late; a stack of MAXSTACK cells holds
  MAXSTACK - 1 values.  Inserting MAXSTACK = 30 keys in descending order and listing the tree
  overruns it; fewer keys, or any number in ascending order, do not (`Bt.DescendingRunOverflows`
  with `Bt.InsertAndList`).
- `bit_array.h:57`: the mask for setting a bit to 0 has all digits, so the bit keeps its value
  (`BitArray.SetBit`).
- `d6r.cpp:402`: a second, shorter Interface-Id overwrites only the beginning of the first; it is
  recovered if and only if the first has only zeros beyond it (`RelayFormat.SecondIdRecoveredIff`,
  and `RelayFormat.WalkRecoversLastIdIff` for any options).
- `d6r.cpp:402`: the copy into `char interface_name[16]` is not bounded.  It leaves the array
  exactly when an Interface-Id of more than 16 bytes is looked at (`RelayFormat.OverrunIff`,
  `Relay.ReplyOverrunsIff`).

## Model

| member | source | states |
|---|---|---|
| `BusInvariant.RunKeepsInv` | sem_2/ios/proj_2/proj2.c:276-375 | in every state of every interleaving the semaphores, the shared counters and the program points of bus and riders fit together |
| `BusInvariant.RiderStepDelta` | sem_2/ios/proj_2/proj2.c:345-375 | a rider's step changes semaphores and counters exactly as it changes the number of riders at each program point |
| `BusLog.EveryLogIsAccepted` | sem_2/ios/proj_2/proj2.c:276-375 | every log of every interleaving is accepted by a reader that checks line numbers, rider numbers, waiting counts and the order of trips |
| `BusTheorems.CountersCountLines` | sem_2/ios/proj_2/proj2.c:276-375 | in an accepted log the number of start, enter, boarding and finish lines is what the reader's counters say, and the k-th line carries number k |
| `BusTheorems.StartLinesAreNumberedInOrder` | sem_2/ios/proj_2/proj2.c:347-350 | the rider of the j-th start line has number j |
| `BusTheorems.RiderNumbersAreDistinct` | sem_2/ios/proj_2/proj2.c:347-350 | no two start lines carry the same rider number |
| `BusTheorems.BoardingIsBracketed` | sem_2/ios/proj_2/proj2.c:305-322 | every boarding line lies behind a "start boarding" with no bus or enter line in between, and the next bus line, if there is one, is "end boarding" |
| `BusTheorems.RiderLinesInOrder` | sem_2/ios/proj_2/proj2.c:345-375 | in an accepted log the lines of each rider number are start, enter, boarding and finish or the first of these, in that order and each at most once |
| `BusTheorems.FinishedRunHasAllLines` | sem_2/ios/proj_2/proj2.c:345-375 | in the log of a finished run every rider number from 1 to R has each of its four lines exactly once, in order |
| `BusTheorems.TripBoardsExactly` | sem_2/ios/proj_2/proj2.c:287-322 | between "start boarding: w" and the next bus line exactly min(w, C) riders board |
| `BusTheorems.NobodyEntersSinceArrival` | sem_2/ios/proj_2/proj2.c:282-327 | no enter line falls between the arrival and the departure of a boarding trip |
| `BusTheorems.OneBoardingAtATime` | sem_2/ios/proj_2/proj2.c:309-364 | sem_bus, sem_boarded and the riders between them sum to 1 exactly while the bus waits for a rider to board, and to 0 otherwise |
| `BusTheorems.MutexesExclude` | sem_2/ios/proj_2/proj2.c:276-375 | both mutexes keep a rider and the bus, and any two riders, out of their sections, and are 0 while somebody is inside |
| `BusTheorems.WaitingIsExact` | sem_2/ios/proj_2/proj2.c:352-364 | while sem_mutex is free, `waiting` is the number of riders that entered less those that passed sem_bus |
| `BusTheorems.ClampSubtractsTheBoarded` | sem_2/ios/proj_2/proj2.c:314-318 | the clamp subtracts exactly the min(waiting, C) riders that boarded |
| `BusTheorems.ReleasesFollowTrips` | sem_2/ios/proj_2/proj2.c:330-336 | riders are released trip by trip, and nobody finishes without a release |
| `BusTheorems.FinishesNeverOutnumberEndedTrips` | sem_2/ios/proj_2/proj2.c:330-373 | in no prefix of a log have more riders finished than boarded before the last "end" line |
| `BusTheorems.BusFinishesLast` | sem_2/ios/proj_2/proj2.c:280-341 | the bus prints "finish" only after all R riders boarded, and nothing of the bus follows |
| `BusTrips.FinishedBusLines` | sem_2/ios/proj_2/proj2.c:276-342 | in the log of a finished run the bus lines are "start" first and "finish" last, each once, and between them complete trips: arrival, depart, end, or arrival, start boarding, end boarding, depart, end |
| `BusTrips.BusLinesSoFar` | sem_2/ios/proj_2/proj2.c:276-342 | the bus lines of any accepted log are that, up to the trip that is not over |
| `BusTrips.EmptyTripIff` | sem_2/ios/proj_2/proj2.c:287-303 | after an arrival the bus departs at once if and only if nobody is at the stop, and otherwise starts boarding those who are |
| `BusTrips.EnterLinesCount` | sem_2/ios/proj_2/proj2.c:352-357 | every enter line says how many riders entered, its own included, less those that boarded |
| `BusTrips.BoardingLinesCount` | sem_2/ios/proj_2/proj2.c:305-322 | "start boarding" and "end boarding" say how many riders entered less those that boarded |
| `BusTheorems.PostsAreTokens` | sem_2/ios/proj_2/proj2.c:334-370 | every post to sem_can_finish is still there or was taken by one rider |
| `BusTheorems.QuiescentAtTheEnd` | sem_2/ios/proj_2/proj2.c:188-225 | when all have exited, R finish tokens were posted, both mutexes are 1, the other semaphores 0, and transported is R |
| `BusProgress.SomeStepProgresses` | sem_2/ios/proj_2/proj2.c:276-375 | no unfinished state is deadlocked, and some enabled step comes closer to the end |
| `BusProgress.CanFinish` | sem_2/ios/proj_2/proj2.c:276-375 | from every state of the invariant a finite continuation finishes the bus and all riders |
| `BusProgress.EveryRunCanFinish` | sem_2/ios/proj_2/proj2.c:276-375 | every run can be continued to one in which all processes have exited |
| `PsedProofs.OutputAt` | sem_3/ips/proj_1/psed.c:58-71 | line r*k + j of the sequential output is worker j's rewriting of input line r, not of another worker's result |
| `PsedProofs.CStrStopsAtNul` | sem_3/ips/proj_1/psed.c:21-27 | the copy of a string is its beginning up to the first NUL, or all of it |
| `PsedProofs.FinishedOutput` | sem_3/ips/proj_1/psed.c:45-162 | when neither lines nor replacements have a NUL, line r*k + j that a finished run printed is worker j's replacement of input line r, and there are no other lines |
| `PsedProofs.OutputIsPrefix` | sem_3/ips/proj_1/psed.c:48-150 | at every moment of every interleaving the output is a prefix of the sequential program's |
| `PsedProofs.OutputIsComplete` | sem_3/ips/proj_1/psed.c:121-162 | when main has joined the workers the output is complete and every worker has exited |
| `PsedProofs.EveryStateIsSafe` | sem_3/ips/proj_1/psed.c:49-79 | no thread uses a freed or unset line, and no gate is unlocked twice |
| `PsedProofs.UnsetFreeIffEmptyInput` | sem_3/ips/proj_1/psed.c:45-56 | `free(result)` at 53 gets an assigned pointer in every run if and only if there is an input line |
| `PsedProofs.EmptyInputFreesUnset` | sem_3/ips/proj_1/psed.c:45-56 | on empty input some run frees an unassigned pointer |
| `PsedProofs.StepUsesOne` | sem_3/ips/proj_1/psed.c:48-162 | every step of every thread uses up exactly one of the steps left |
| `PsedProofs.EveryRunTerminates` | sem_3/ips/proj_1/psed.c:48-162 | after n steps exactly N * (8k + 7) + 5k + 4 - n are left |
| `PsedProofs.NoDeadlock` | sem_3/ips/proj_1/psed.c:48-162 | nobody can move only when every thread has finished |
| `PsedProofs.AwaitedCanMove` | sem_3/ips/proj_1/psed.c:60-67 | when main cannot move, the worker whose turn it is, or the next one to join, can, and it is that one |
| `PsedProofs.MaximalRunIsCorrect` | sem_3/ips/proj_1/psed.c:48-162 | a run that nobody can extend printed everything in the predicted number of steps |
| `MmalLayout.PayloadsAreDisjoint` | sem_3/ips/proj_2/mmal.c:42-64 | two live payloads never overlap, and each lies inside its arena |
| `MmalLayout.AllocOk` | sem_3/ips/proj_2/mmal.c:204-214 | splitting and marking a block keeps one ring over exactly tiled arenas |
| `MmalBlocks.HandedOutHeaders` | sem_3/ips/proj_2/mmal.c:178-214 | more than two headers left over become a free block behind the bytes handed out; otherwise the block keeps its size, and no other header comes or goes |
| `MmalFit.GrowOk` | sem_3/ips/proj_2/mmal.c:101-143 | mapping an arena keeps one ring over exactly tiled arenas |
| `MmalFree.MergeTiled` | sem_3/ips/proj_2/mmal.c:239-245 | merging two adjacent blocks of one arena keeps the arenas tiled |
| `MmalFree.MergeLinked` | sem_3/ips/proj_2/mmal.c:239-245 | a merge leaves one ring over the remaining blocks, whatever it joins |
| `MmalFree.JoinsMeansSameArena` | sem_3/ips/proj_2/mmal.c:216-223 | address adjacency means next in the ring and in the same arena |
| `MmalFree.FreedOkIff` | sem_3/ips/proj_2/mmal.c:347-359 | `mfree` leaves arenas that can be tiled if and only if each merge it makes joins adjacent blocks of one arena of a ring of two or more blocks |
| `MmalBlocks.FreedHeaders` | sem_3/ips/proj_2/mmal.c:347-359 | in a ring of three or more blocks `mfree` drops the header of the next block exactly if that is free, its own exactly if the previous block is free and at a lower address, and no other |
| `MmalBlocks.FreedHeadersOfFew` | sem_3/ips/proj_2/mmal.c:347-359 | with two blocks it drops the other one exactly if that is free, with one none |
| `MmalLive.FreedLive` | sem_3/ips/proj_2/mmal.c:347-359 | `mfree` removes exactly its block from the live ones |
| `MmalApart.FreedCoalesced` | sem_3/ips/proj_2/mmal.c:352-359 | under that condition no two adjacent blocks of an arena are free afterwards, if none were before |
| `MmalLive.AllocLive` | sem_3/ips/proj_2/mmal.c:334-337 | `mmalloc` binds its block to the requested size and changes no other live block |
| `MmalApart.AllocCoalesced` | sem_3/ips/proj_2/mmal.c:334-337 | handing out a block leaves no two adjacent free blocks if and only if the remainder, when it is split, does not lie in front of a free block of its arena, and a block that is not split is given some bytes or has no free neighbour in its arena |
| `MmalFit.LargeRequestsFitFreeBlocks` | sem_3/ips/proj_2/mmal.c:175-264 | for requests of at least two headers, what passes first fit's test is free |
| `MmalFit.SmallRequestMayHitLiveBlock` | sem_3/ips/proj_2/mmal.c:263-264 | for every smaller positive request there is a heap whose first fit is a block in use |
| `MmalFit.FreshArenaFits` | sem_3/ips/proj_2/mmal.c:263-267 | a new arena passes the test for its request unless the request fills it exactly |
| `MmalFit.AlignedUp` | sem_3/ips/proj_2/mmal.c:82-84 | an arena is the smallest multiple of 128 KiB that holds what is asked |
| `MmalBytes.EnlargeKeeps` | sem_3/ips/proj_2/mmal.c:405-407 | the moved block's bytes arrive and no other live payload changes, except that of the block mmalloc chose, if it was in use |
| `MmalBytes.NewArenaIsZero` | sem_3/ips/proj_2/mmal.c:101-119 | the memory of a new arena is zero behind its two headers |
| `MmalRun.MapAllSound` | sem_3/ips/proj_2/mmal.c:101-143 | however many arenas a request maps, the heap stays sound and no live block changes |
| `MmalRun.ChosenBlock` | sem_3/ips/proj_2/mmal.c:318-337 | a request maps arenas exactly when no block of the old heap fits, and is then given the free block of the last one |
| `MmalRun.MovedBlock` | sem_3/ips/proj_2/mmal.c:404-407 | a moved block is given back its own header exactly when it is itself the first fit, and no block in use exactly when the old first fit, if any, was free |
| `MmalRun.LargeFitsOnlyFree` | sem_3/ips/proj_2/mmal.c:263-264 | for requests of at least two headers the first fit, if there is one, is free |
| `MmalRun.MallocApart` | sem_3/ips/proj_2/mmal.c:318-340 | mmalloc keeps free blocks apart if and only if the heap before the call says so |
| `MmalRun.LargeStaysApart` | sem_3/ips/proj_2/mmal.c:263-264 | for requests of at least two headers it always does |
| `MmalRun.StepSound` | sem_3/ips/proj_2/mmal.c:318-410 | any call leaves a sound heap if and only if its merges join adjacent blocks of one arena of a larger ring, and changes the live blocks as the call says in either case |
| `MmalRun.RunIsSound` | sem_3/ips/proj_2/mmal.c:318-410 | in every run, as long as all merges were right, the arenas are tiled by one ring and the live blocks are those the calls account for |
| `MmalRun.RunIsSoundIff` | sem_3/ips/proj_2/mmal.c:318-410 | and not longer: the heap is sound throughout a run if and only if every merge in it is right |
| `MmalRun.RunPayloadsApart` | sem_3/ips/proj_2/mmal.c:318-410 | in such a run the payloads of two blocks in use never overlap |
| `MmalRun.RunNoFreePairsIff` | sem_3/ips/proj_2/mmal.c:318-359 | such a run of mmalloc and mfree never leaves two adjacent free blocks of an arena if and only if no request splits a block in front of a free one or, asking for no bytes, splits a block or leaves it free beside a free one |
| `MmalHeld.HandsOutUnusedIff` | sem_3/ips/proj_2/mmal.c:318-340 | a request is given a block in use if and only if the first fit of the heap before the call is one |
| `MmalHeld.RunHandsOutUnusedIff` | sem_3/ips/proj_2/mmal.c:318-410 | in a run whose merges were right so far, the pointer that mmalloc or mrealloc returns is new to the blocks in use exactly under that condition |
| `MmalHeld.Owner` | sem_3/ips/proj_2/mmal.c:318-410 | every block in use belongs to an allocation that the program holds |
| `MmalHeld.RunIsExclusiveIff` | sem_3/ips/proj_2/mmal.c:318-410 | in a run whose merges are right every allocation the program holds has a block in use, and no two the same, throughout, if and only if no request is given a block in use |
| `MmalHeld.LargeRunIsExclusive` | sem_3/ips/proj_2/mmal.c:263-264 | that is so when every request is of at least two headers |
| `MmalHeld.HeldPayloadsApart` | sem_3/ips/proj_2/mmal.c:318-410 | in such a run the payloads of two allocations that the program holds never overlap |
| `MmalHeld.RunKeepsBytes` | sem_3/ips/proj_2/mmal.c:318-410 | in such a run no call changes the bytes of an allocation while the program holds it, as far as they are left to it |
| `MmalExamples.SmallRequestSplitsUsedBlock` | sem_3/ips/proj_2/mmal.c:263-264 | for every request of less than two headers there is a run with right merges only in which it is given a block that the program holds already, and leaves two adjacent free blocks |
| `MmalExamples.MoveFreesItsResult` | sem_3/ips/proj_2/mmal.c:404-408 | there is a run in which mrealloc of a block returns that block after freeing it |
| `MmalExamples.OnlyBlockMergesWithItself` | sem_3/ips/proj_2/mmal.c:227 | there is a run in which mfree merges the only block with itself |
| `MmalExamples.LastBlockMergesWithFirst` | sem_3/ips/proj_2/mmal.c:352-354 | there is a run in which mfree merges the last block of an arena with its first, and the heap is not sound any more |
| `MmalExamples.BlockMergesWithNextArena` | sem_3/ips/proj_2/mmal.c:352-354 | there is a run in which mfree merges a block with the first of another arena, and the heap is not sound any more |
| `Mmal.Allocator.ArenaAlloc` | sem_3/ips/proj_2/mmal.c:101-119 | the new arena overlaps no other, has one free block, and the block leads to the ring's first |
| `Mmal.Allocator.ArenaAppend` | sem_3/ips/proj_2/mmal.c:125-143 | the new arena becomes the last of the list |
| `Mmal.Allocator.HdrGetPrev` | sem_3/ips/proj_2/mmal.c:292-311 | returns the predecessor in the ring, the block itself if it is alone |
| `Mmal.Allocator.FindFirstFit` | sem_3/ips/proj_2/mmal.c:254-283 | returns the first block that fits; maps nothing if one does, one arena if a new one will, and all there is, in vain, if the request fills an arena exactly |
| `Mmal.Allocator.HdrSplit` | sem_3/ips/proj_2/mmal.c:204-214 | the left part keeps the requested size, the rest is a new free block behind it |
| `Mmal.Allocator.Mmalloc` | sem_3/ips/proj_2/mmal.c:318-340 | fails exactly when no block fits and no arena can be had or would do; else hands out the first fit, a block in use exactly when that of the old heap is one, keeping tiling, other live blocks and all other payload bytes; free blocks stay apart exactly when the heap before the call says so |
| `Mmal.Allocator.HdrMerge` | sem_3/ips/proj_2/mmal.c:239-245 | the block takes in its successor in the ring |
| `Mmal.Allocator.Mfree` | sem_3/ips/proj_2/mmal.c:347-359 | frees exactly its block, changes no payload byte, and leaves a valid heap if and only if its merges join adjacent blocks of one arena |
| `Mmal.Allocator.Shrink` | sem_3/ips/proj_2/mmal.c:397-403 | shrinking in place keeps the first bytes, all other payloads and a valid heap |
| `Mmal.Allocator.Enlarge` | sem_3/ips/proj_2/mmal.c:404-408 | moves the block; faults exactly when the inner allocation fails, and the heap is then valid; else it is valid exactly when the merges of the inner mfree are right; the old bytes and all payloads but the chosen block's are kept |
| `Mmal.Allocator.Mrealloc` | sem_3/ips/proj_2/mmal.c:387-410 | the four cases: free, allocate, shrink in place, move, each with the live blocks, the bytes it keeps, and exactly when the heap is valid afterwards; a move is given its own block back exactly when that is the first fit, and keeps all other payloads when the first fit, if there is one, is free |
| `BtShape.PreorderNodesOnce` | sem_3/ial/proj_2/c402/c402.c:352-378 | the pre-order list of nodes holds each node of the tree once |
| `BtShape.HeightIsEnough` | sem_3/ial/proj_2/c402/c402.h:35-43 | a tree that BTPostorder can walk can be walked and disposed of in every way |
| `BtShape.InorderAscends` | sem_3/ial/proj_2/c402/c402.c:190-193 | the in-order listing is strictly ascending if and only if the tree is a search tree |
| `BtOrder.RootFirst` | sem_3/ial/proj_2/c402/c402.c:250-266 | pre-order: for every subtree its root stands before all keys below it, and those of its left part before those of its right part |
| `BtOrder.RootBetween` | sem_3/ial/proj_2/c402/c402.c:284-301 | in-order: for every subtree the left part stands before the root and the root before the right part |
| `BtOrder.RootLast` | sem_3/ial/proj_2/c402/c402.c:321-348 | post-order: for every subtree the left part stands before the right part, and both before the root |
| `BtOrder.ListingsAgree` | sem_3/ial/proj_2/c402/c402.c:250-348 | each listing has every key as often as the tree has it |
| `BtShape.InsertOrdered` | sem_3/ial/proj_2/c402/c402.c:190-193 | inserting a new key keeps a search tree |
| `BtShape.InsertAddsALeaf` | sem_3/ial/proj_2/c402/c402.c:193-195 | insertion adds one leaf and moves no node |
| `BtShape.FoundIffKey` | sem_3/ial/proj_2/c402/c402.c:203-213 | the search meets a key if and only if the tree has it |
| `BtShape.PathLinked` | sem_3/ial/proj_2/c402/c402.c:223-229 | linking the leaf at the end of the search path inserts it into every tree on the path |
| `BtShape.BareInsert` | sem_3/ial/proj_2/c402/c402.c:186-232 | which shape a tree has after an insertion depends on its keys only |
| `BtShape.BuiltDepth` | sem_3/ial/proj_2/c402/c402.c:186-232 | n insertions build a tree of left depth at most n |
| `BtShape.DescendingDepth` | sem_3/ial/proj_2/c402/c402.c:186-232 | n descending keys build a tree of left depth n |
| `BtShape.AscendingDepth` | sem_3/ial/proj_2/c402/c402.c:186-232 | ascending keys build a tree of left depth one |
| `BtStack.PostSpine` | sem_3/ial/proj_2/c402/c402.c:306-319 | stacking the left spine with flags leaves to print what walking the tree in post-order prints |
| `BtStack.PreSpine` | sem_3/ial/proj_2/c402/c402.c:236-248 | the keys printed while stacking the spine, and what it leaves to print, are the pre-order of the tree |
| `BtStack.RoomSpine` | sem_3/ial/proj_2/c402/c402.c:271-301 | stacking the spine and walking its right subtrees takes exactly the left depth of the tree |
| `BtStack.FreeStep` | sem_3/ial/proj_2/c402/c402.c:367-374 | freeing the root after stacking its right child keeps the nodes still to be freed and the height still needed |
| `BtStack.Stack.SPush` | sem_3/ial/proj_2/c402/c402.c:81-93 | pushes exactly when a cell is left for the value |
| `BtStack.Stack.STopPop` | sem_3/ial/proj_2/c402/c402.c:95-108 | removes and returns the top value, or the error value on an empty stack |
| `Bt.Leftmost_Inorder` | sem_3/ial/proj_2/c402/c402.c:271-282 | stacks exactly the left spine, or fails exactly when it does not fit |
| `Bt.Leftmost_Preorder` | sem_3/ial/proj_2/c402/c402.c:236-248 | the same, printing the spine's keys in order |
| `Bt.Leftmost_Postorder` | sem_3/ial/proj_2/c402/c402.c:306-319 | the same on both stacks, which stay equally high |
| `Bt.BTInorder` | sem_3/ial/proj_2/c402/c402.c:284-301 | prints the recursive in-order listing; stays within its stack if and only if the left depth is below MAXSTACK, and the peak is the left depth |
| `Bt.BTPreorder` | sem_3/ial/proj_2/c402/c402.c:250-266 | prints the recursive pre-order listing, with the same exact bound |
| `Bt.BTPostorder` | sem_3/ial/proj_2/c402/c402.c:321-348 | prints the recursive post-order listing; stays within both stacks if and only if the height is below MAXSTACK, and the peak is the height |
| `Bt.BinTree.BTInsert` | sem_3/ial/proj_2/c402/c402.c:186-232 | keeps a heap search tree, adds the key if it is new and there is memory, as a fresh leaf, and otherwise changes nothing |
| `Bt.BinTree.BTDisposeTree` | sem_3/ial/proj_2/c402/c402.c:352-378 | frees each node once, in pre-order, reads none afterwards, leaves the root null; stays within its stack exactly when the need of the tree is below MAXSTACK |
| `Bt.InsertAndList` | sem_3/ial/proj_2/c402/c402.c:186-301 | any run of insertions and then BTInorder lists the set of inserted keys in ascending order, if and only if the left depth of the tree that the keys build is below MAXSTACK; fewer keys than MAXSTACK always do |
| `Bt.DescendingRunOverflows` | sem_3/ial/proj_2/c402/c402.c:81-93 | descending keys overrun the stack exactly from MAXSTACK keys on, ascending keys never |
| `BstShape.PutEntries` | sem_3/ial/proj_2/c401/c401.c:106-120 | insertion sets one entry of the map and keeps the search order |
| `BstShape.RightmostIsGreatest` | sem_3/ial/proj_2/c401/c401.c:135-146 | the rightmost node holds the greatest key, and dropping it removes exactly that entry |
| `BstShape.RemoveEntries` | sem_3/ial/proj_2/c401/c401.c:163-182 | deletion removes exactly the key, in every case, and keeps the search order |
| `BstShape.RemoveNodes` | sem_3/ial/proj_2/c401/c401.c:163-182 | deletion drops one node if the key is there and none otherwise |
| `Bst.BSTSearch` | sem_3/ial/proj_2/c401/c401.c:61-86 | finds the key if and only if the map has it, and then its content; otherwise keeps the caller's variable |
| `Bst.BSTInsert` | sem_3/ial/proj_2/c401/c401.c:89-121 | the heap tree afterwards is the old one with the entry set, with one new node exactly for a new key |
| `Bst.ReplaceByRightmost` | sem_3/ial/proj_2/c401/c401.c:123-148 | the rightmost node's entry moves to the replaced node and the rightmost node is freed |
| `Bst.BSTDelete` | sem_3/ial/proj_2/c401/c401.c:150-183 | the heap tree afterwards is the old one without the key, and the dropped node is freed |
| `Bst.BSTDispose` | sem_3/ial/proj_2/c401/c401.c:185-199 | every node is freed once and the root is null |
| `Bst.Execute` | sem_3/ial/proj_2/c401/c401.c:43-199 | any run of insertions, deletions and searches is answered as a finite map answers it |
| `Words.OrBit` | sem_2/ijc/proj_1/bit_array.h:55 | an or has the digits of both words |
| `Words.AndMask` | sem_2/ijc/proj_1/bit_array.h:87 | masking with 1 << n tests digit n |
| `Words.AndAll` | sem_2/ijc/proj_1/bit_array.h:57 | masking with all digits changes nothing |
| `BitArray.InBounds` | sem_2/ijc/proj_1/bit_array.h:23 | every bit has its place within the declared array, behind element 0 |
| `BitArray.DeclaredLength` | sem_2/ijc/proj_1/bit_array.h:23 | the declared array has about one word for each bit, not for each 64 bits |
| `BitArray.OneWord` | sem_2/ijc/proj_1/bit_array.h:48-55 | storing one word sets one bit and no other |
| `BitArray.Create` | sem_2/ijc/proj_1/bit_array.h:23 | an array of zero bits |
| `BitArray.SetBit` | sem_2/ijc/proj_1/bit_array.h:48-57 | sets one bit to 1, or reports an index outside; asked for 0 it changes nothing, so the bit has the value asked for if and only if that is 1 or the bit was 0 |
| `BitArray.GetBit` | sem_2/ijc/proj_1/bit_array.h:75-91 | reads one bit, or reports an index outside |
| `Sieve.SkipStep` | sem_2/ijc/proj_1/eratosthenes.c:15 | a number that is marked brings no new multiples |
| `Sieve.InnerEnd` | sem_2/ijc/proj_1/eratosthenes.c:16-18 | after the inner loop all multiples within the array are marked |
| `Sieve.IndexBound` | sem_2/ijc/proj_1/eratosthenes.c:14-15 | the outer loop's index stays within an array of three or more bits |
| `Sieve.PrimeHasNoFactor` | sem_2/ijc/proj_1/eratosthenes.c:14 | a number below n * n is prime if and only if it has no factor below n |
| `Sieve.AllPrimes` | sem_2/ijc/proj_1/eratosthenes.c:9-21 | past the square root the unmarked numbers are the primes |
| `Sieve.Eratosthenes` | sem_2/ijc/proj_1/eratosthenes.c:9-21 | on a zeroed array it succeeds if and only if the size is at least 3, and then bit k is 0 if and only if k is prime, for all k |
| `RelayFormat.HeadOption` | sem_5/isa/proj/d6r.cpp:392-412 | an encoded option is read back field by field, and the rest follows it |
| `RelayFormat.WalkFinds` | sem_5/isa/proj/d6r.cpp:399-413 | from any state in which nothing is seen twice, the walk finds what there is |
| `RelayFormat.WalkStops` | sem_5/isa/proj/d6r.cpp:409-410 | once a Relay Message and a name are there, no further option is looked at |
| `RelayFormat.WalkGoesOn` | sem_5/isa/proj/d6r.cpp:409-412 | until then the walk goes on to the last option |
| `RelayFormat.WalkOverlays` | sem_5/isa/proj/d6r.cpp:399-413 | on any options the walk leaves its buffers exactly when it looks at an Interface-Id of more than 16 bytes; otherwise it finds the last Relay Message it looked at, and the ids it looked at copied over each other |
| `RelayFormat.OverlaidByte` | sem_5/isa/proj/d6r.cpp:402 | byte j of ids copied over each other is that of the last id longer than j |
| `RelayFormat.LastIdRecoveredIff` | sem_5/isa/proj/d6r.cpp:402 | after any ids, the last one is recovered if and only if what it leaves of the others is zero |
| `RelayFormat.WalkRecoversLastIdIff` | sem_5/isa/proj/d6r.cpp:399-413 | the same of the walk over any options |
| `RelayFormat.SecondIdRecoveredIff` | sem_5/isa/proj/d6r.cpp:399-413 | of any two ids the second is recovered if and only if the first has only zeros beyond it |
| `RelayFormat.OverrunIff` | sem_5/isa/proj/d6r.cpp:399-413 | with one Relay Message and one non-empty Interface-Id at most, the copy leaves the name's 16 bytes if and only if the id is longer |
| `RelayFormat.FoundInAnyOrder` | sem_5/isa/proj/d6r.cpp:399-413 | one Relay Message and at most one non-empty Interface-Id of at most 15 bytes are recovered wherever they stand |
| `Relay.Store` | sem_5/isa/proj/d6r.cpp:330-356 | writes its bytes and only bytes not written before |
| `Relay.BuildForward` | sem_5/isa/proj/d6r.cpp:311-356 | relays exactly the client messages of types 1, 3, 4, 5, 6, 8, 9 and 11; every byte of the buffer is written once, and each is given by its offset: type 12, no hops, the addresses, option 9 with the message, option 79 with the MAC address, option 18 with the interface name, in network order |
| `Relay.RemainingStep` | sem_5/isa/proj/d6r.cpp:399-413 | one turn of the walk on a well-formed list stays in the buffer and keeps what remains to be found |
| `Relay.ProcessReply` | sem_5/isa/proj/d6r.cpp:386-415 | ends on every buffer of bytes, well-formed or not, with the outcome and at the option that EndsAt says, reading the options one after the other |
| `Relay.EndsOnce` | sem_5/isa/proj/d6r.cpp:386-415 | there is only one such option and one such outcome |
| `Relay.OutOfBufferIff` | sem_5/isa/proj/d6r.cpp:386-415 | on any buffer an access leaves the buffer or the name exactly when an option that is looked at, or the message sent on, does not fit |
| `Relay.ReplyIsAnswered` | sem_5/isa/proj/d6r.cpp:386-415 | on a well-formed Relay-reply the outcome is what the walk over its options says, and an access leaves the name exactly when an option looked at is an Interface-Id of more than 16 bytes |
| `Relay.ReplyOverrunsIff` | sem_5/isa/proj/d6r.cpp:402 | with one Relay Message and one Interface-Id at most that is exactly when the id has more than 16 bytes |
| `Relay.ReplyReachesItsInterface` | sem_5/isa/proj/d6r.cpp:499-511 | a reply with its interface-id, among any other options, is sent to the client from that interface |
| `Relay.ReplyInBytes` | sem_5/isa/proj/d6r.cpp:386-415 | a buffer with type 13, the client's address at 18, and from 34 on options 18 and 9 in either order, byte by byte, is answered by sending the content of option 9 to that address from the interface named by option 18 |
| `Relay.ForwardRoundTrip` | sem_5/isa/proj/d6r.cpp:335-413 | the options of a Relay-forward are read back |
| `DListSpec.DeleteUndoesInsert` | sem_3/ial/proj_1/c206/c206.c:244-344 | deleting next to the cursor undoes inserting on the same side; DLPred undoes DLSucc exactly when there is a successor |
| `DListSpec.DeleteUndoesInsertAtEnd` | sem_3/ial/proj_1/c206/c206.c:103-242 | deleting at an end undoes inserting there |
| `DListSpec.AroundTheActive` | sem_3/ial/proj_1/c206/c206.c:244-367 | inserting and deleting beside the active value, and changing it, in terms of what lies before and behind it |
| `DListSpec.EndsWithActive` | sem_3/ial/proj_1/c206/c206.c:103-148 | inserting at the ends keeps the active value |
| `DListSpec.EndsDeleted` | sem_3/ial/proj_1/c206/c206.c:193-242 | deleting at the ends keeps the active value, unless it is itself deleted, and then the cursor is lost |
| `DListSpec.MovesAndReads` | sem_3/ial/proj_1/c206/c206.c:150-191 | the cursor moves by one, or to an end, and is lost beyond either end; the copies read the active, first and last value |
| `DListSpec.ActualizeThenCopy` | sem_3/ial/proj_1/c206/c206.c:346-367 | a value that is set is the one copied next; without an active element the caller's variable is kept |
| `DListSpec.EndsWithNoneActive` | sem_3/ial/proj_1/c206/c206.c:103-242 | without a cursor the ends can be changed and the cursor set |
| `DListSpec.NothingWithNoneActive` | sem_3/ial/proj_1/c206/c206.c:244-394 | without a cursor all else does nothing |
| `DListSpec.NoMemory` | sem_3/ial/proj_1/c206/c206.c:103-344 | without memory nothing is inserted and the error flag is set, if there was a place to insert at |
| `DLists.Inserted` | sem_3/ial/proj_1/c206/c206.c:284-344 | once the neighbours and the new element are linked, the longer list is linked both ways |
| `DLists.Removed` | sem_3/ial/proj_1/c206/c206.c:244-282 | once the neighbours are linked to each other, the shorter list is linked both ways |
| `DLists.List.DLInsertFirst` | sem_3/ial/proj_1/c206/c206.c:103-125 | inserts at the front; the cursor stays on its element; without memory only the error flag is set |
| `DLists.List.DLInsertLast` | sem_3/ial/proj_1/c206/c206.c:127-148 | inserts at the end |
| `DLists.List.DLPostInsert` | sem_3/ial/proj_1/c206/c206.c:284-312 | inserts behind the active element, if any |
| `DLists.List.DLPreInsert` | sem_3/ial/proj_1/c206/c206.c:314-344 | inserts in front of the active element, if any |
| `DLists.List.DLDeleteFirst` | sem_3/ial/proj_1/c206/c206.c:193-216 | removes and frees the first element, and the cursor with it if it was active |
| `DLists.List.DLDeleteLast` | sem_3/ial/proj_1/c206/c206.c:218-242 | removes and frees the last element, and the cursor with it if it was active |
| `DLists.List.DLPostDelete` | sem_3/ial/proj_1/c206/c206.c:244-262 | removes and frees the element behind the active one, if any |
| `DLists.List.DLPreDelete` | sem_3/ial/proj_1/c206/c206.c:264-282 | removes and frees the element in front of the active one, if any |
| `DLists.List.DLActualize` | sem_3/ial/proj_1/c206/c206.c:358-367 | the active value becomes the new one; every other value, the length and the cursor stay, and without an active element all values do |
| `DLists.List.DLSucc` | sem_3/ial/proj_1/c206/c206.c:369-380 | moves the cursor on, or drops it at the end |
| `DLists.List.DLPred` | sem_3/ial/proj_1/c206/c206.c:383-394 | moves the cursor back, or drops it at the start |
| `DLists.List.DLCopy` | sem_3/ial/proj_1/c206/c206.c:346-356 | the active value, or the error flag and the caller's variable unchanged |
| `DLists.List.DLCopyFirst` | sem_3/ial/proj_1/c206/c206.c:169-179 | the first value, or the error flag |
| `DLists.List.DLCopyLast` | sem_3/ial/proj_1/c206/c206.c:181-191 | the last value, or the error flag |
| `DLists.List.DLDisposeList` | sem_3/ial/proj_1/c206/c206.c:83-101 | frees every element once and leaves the empty list |
| `DLists.Execute` | sem_3/ial/proj_1/c206/c206.c:70-402 | any run of operations, copies and cursor tests included, is answered as on plain sequences, error flags and kept variables included; a walk from the cursor and one from the start then meet the values of the run |
| `Chains.OneChain` | sem_3/ial/proj_2/c016/c016.c:109-188 | changing the entry of a key in its chain changes that entry of the map and no other |
| `Chains.SumOfParts` | sem_3/ial/proj_2/c016/c016.c:55-61 | the hash code of c016 is the sum of the characters, and one, in whatever order they come |
| `Chains.PolyOfParts` | sem_2/ijc/proj_2/htab_hash_function.c:7-13 | the hash code of htab has the characters as its digits to the base 65599, modulo 2^32 |
| `Chains.Removed` | sem_3/ial/proj_2/c016/c016.c:167-188 | without its cell the chain has lost that key and no other |
| `Chains.ChainsApart` | sem_3/ial/proj_2/c016/c016.c:83-95 | no item is in two chains, because its key belongs to one |
| `Chains.Locate` | sem_2/ijc/proj_2/htab_find.c:16-29 | finds the item of the key, or the last item when there is none |
| `Chains.Unlink` | sem_2/ijc/proj_2/htab_remove.c:23-39 | takes the item out of the chain and frees it |
| `Chains.Append` | sem_2/ijc/proj_2/htab_lookup_add.c:55-64 | the new item becomes the last of the chain |
| `HashTable.HTable.htInit` | sem_3/ial/proj_2/c016/c016.c:68-74 | an empty map, whatever the size |
| `HashTable.HTable.htSearch` | sem_3/ial/proj_2/c016/c016.c:83-95 | the item of the key if and only if the map has it |
| `HashTable.HTable.htInsert` | sem_3/ial/proj_2/c016/c016.c:109-135 | sets one entry; without memory only an existing one |
| `HashTable.HTable.htRead` | sem_3/ial/proj_2/c016/c016.c:146-155 | the entry of the key, if any |
| `HashTable.HTable.htDelete` | sem_3/ial/proj_2/c016/c016.c:167-188 | removes one entry |
| `HashTable.HTable.htClearAll` | sem_3/ial/proj_2/c016/c016.c:195-210 | frees every item once and leaves the empty map |
| `HashTable.Execute` | sem_3/ial/proj_2/c016/c016.c:68-210 | a table of any size answers any run as a finite map does |
| `Htab.Table.htab_lookup_add` | sem_2/ijc/proj_2/htab_lookup_add.c:12-68 | one more occurrence of the word, a new entry with 1 for a new word, size stays the number of words |
| `Htab.Table.htab_remove` | sem_2/ijc/proj_2/htab_remove.c:11-44 | removes the word and says whether it was there, size stays the number of words |
| `Htab.Table.htab_find` | sem_2/ijc/proj_2/htab_find.c:11-32 | the item of the word if and only if it is in the table, with its count |
| `Htab.CountsAreExact` | sem_2/ijc/proj_2/htab_lookup_add.c:12-68 | after any run, additions without memory included, a word's entry is the number of its additions since the last removal, from the first that found memory on, and there is none if that is 0 |
| `Htab.Execute` | sem_2/ijc/proj_2/htab_lookup_add.c:12-68 | a table of any size answers every call of a run with those counts, and in the end has them and the number of words with a count above 0 |

## Left out

- ProcessReply: does not model the read of one byte of the Relay Message at d6r.cpp:422, which only chooses whether an address is logged.
- Eratosthenes: does not model the rounding of the floating-point square root, or the wrap-around of i * j, for sizes near 2^64.
- Index: does not model the signed characters and the bounded sum of hashCode at c016.c:55-61; keys have non-negative characters.
- HdrCanMerge: does not state adjacency, because the code does not test it; the condition is in FreedOkIff.
- proj2.c: fork, sleeping, signals, shared memory and named semaphores; a rider not yet forked is one that has not taken its first step; counters are unbounded integers.
- psed.c: reading arguments, and the undefined behaviour of unlocking a mutex from another thread; an access under threadIdMutex or stdOutMutex is one step.
- mmal.c: the choice of addresses by mmap (any region that overlaps no arena), size_t overflow, alignment, and the arena deletion that is commented out.
- c402.c, c401.c, c206.c: what happens after a write outside an array or through a null pointer; content values are unbounded integers.
- c016.c: the float contents are integers, as they are only copied; null tables and keys are refused at once by the code and are not modelled.
- The primes program around the sieve.
- d6r.cpp: sockets, packet capture, the IPv6 header chain, the MAC address map, and the walks at 419-470 that choose the address to be logged; a UDP datagram without payload.
- htab_clear and htab_move follow pointers of items already freed or moved; htab_foreach, htab_free and the input of words.
- The other programs of the repository: input and output around simple loops, scripts and pages.
