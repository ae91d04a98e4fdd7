# dyco in Dafny: the coroutine runtime as proved state machines

dyco is a single-threaded cooperative coroutine runtime in C. One coroutine runs
at a time and control changes hands only where a coroutine yields or is resumed,
so every protocol in it is a sequence of atomic steps between wait points. The
project models its five hard components and proves properties that hold over
every input, every interleaving or every reachable state.

- **The sleeping index.** The red-black tree of `sys_tree.h`, on the heap with its
  parent pointers (`RbHeap.dfy`), follows the loops and rotations of the code. The
  ghost tree and the upward path that its proof uses are in `RbTree.dfy`; the two
  mirror branches of the macros share one body with a side parameter. What the
  scheduler does to the index is specified on sorted sequences of deadlines
  (`Entries.dfy`, `Deadlines.dfy`) and shown of the tree in `Sleep.dfy`.
- **The scheduler.** `Scheduler.dfy` is the state machine: two ready queues, the
  sleeping index, the descriptor map, status bits and the running coroutine, with
  every API call and every step of the loop as an event. `SchedulerLoop.dfy` adds
  the order in which `dyco_schedule_run` takes its steps, `SchedulerPoll.dfy` what
  its poll asks for in any reachable state and does with what is reported,
  `SchedulerPlaces.dfy` where each event takes the coroutine it is about,
  `SchedulerStop.dfy` what a stop ends, and `SchedulerHeap.dfy` is the object with its
  loops.
- **The shared stack** (`SharedStack.dfy`, `Bytes.dfy`), shown to refine private stacks.
- **The hash table** (`HTable.dfy`, `HTableHeap.dfy`), shown to refine a finite map,
  the two keys for which it does not (`HTableKeys.dfy`), and the coroutine ids kept in
  it (`Cid.dfy`).
- **The synchronisation protocols**: channel, semaphore, publish-subscribe,
  waitgroup and coroutine pool. Each file has the steps as functions, the callers
  as a state machine over whole runs, and the object updated in place. An eventfd
  is its counter (`Waiters.dfy`): a write adds, a non-blocking read returns and
  clears it or fails at zero. The semaphore, whose queue can hold a descriptor that
  was closed, has the whole table of open descriptors, in which others may open and
  close files too.

Time is a non-decreasing natural number that each reading may advance. What a
coroutine does between being resumed and giving control back is an arbitrary
sequence of API calls. A parked call may resume at any time unless its model says
otherwise, which covers both notification and timeout.

## Where the code departs from its intent

The model does what the code does. Where a promised property is false of it, one lemma
reaches the failure by a run from the initial state and another states for all cases
when the property holds.

- **Sleeps.** Milliseconds are multiplied by 1000 in 32 bits. The product is right
  exactly up to 4294967 ms and 0 exactly for multiples of 2^29 ms
  (`Deadlines.UsecsExact`). Every coroutine stays in one place exactly for the lengths
  that `SchedulerSpec.SafeSleepIff` names: above 2^31 - 1 ms the argument is negative and
  the caller is put nowhere at once; a multiple of 2^29 ms gives a deadline that is no
  later than the clock, so that another coroutine can have it as its old key and remove
  the sleeper by it (`SchedulerSpec.UnsafeSleepLoses`, for every such length).
- **Timed descriptor waits.** The caller is in two places, exactly when the timeout is
  positive (`SchedulerSpec.EndlessWaitIff`), and it is enqueued while it is already queued
  when its descriptor is reported in one turn of the loop and its timer fires at the
  beginning of the next (`SchedulerLoop.TimedWaitEnqueuesTwice`).
- **The poll.** A call of epoll_wait that a signal interrupts is repeated with the timeout
  computed before the first. With a sleeper the poll is over by every deadline to come if
  and only if its last call was made within the part of a millisecond that the timeout
  leaves out, so always when nothing interrupts it (`SchedulerPoll.PollInTime`). Signals
  that keep coming make it oversleep by any amount
  (`SchedulerPoll.InterruptedOversleeps`, for every length of sleep). Without a sleeper it
  asks for the loop timeout exactly when that is below 2^31 ms, and is endless exactly when
  the low 32 bits of the milliseconds are negative as an int (`Deadlines.LoopwaitIff`).
- **The hash table.** A resize marks only slot 0 as empty, so key 0, never inserted, is
  reported present exactly from the second resize on (`HTableKeys.ZeroAppears`). A stored
  key 0 that meets the second resize keeps its value exactly when that is NULL or nothing
  before it in slot 0 goes to slot 0 of the larger table (`HTableKeys.ZeroSurvivesIff`).
  Key -1 is the mark of an empty slot: it is found after its insertion, and after the
  resize that this may make, exactly when its slot was occupied
  (`HTableKeys.MinusOneFoundIff`), and a deletion changes other keys exactly
  when it moves a chained -1 into the slot (`HTableKeys.DeleteHidesIff`,
  `HTableKeys.MinusOneHides`). At width 24 an insertion that fills the table returns -1
  although the entry is stored (`HTableSpec.InsertRefines`).
- **Coroutine ids.** They repeat after 2^24 creations, so a creation overwrites a live
  entry exactly when that was made a multiple of 2^24 creations earlier
  (`CidSpec.OverwriteIff`); such a state is reached (`CidSpec.OverwriteReached`) and the
  counts then part (`CidSpec.OverwriteBreaksCount`).
- **The semaphore.** A wait that timed out leaves its node queued with a closed
  descriptor. `SemaphoreSpec.SignalFate` says for every reachable state where the signal
  that takes this node goes: to its caller, to whichever wait was given the number since,
  into somebody's file, or to the end of the process.
  `SemaphoreSpec.EndlessTimeoutIff` shows that waits of a given timeout are free of each
  of the three failures exactly when it is negative.
- **The channel.** A parked caller can be left unannounced exactly when one side has two
  callers and the other has any (`ChannelSpec.NoneStrandedIff`). The repository's
  README.md (lines 358-362) promises 0 from a closed channel; the code returns 0 for a
  timeout and -1 for a closed channel, and the model follows the code.
- **The waitgroup.** A wait for all loses its wake-up exactly when it is made while more
  have finished than there are members (`WaitGroupSpec.WaitInTimeIff`,
  `WaitGroupSpec.DoneTwiceOvertakes`). It returns the size at its notification exactly
  when the group was complete only once before it resumed
  (`WaitGroupSpec.WaitAllReturns`), which a member that joins and finishes in between
  breaks exactly when it is new (`WaitGroupSpec.JoinBreaksIff`).
- **The pool.** A caller that was told about a coroutine can be overtaken and get 0
  (`CoroPoolSpec.ToldCanFail`). Each event leaves a coroutine for everyone who was told
  exactly under the guard that `CoroPoolSpec.HonoursIff` states for it.

## Model

| member | source | states |
|---|---|---|
| RbHeap.SleepTree.Rotate | include/dyco/sys_tree.h:335-373 | Either rotation, with all parent, child and root pointers relinked, turns the heap of a subtree into the heap of the rotated subtree and changes nothing around it |
| RbTree.RotInorder | include/dyco/sys_tree.h:335-373 | A rotation keeps the in-order sequence |
| RbHeap.SleepTree.InsertColor | include/dyco/sys_tree.h:400-442 | From any tree whose only fault is the new red node, the fix-up loop terminates in a valid red-black tree with the same in-order sequence |
| RbHeap.SleepTree.Insert | include/dyco/sys_tree.h:588-616 | On any valid tree, either an equal key exists, its node is returned and nothing changes, or exactly the new node is added in key order and search order, colours, black heights and parent links all hold again |
| RbTree.SiblingExists | include/dyco/sys_tree.h:444-481 | While the removal fix-up climbs, the sibling whose colour it reads is never null |
| RbHeap.SleepTree.RemoveColor | include/dyco/sys_tree.h:444-518 | From any tree that lacks one black node below the current position, the fix-up loop terminates with equal black heights and no red-red edge, and keeps the in-order sequence |
| RbHeap.SleepTree.Successor | include/dyco/sys_tree.h:529-535 | The walk to the left inside the right subtree ends at the in-order successor of the node to be removed |
| RbHeap.SleepTree.Remove | include/dyco/sys_tree.h:520-585 | Removing any node of any valid tree leaves a valid tree with all links restored whose in-order sequence is the old one without that node |
| RbHeap.SleepTree.Find | include/dyco/sys_tree.h:619-634 | Returns the node with the key, and null exactly when no node has it |
| RbHeap.SleepTree.MinMax | include/dyco/sys_tree.h:701-714 | Returns the node of the least key (of the greatest for a non-negative argument), null only for the empty tree |
| RbTree.HeightBound | include/dyco/sys_tree.h:400-442 | A valid tree of n nodes has height at most 2 log2(n+1), stated as 2^height <= (n+1)^2 |
| RbTree.ZipRB | include/dyco/sys_tree.h:400-518 | A whole tree is red-black if and only if the subtree in focus and the path above it are, and they fit: the local view the fix-up loops rely on |
| Sleep.Bump | src/dyco_schedule.c:155-166 | The insertion loop ends with the coroutine in the tree at the least unused deadline not below the wanted one |
| Sleep.SchedSleep | src/dyco_schedule.c:143-169 | On the tree, scheduling a sleep removes whoever has the old key and, for a positive argument, inserts the coroutine as specified on sorted sequences; its status bits follow |
| Sleep.CancelSleep | src/dyco_schedule.c:171-181 | A sleeping coroutine, and only that one, leaves the tree |
| Sleep.GetExpired | src/dyco_schedule.c:14-30 | Takes out the sleeper of the least deadline if it is due; otherwise nothing changes and no deadline is due |
| Sleep.MinTimeout | src/dyco_schedule.c:32-41 | The time to the least deadline, 0 if past, or the loop timeout without sleepers |
| Sleep.EpollWait | src/dyco_schedule.c:43-70 | On the tree, the poll asks nothing, looks once, or repeats its call with the same timeout until one is not interrupted, and returns what the last call returned |
| Sleep.ExpirePass | src/dyco_schedule.c:292-292 | On the tree, the loop on schedule_get_expired terminates for every sequence of clock readings, takes the sleepers from the front in deadline order, as many as are due at the reading of their turn, and leaves the rest; the two queues they join are in SchedulerHeap.Scheduler.ExpirePass |
| Deadlines.LeastFreeIsLeast | src/dyco_schedule.c:155-166 | Bumping stops after at most one bump per sleeper, at the least unused deadline not below the start |
| Deadlines.SchedSleepAdds | src/dyco_schedule.c:143-169 | For a coroutine whose old key no sleeper holds, exactly one entry is added, at the least unused deadline from now + 1000 msecs on, and all deadlines stay distinct |
| Deadlines.SchedSleepExact | src/dyco_schedule.c:143-169 | Whatever the argument, exactly whoever has the caller's old key leaves the index, be that the caller or another, and a positive argument adds the caller; all deadlines stay distinct |
| Deadlines.SchedSleepRelabels | src/dyco_schedule.c:143-169 | Scheduling a sleep commutes with renaming the sleepers, so what Sleep.SchedSleep does to the coroutines of the tree is what the scheduler's state machine does to their ids |
| Deadlines.UsecsExact | src/dyco_schedule.c:152-152 | The 32-bit product is 1000 msecs exactly for msecs up to 4294967 and is 0 exactly for multiples of 2^29 |
| Deadlines.ReadingsExact | src/dyco_schedule.c:14-30 | With a monotone clock a pass takes every sleeper due at its first reading and none that is not due at its last |
| Deadlines.PollWithSleeper | src/dyco_schedule.c:43-70 | With a sleeper less than 2^31 ms away and any interruptions, the last call gives up no later than the earliest deadline if and only if it was made within the part of a millisecond that the timeout leaves out, and less than a millisecond before it; with somebody ready or due the poll does not wait |
| Deadlines.Postpones | src/dyco_schedule.c:57-68 | For every positive timeout there are interruptions that put the end of the poll beyond any given time |
| SchedulerPoll.RunNear | src/dyco_schedule.c:143-169 | In every run no deadline is further from the clock than 2^32 microseconds and one per event |
| SchedulerPoll.PollInTime | src/dyco_schedule.c:43-70 | In every run of fewer than 2*10^12 events, with any interruptions, the poll on the scheduler's own queues, sleepers and descriptors is left out exactly when nobody sleeps or waits and does not wait while a coroutine is ready; its last call gives up by the deadline of every sleeper not yet due if and only if it was made within the part of a millisecond that the timeout leaves out, and not a millisecond or more before the earliest |
| SchedulerPoll.InterruptedOversleeps | src/dyco_schedule.c:57-68 | For every sleep up to 4294967 ms and every time, a run from the creation of the scheduler and a series of interruptions put the end of the poll beyond that time |
| SchedulerPoll.ReportsExact | src/dyco_schedule.c:363-385 | From every state between turns a poll handles everything that is reported: each queue grows by exactly the waiters of the reported descriptors with that urgent bit, these descriptors leave the map, their waiters' bits say ready and no longer waiting, and nothing else changes |
| SchedulerPoll.AwaitedOrdered | src/dyco_schedule.c:363-385 | Of these waiters nobody is missing or there twice, and they stand in the order of their first report |
| Deadlines.LoopwaitIff | src/dyco_schedule.c:59-59 | Without sleepers and at any time the poll asks for the loop timeout exactly when that is below 2^31 ms, and is endless exactly when its low 32 bits are negative as an int |
| SchedulerSpec.EnqueueKeeps | src/dyco_coroutine.c:333-344 | Putting the running coroutine at the end of a queue keeps every coroutine in exactly one place with agreeing bits |
| SchedulerSpec.CreateKeeps | src/dyco_coroutine.c:196-255 | Creation, inside or outside a run, keeps the placement of all |
| SchedulerSpec.ResumeKeeps | src/dyco_schedule.c:306-309 | Taking the head of a queue to run it keeps the placement of all |
| SchedulerSpec.SleepEntry | src/dyco_schedule.c:143-169 | A safe sleep adds one entry whose deadline lies above the clock and so is nobody's old key |
| SchedulerSpec.RemovesNobody | src/dyco_coroutine.c:186-188 | The removal by key in a descriptor wait without timeout removes nobody |
| SchedulerSpec.ExpireKeeps | src/dyco_schedule.c:292-299 | One turn of the expiry loop moves a due sleeper to a queue and keeps the placement of all |
| SchedulerSpec.FdReadyKeeps | src/dyco_schedule.c:371-383 | A reported descriptor moves its waiter to a queue, an unknown one changes nothing, and the placement of all is kept |
| SchedulerSpec.ExitKeeps | src/dyco_coroutine.c:151-159 | An exiting coroutine is nowhere in the structures, so its end keeps the placement of the others |
| SchedulerSpec.StopKeeps | src/dyco_schedcall.c:70-100 | A stop re-enqueues its caller and keeps the placement of all |
| SchedulerSpec.DoneMeansExited | src/dyco_schedule.c:7-10 | When the four structures are empty between turns, no coroutine is left |
| SchedulerSpec.Location | src/dyco_schedule.c:143-209 | In every run whose waits are safe sleeps or endless descriptor waits, through stops and re-runs, each unfinished coroutine is in exactly one of running, ready, urgent, sleeping and descriptor map, its bits say which, and the scheduler is done only when all have exited |
| SchedulerSpec.RemovalHitsNobody | src/dyco_schedule.c:145-149 | In those runs the key of a coroutine outside the index is at most the clock and no sleeper has it, and a coroutine whose SLEEPING bit is set is in the index, so RB_REMOVE only ever takes out a node that is there |
| SchedulerSpec.EndsExact | src/dyco_schedule.c:171-194 | In any state the two calls that end a wait take the caller's own entry out of the index and its descriptor out of the map if its bits say it sleeps or waits, clear both bits and touch nobody else |
| SchedulerPlaces.EveryEventMoves | src/dyco_schedule.c:143-390 | In every run with safe sleeps and endless waits each event takes the coroutine it is about where it is meant to go: a creation to the queue of its urgency, a yield, stop, expiry or report to the queue of the urgent bit, a sleep to the earliest free deadline, a wait to its descriptor, an exit away, a resume from the head of its queue to running. Everyone else stays where they are |
| SchedulerPlaces.UrgencyIsLastSet | src/dyco_coroutine.c:478-507 | In every run the urgent bit of a coroutine is what it was last created with or set to |
| SchedulerSpec.SafeSleepIff | src/dyco_schedule.c:143-169 | A sleep length can be allowed in every run without breaking the one-place rule if and only if it is positive, at most 2^31 - 1 and not a multiple of 2^29 |
| SchedulerSpec.UnsafeSleepLoses | src/dyco_schedule.c:145-154 | For every other length a run from the creation of the scheduler, with sleeps of that length only, leaves a live coroutine in no place |
| SchedulerSpec.EndlessWaitIff | src/dyco_coroutine.c:186-190 | A nonzero timeout of a descriptor wait can be allowed in every run if and only if it is negative |
| SchedulerLoop.JoinsByUrgency | src/dyco_schedule.c:294-298 | Whoever becomes ready, by whichever event, is added singly at the end of the queue of its urgent bit with its ready bit set, and the other queue is unchanged |
| SchedulerLoop.CallExtends | src/dyco_coroutine.c:323-345 | No call of a running coroutine removes or reorders what is queued |
| SchedulerLoop.LapsFrom | src/dyco_schedule.c:301-339 | Whatever is appended during a phase, it resumes the snapshot in order, up to the cap, unless a coroutine stops it |
| SchedulerLoop.PhaseExact | src/dyco_schedule.c:301-339 | From a duplicate-free queue a phase resumes exactly the first min(n,128) of its snapshot in order and leaves the rest in front of what was added, or a prefix of them if one stops the scheduler |
| SchedulerLoop.RoundServes | src/dyco_schedule.c:288-387 | A round resumes at most 128 urgent coroutines and then the front of the ordinary queue, and moves everyone else of that queue 128 places forward |
| SchedulerLoop.BoundedWaiting | src/dyco_schedule.c:301-339 | With duplicate-free snapshots and no stop, the coroutine at position k of the ordinary queue is the k-th ordinary coroutine resumed, within k/128 + 1 rounds, whatever is enqueued meanwhile |
| SchedulerLoop.PlainRunsAreFair | src/dyco_schedule.c:288-387 | Runs with safe sleeps and endless waits have duplicate-free snapshots, so bounded waiting holds in them |
| SchedulerLoop.PassExact | src/dyco_schedule.c:290-299 | An expiry pass takes from the front every sleeper due at its first reading and none not due at its last, and appends them to the queue of their urgent bit |
| SchedulerLoop.SelectOrdered | src/dyco_schedule.c:295-298 | Within each queue the expired coroutines stand in increasing deadline order, and nobody of that urgency is missing |
| SchedulerLoop.RunReturns | src/dyco_schedule.c:267-390 | A whole call of the run function keeps every coroutine in one place, returns 0 exactly when all have exited and otherwise 1, stopped and ready to run again |
| SchedulerStop.StatusIsLastSet | src/dyco_schedcall.c:70-100 | In every run only a stop stops the scheduler, only finding nothing left finishes it, a start runs it again unless it is done, and a creation makes a finished one ready |
| SchedulerStop.RoundStops | src/dyco_schedule.c:301-339 | A turn of the loop ends stopped exactly if somebody stops in it, and then nobody is resumed and nothing is polled after |
| SchedulerStop.StopEndsRun | src/dyco_schedule.c:267-390 | A call of the run function, with any sleeps and waits, returns 1 exactly if somebody stops in its last turn, and nobody stops in an earlier one |
| SchedulerLoop.TimedWaitEnqueuesTwice | src/dyco_schedule.c:288-387 | For every positive timeout of a descriptor wait, one turn of the loop from the start of a scheduler, which reports the descriptor, and the expiry pass of the next enqueue the caller while it is already queued |
| SchedulerSpec.TreeStaysLinked | src/dyco_schedule.c:143-181 | If the sleepers of the scheduler's state are those of a tree under other names, they stay so when both schedule a sleep, cancel one or expire one sleeper, and the new keys are equal |
| SchedulerHeap.Scheduler.Enqueue | src/dyco_coroutine.c:334-338 | Sets the ready bit and appends to the queue of the urgent bit |
| SchedulerHeap.Scheduler.Create | src/dyco_coroutine.c:196-255 | Enters a new coroutine with fresh bits in the chosen queue and turns a finished scheduler ready again |
| SchedulerHeap.Scheduler.Mark | src/dyco_coroutine.c:478-507 | Changes only the urgent bit of a live coroutine, or returns -1 |
| SchedulerHeap.Scheduler.SchedSleep | src/dyco_schedule.c:143-169 | In the scheduler's state, whoever has the old key leaves the sleepers and the caller enters at the deadline the bump loop finds |
| SchedulerHeap.Scheduler.CancelSleep | src/dyco_schedule.c:171-181 | In the scheduler's state, a caller whose SLEEPING bit is set leaves the sleepers |
| SchedulerHeap.Scheduler.SchedWait | src/dyco_schedule.c:197-209 | Enters the coroutine for the descriptor and sets its waiting bit |
| SchedulerHeap.Scheduler.CancelWait | src/dyco_schedule.c:183-194 | Deletes the descriptor and clears the bit, only if the waiting bit is set |
| SchedulerHeap.Scheduler.Perform | src/dyco_coroutine.c:163-194 | Each call a running coroutine can make, done in place, has the effect of its event in the state machine |
| SchedulerHeap.Scheduler.Resume | src/dyco_coroutine.c:121-161 | The head of a queue leaves it, its READY bit is cleared and it runs its calls until it gives control back |
| SchedulerHeap.Scheduler.ExpirePass | src/dyco_schedule.c:290-299 | The expiry loop in place computes the expiry pass of the specification |
| SchedulerHeap.Scheduler.RunPhase | src/dyco_schedule.c:301-339 | The phase loop with its snapshot and counter takes exactly the turns of the specification and resumes that order |
| SchedulerHeap.Scheduler.Poll | src/dyco_schedule.c:363-385 | The loop over reported descriptors readies their waiters in order |
| SchedulerHeap.Scheduler.Run | src/dyco_schedule.c:267-390 | On a scheduler that is not aborted, the run loop in place ends in the state and with the return value about which the lemma on whole calls speaks |
| StackSpec.NextKeepsInv | src/dyco_coroutine.c:54-72 | In every step each save buffer has at least the capacity of its recorded size, despite the grow and shrink pattern |
| StackSpec.SharedRefinesPrivate | src/dyco_coroutine.c:99-161 | For every interleaving of any number of coroutines, the shared stack with saved copies behaves as one private stack per coroutine |
| StackSpec.SuspendedKeeps | src/dyco_coroutine.c:109-161 | What others do leaves the saved copy of a suspended coroutine unchanged |
| StackSpec.ResumeFindsWhatYieldLeft | src/dyco_coroutine.c:109-161 | A resumed coroutine finds exactly the bytes and the depth it left at its last yield |
| StackHeap.Coroutine.SaveStk | src/dyco_coroutine.c:54-72 | The copy out, with its conditional reallocation, saves the live suffix of the shared stack |
| StackHeap.Coroutine.LoadStk | src/dyco_coroutine.c:99-107 | The copy back restores the saved suffix and nothing else |
| HTableSpec.LookupRefines | include/dyco/dyco_htable.h:255-293 | Find and contains answer as the finite map for every key but -1, and for key 0 as long as the number of resizes allows it |
| HTableSpec.InsertRefines | include/dyco/dyco_htable.h:134-173 | Insertion updates the map, returns 0 exactly for a present key, and -1 exactly when the table of width 24 becomes full |
| HTableSpec.DeleteRefines | include/dyco/dyco_htable.h:175-213 | Deletion removes the key and returns -1 exactly for an absent one |
| HTableSpec.RehashRel | include/dyco/dyco_htable.h:295-357 | A resize, with its placeholder entries of id 0, represents the same map, unless a second one meets a stored key 0 |
| HTableSpec.TableIsMap | include/dyco/dyco_htable.h:134-357 | Every sequence of operations, through any number of resizes, answers as a finite map for all keys but -1, where key 0 may be used up to the second resize and not be stored when that comes; the count is the size of the map, and below width 24 it stays under twice the mask |
| HTableSpec.PlainTableIsMap | include/dyco/dyco_htable.h:134-357 | In particular every sequence of operations on keys other than 0 and -1 answers as a finite map |
| HTableKeys.ZeroAppears | include/dyco/dyco_htable.h:308-312 | Key 0, never inserted, is reported present exactly when at least two resizes have happened |
| HTableKeys.ZeroSurvivesIff | include/dyco/dyco_htable.h:295-357 | When an insertion makes the second resize and meets a stored key 0, the key is found with its value if and only if that is NULL or no entry before it in slot 0 goes to slot 0 of the larger table, and otherwise as NULL |
| HTableKeys.MinusOneFoundIff | include/dyco/dyco_htable.h:134-173 | After every sequence of operations with any keys, an inserted key -1 is found with its value, also after the resize the insertion may make, exactly when its slot was occupied; in an empty slot it is only counted, again at each insertion |
| HTableKeys.DeleteHidesIff | include/dyco/dyco_htable.h:183-198 | After every sequence of operations with any keys, deleting a present key changes what another key is mapped to exactly when the entry chained next to the deleted slot entry is -1, and then every key of that slot is hidden |
| HTableKeys.MinusOneHides | include/dyco/dyco_htable.h:183-198 | Insertions alone lead from the initial table to a slot where a deletion hides a stored key |
| HTableHeap.HTable.constructor | include/dyco/dyco_htable.h:55-78 | The initial table of the clamped width, every slot empty |
| HTableHeap.HTable.Insert | include/dyco/dyco_htable.h:134-173 | The insertion in place on the bucket array is the one specified, return value included |
| HTableHeap.HTable.Delete | include/dyco/dyco_htable.h:175-213 | The deletion in place is the one specified and hands out the removed value |
| HTableHeap.HTable.Find | include/dyco/dyco_htable.h:255-273 | The chain walk finds the stored value, NULL otherwise |
| HTableHeap.HTable.Contains | include/dyco/dyco_htable.h:275-293 | 1 exactly when the walk finds the key |
| HTableHeap.HTable.Resize | include/dyco/dyco_htable.h:295-357 | The rehash loops move every entry as specified, or refuse the width |
| CidSpec.SameCidIff | src/dyco_coroutine.c:210-212 | Two creations of one scheduler get the same id exactly when a multiple of 2^24 apart, so any 2^24 in a row differ |
| CidSpec.OtherSchedulers | src/dyco_coroutine.c:211-212 | Two schedulers can share a coroutine id exactly when their ids agree in the low byte |
| CidSpec.CidPlainIff | src/dyco_coroutine.c:211-212 | The ids 0 and -1 arise exactly at one generation of schedulers whose low byte is 0 or 255 |
| CidSpec.OverwriteIff | src/dyco_coroutine.c:211-214 | A creation overwrites a live entry exactly when one was made a multiple of 2^24 creations earlier |
| CidSpec.IdsStayUnique | src/dyco_coroutine.c:208-216 | Over every run of creations and ends, while no coroutine outlives 2^24 - 1 later creations, every new id is new, its insertion returns 1, live ids are found with their coroutines, and coro_count, the table's count and the number of live coroutines are equal |
| CidSpec.OverwriteReached | src/dyco_coroutine.c:208-216 | For schedulers that never produce the ids 0 and -1, a run from the creation of the scheduler leads to a state where the next creation overwrites a live entry |
| CidSpec.OverwriteBreaksCount | src/dyco_coroutine.c:214-216 | In every such state the creation returns 0 and leaves coro_count one above the table's count |
| CidHeap.IdSource.Create | src/dyco_coropool.c:250-256 | The id allocation in place, on the hash table object |
| CidHeap.IdSource.Free | src/dyco_coroutine.c:296-302 | The end of a coroutine takes its id out and counts it down |
| ChannelSpec.ChannelIsFifo | src/dyco_channel.c:100-240 | For any number of senders and receivers, interleavings and timeouts, the accepted messages are the received ones followed by the at most one held |
| ChannelSpec.SendAnswers | src/dyco_channel.c:100-171 | In every run a send that does not fit returns -2; otherwise it succeeds and returns the length of its message exactly when nothing is held; while a message is held it parks, or returns 0 if it may not, and returns -2 behind another that has announced itself, and the held message stays |
| ChannelSpec.SendWakeAnswers | src/dyco_channel.c:119-149 | A sender that resumes succeeds and returns the length of its message exactly when nothing is held, and otherwise returns 0 or -2 |
| ChannelSpec.RecvAnswers | src/dyco_channel.c:174-240 | In every run a receive with a large enough buffer succeeds, with the oldest message not yet received and its length, exactly when one is held; while none is held it parks, or returns 0 if it may not, and returns -2 behind another that has announced itself |
| ChannelSpec.RecvWakeAnswers | src/dyco_channel.c:185-213 | A receiver that resumes succeeds with the oldest message exactly when one is held, and otherwise returns 0 or -2 |
| ChannelSpec.NeverBothStuck | src/dyco_channel.c:3-43 | With one caller on each side, a parked one has its want recorded or a notification pending, and never are both parked with nothing pending |
| ChannelSpec.NoneStrandedIff | src/dyco_channel.c:100-240 | For all sets of senders and receivers, no run leaves a parked caller unannounced if and only if there is at most one sender or no receiver, and at most one receiver or no sender |
| ChannelSpec.SecondSenderStrands | src/dyco_channel.c:116-149 | Any two senders and a receiver have a run after which a sender is parked with no want recorded and nothing pending |
| ChannelSpec.SecondReceiverStrands | src/dyco_channel.c:182-213 | Any two receivers and a sender have such a run for a receiver |
| ChannelHeap.Channel.Send | src/dyco_channel.c:100-171 | The sending call in place, up to its wait, is the step of the specification |
| ChannelHeap.Channel.SendWake | src/dyco_channel.c:119-149 | The sending call from the end of its wait is the step of the specification |
| ChannelHeap.Channel.Recv | src/dyco_channel.c:174-240 | The receiving call in place, up to its wait, is the step of the specification and hands out the message |
| ChannelHeap.Channel.RecvWake | src/dyco_channel.c:185-213 | The receiving call from the end of its wait is the step of the specification |
| SemaphoreSpec.SemaphoreConserves | src/dyco_semaphore.c:41-136 | Over every run, with any timeouts and any reuse of descriptors, initial value plus signals equals value plus successful waits plus units on their way plus units that reached a stranger or a wait that failed; a positive value means an empty queue, nodes leave it in the order they came, and the value stays in range |
| SemaphoreSpec.UntimedConserves | src/dyco_semaphore.c:41-136 | Without positive timeouts, initial value plus signals equals value plus successful waits plus callers granted and not yet resumed, and every queued node is that of a waiting caller |
| SemaphoreSpec.WaitAnswers | src/dyco_semaphore.c:41-87 | In every run a wait returns 0 at once, and counts, exactly when initial value plus signals exceed the waits, the units on their way and those that reached nobody; otherwise it returns -1 exactly for timeout 0 or outside a coroutine, and parks in all other cases |
| SemaphoreSpec.FirstWaitsSucceed | src/dyco_semaphore.c:45-48 | As many waits as the initial value succeed at once, whatever happens between them |
| SemaphoreSpec.SignalAnswers | src/dyco_semaphore.c:102-114 | In every run a signal fails exactly when the value is at its maximum or, outside a coroutine, somebody is queued, and adds a unit exactly when it does not fail and nobody is queued |
| SemaphoreSpec.InsideBound | src/dyco_semaphore.c:41-136 | If each user signals only from inside and waits only from outside, at most the initial value of users are inside in every reachable state, whatever the timeouts, and a signal from inside never fails at the maximum |
| SemaphoreSpec.SignalFate | src/dyco_semaphore.c:102-136 | In every reachable state with a queue, a signal grants the caller of the first node exactly when that is still parked; otherwise it grants whichever wait was given the descriptor since, goes into a file of somebody else, or ends the process, each exactly when the number now stands for that |
| SemaphoreSpec.EndlessTimeoutIff | src/dyco_semaphore.c:88-98 | Waits with a given nonzero timeout can be allowed in every run without a signal that ends the process, without one into another file and without a wait that takes units and fails, each if and only if the timeout is negative |
| SemaphoreSpec.TimeoutKills | src/dyco_semaphore.c:5-8 | For every positive timeout a run of one such wait and one signal ends the process |
| SemaphoreSpec.TimeoutStrays | src/dyco_semaphore.c:94-98 | For every positive timeout there is a run whose signal goes into a file that was given the closed number |
| SemaphoreSpec.TimeoutSpoils | src/dyco_semaphore.c:94-98 | For every positive timeout there is a run in which a later wait is granted twice and returns -1 |
| SemaphoreHeap.Semaphore.Wait | src/dyco_semaphore.c:41-87 | The wait in place, up to its yield, opens an eventfd and queues its node as the step of the specification does |
| SemaphoreHeap.Semaphore.WaitEnd | src/dyco_semaphore.c:94-98 | The wait in place from its yield on reads and closes its own descriptor and leaves its node where it is |
| SemaphoreHeap.Semaphore.Write | src/dyco_semaphore.c:5-8 | The eventfd write adds to the counter of an open eventfd and fails on a number that is closed or not writable |
| SemaphoreHeap.Semaphore.Signal | src/dyco_semaphore.c:102-136 | The signal in place, its write included, is the step of the specification |
| PubSubSpec.ExactlyOnce | src/dyco_pubsub.c:3-126 | In every run each finished publish had every subscriber registered at its start copy exactly its bytes once, ack_rem counts the pending notifications and sub_num the list |
| PubSubSpec.PublishReturnsLast | src/dyco_pubsub.c:91-126 | The publisher can go on only after the last copy |
| PubSubSpec.PublisherNotForgotten | src/dyco_pubsub.c:15-89 | While a publish waits, a registered subscriber still has to copy or the publisher is already notified |
| PubSubSpec.PublishAnswers | src/dyco_pubsub.c:166-180 | In every run a publish is accepted, and parks, exactly when none is under way, the message fits and somebody is registered, and then everyone registered has a notification pending; otherwise nothing changes and it returns 0 exactly when it was only that nobody is registered, and -2 in all other cases |
| PubSubSpec.PublishReturns | src/dyco_pubsub.c:91-126 | Whatever happens until it resumes, an accepted publish stays under way for all others and then returns the length of its message and leaves the channel free |
| PubSubSpec.SubscribeAnswers | src/dyco_pubsub.c:184-220 | In every run a subscribe with a large enough buffer is registered and parks, and any other returns -2; on resuming it returns the message of the publish under way if it was registered when that began, and -2 otherwise |
| PubSubHeap.Channel.Publish | src/dyco_pubsub.c:166-181 | The publishing call in place, with its notification loop, is the step of the specification |
| PubSubHeap.Channel.Subscribe | src/dyco_pubsub.c:184-220 | The subscribing call in place, up to its wait, is the step of the specification |
| PubSubHeap.Channel.SubscribeWake | src/dyco_pubsub.c:53-89 | The subscriber's end of wait, with its unlinking loop and its copy, is the step of the specification |
| WaitGroupSpec.NoLostWakeUp | src/dyco_waitgroup.c:82-253 | If every wait for all is made while no more have finished than there are members, whoever is parked without a notification has finished below its target, or below the size for all; done may be called any number of times |
| WaitGroupSpec.WaitInTimeIff | src/dyco_waitgroup.c:125-224 | From any state in which nobody's wake-up is lost, a wait keeps it so if and only if it is for a positive target or is made in time |
| WaitGroupSpec.OnceIsInTime | src/dyco_waitgroup.c:69-122 | If each member calls done at most once, every wait is in time |
| WaitGroupSpec.TargetWaitReturns | src/dyco_waitgroup.c:125-253 | In every run a wait for a positive target returns the target if it is reached and -1 otherwise |
| WaitGroupSpec.WaitAnswers | src/dyco_waitgroup.c:125-203 | In every run a wait with a nonzero timeout returns a positive target at once if at least so many have finished, and the size for all if exactly so many have, and parks in every other case |
| WaitGroupSpec.GroupCounts | src/dyco_waitgroup.c:69-96 | In every run the size is the number of different members added and the finished count the number of calls of done made by members; adding returns 1 exactly for a new one, done exactly for a member |
| WaitGroupSpec.DoneTwiceOvertakes | src/dyco_waitgroup.c:82-122 | A member calling done twice leads to a state in which a wait for all is not in time, and so is stranded |
| WaitGroupSpec.WaitAllReturns | src/dyco_waitgroup.c:82-224 | In every run a wait for all returns -1 while the group has not been complete since it parked, and otherwise the sum of the sizes at each completion, which is the size at its notification if and only if there was one |
| WaitGroupSpec.SettledWaitAll | src/dyco_waitgroup.c:69-122 | If no new member joins while a wait for all has a notification pending, it returns the size it was told |
| WaitGroupSpec.JoinBreaksIff | src/dyco_waitgroup.c:69-122 | While a wait for all is pending on a complete group, a member that joins and finishes changes what it returns if and only if it is new |
| WaitGroupSpec.ReachPending | src/dyco_waitgroup.c:69-122 | Such a state is reached by a run from the creation |
| WaitGroupHeap.WaitGroup.Add | src/dyco_waitgroup.c:69-79 | Adds a member once |
| WaitGroupHeap.WaitGroup.Done | src/dyco_waitgroup.c:82-122 | Counts and notifies the list of the reached target and, at the full size, the final list |
| WaitGroupHeap.WaitGroup.Wait | src/dyco_waitgroup.c:125-224 | The wait in place, up to its wait point, is the step of the specification |
| WaitGroupHeap.WaitGroup.Wake | src/dyco_waitgroup.c:178-253 | The end of a wait unlinks the caller's own node and drops an empty target list |
| CoroPoolSpec.PoolSafety | src/dyco_coropool.c:47-188 | Over every sequence of grow, shrink, obtain, timeout and return from any new pool, the free list and the coroutines at work are disjoint and cover the size, obtain never pops an empty list, shrink never removes more than there is, a timed-out caller finds its node, and a caller stays untold only while every available coroutine is promised to one that was told |
| CoroPoolSpec.ObtainAnswers | src/dyco_coropool.c:214-229 | In every run an obtain, when called and again when it resumes, gets the first free coroutine exactly when fewer are at work than the size last asked for; otherwise it parks if it may, and else returns how many are available, which is not positive |
| CoroPoolSpec.ShrinkTakes | src/dyco_coropool.c:172-186 | In every run a shrink takes off the front of the free list as many coroutines as the size exceeds both the new size and the number at work, none if it does not, and touches nobody at work or waiting |
| CoroPoolSpec.GrowthTells | src/dyco_coropool.c:150-171 | In every run a growth puts what is missing in front of the free list, the latest first, and tells as many callers, once each, the longest waiting first |
| CoroPoolSpec.ReturnAnswers | src/dyco_coropool.c:275-308 | In every run a returned coroutine is the next to be obtained, and the first caller in the queue is told |
| CoroPoolSpec.FirstComeFirstTold | src/dyco_coropool.c:66-75 | In every run whoever has been told called before everyone who still waits, and the queue is in the order of the calls |
| CoroPoolSpec.HonoursIff | src/dyco_coropool.c:142-308 | An event leaves an available coroutine for everyone who was told if and only if its guard holds: no untold caller obtains while all are promised, no shrink cuts into promised ones, nobody is told by a return or a growth while more are at work than the size allows and the new ones do not suffice |
| CoroPoolSpec.ToldObtains | src/dyco_coropool.c:47-106 | In runs that honour these guards every caller that was told obtains a coroutine on resuming |
| CoroPoolSpec.ToldCanFail | src/dyco_coropool.c:214-229 | Without them it gets 0: in a pool of one, the next obtain takes what was returned for a waiting caller |
| CoroPoolHeap.CoroPool.constructor | src/dyco_coropool.c:109-139 | The creation loop fills the free list |
| CoroPoolHeap.CoroPool.Resize | src/dyco_coropool.c:142-188 | The growing and the shrinking loop in place give the resized pool |
| CoroPoolHeap.CoroPool.Obtain | src/dyco_coropool.c:214-229 | The obtaining call up to its wait, with the tail append, is the step of the specification |
| CoroPoolHeap.CoroPool.ObtainWake | src/dyco_coropool.c:47-106 | The end of the wait unlinks a timed-out caller, re-checks availability and takes the first free coroutine |
| CoroPoolHeap.CoroPool.Return | src/dyco_coropool.c:275-308 | A returned coroutine becomes the first free one and the first waiting caller is told |
| Waiters.NotifyWalk | src/dyco_pubsub.c:3-13 | The notification loop writes once to every listed eventfd and to no other |
| Waiters.UnlinkWalk | src/dyco_waitgroup.c:180-197 | The search for the caller's own node takes out that node only |

## Left out

- Kill and abort, and the table operations with a freeing callback: the callback deletes from the same table in mid-operation.
- Destroying channels, semaphores, pools and waitgroups, and freeing the coroutines that a pool shrink removes: only the counts and lists of the pool are modelled.
- Sockets, SSL, epoll and signal wrappers and the libc hooks: calls into code outside the repository.
- Context switching and its assembly: a switch is the boundary between two steps.
- Asymmetric coroutines beyond their ids: resuming one on the shared stack inside another is not covered by the stack refinement.
- Splay trees and the list kinds of sys_queue.h that no code here instantiates.
- Tail queues, singly linked lists and bucket chains are sequences, so their pointer updates are not modelled; the red-black tree is the one linked structure on the heap.
- The tables for descriptors, waitgroup members and waitgroup targets are finite maps, which HTableSpec.TableIsMap shows the hash table to be for all keys but -1; a descriptor 0 that is waited for when the table is resized a second time, or later, is not covered beyond HTableKeys.ZeroSurvivesIff.
- What a ready queue does after a coroutine was enqueued that is already in it. The queues are intrusive lists (include/dyco/sys_queue.h:402-433): a node inserted behind itself becomes its own successor and the head no longer advances. The queues here are sequences, so states after such a double insertion, which only timed descriptor waits make, are not those of the code; SchedulerPoll.PollInTime speaks of runs with any waits in this sense.
- Resumption of an endless semaphore or publish-subscribe wait without a notification: it needs a coroutine that an earlier timed wait has enqueued twice. The two protocols are modelled for callers that no such wait has left queued.
- An epoll_wait that returns later than its timeout, and errors of it other than an interruption, which end the process.
- Runs in which RB_REMOVE is called on a node that another coroutine's sleep has already removed by key: what the code does then is undefined. SchedulerSpec.RemovalHitsNobody shows that this does not happen with safe sleeps and endless waits.
- Allocation failure and failing assertions that end the process.
- Stack overflow checks: the depth never exceeds the stack.
- Wrap-around of 64-bit deadlines and of the 32-bit counters of the pool and the scheduler.
- The random order of reported descriptors under DYCO_RANDOM_WAITFD, and the scheduler call that changes the signal mask.
- The expired flag of a coroutine in the scheduler state machine: it is set on the tree and read nowhere in the modelled code.
- SchedulerHeap.Scheduler.SchedSleep: works on the sorted sequence of ids; the tree object is not a field of the scheduler object. Sleep.SchedSleep, Sleep.CancelSleep and Sleep.GetExpired compute the same functions on the tree, and SchedulerSpec.TreeStaysLinked carries them over to ids.
- SchedulerHeap.Scheduler.CancelSleep: removes by key from that sequence; the code removes the node, which Sleep.CancelSleep shows to be the same for a node that is in the tree.
- SchedulerHeap.Scheduler.Resume: leaves out loading the stack, which is in StackSpec, the counter sched_count, and the path of a killed coroutine.
- SchedulerHeap.Scheduler.Run: leaves out the aborted status and its return values, which only a kill or an abort sets.
- Sleep.ExpirePass: leaves out the queues that the expired coroutines join, which are in SchedulerHeap.Scheduler.ExpirePass.
- SchedulerSpec.Location: excludes timed descriptor waits and unsafe sleeps, for which it is false, as SchedulerSpec.EndlessWaitIff and SchedulerSpec.SafeSleepIff show.
- SemaphoreHeap.Semaphore.Wait: leaves out the scheduler calls around its yield, which are the step boundary.
- SchedulerPoll.PollInTime: bounds the number of events, since each can bump a deadline by one microsecond and 2^31 ms is the range of an int.
- CidSpec.OverwriteReached: leaves out schedulers whose low byte is 0 or 255, which produce an id the table cannot hold on the way.
- PubSubSpec.ExactlyOnce: covers calls from coroutines with nonzero timeouts and a channel that is not destroyed.
- WaitGroupSpec.WaitAnswers: covers nonzero timeouts made from coroutines; with timeout 0 the code returns the finished count and never parks.
- SchedulerPlaces.EveryEventMoves: excludes timed descriptor waits and unsafe sleeps, with which a coroutine is in two places or none.
- WaitGroupSpec.NoLostWakeUp: covers waits with a nonzero timeout made from coroutines, and is false of a wait for all that is not in time, as WaitGroupSpec.WaitInTimeIff shows.
- CidSpec.IdsStayUnique: excludes creations whose id is 0 or -1, of which the hash table holds neither for good; CidSpec.CidPlainIff says when these arise. The plain, urgent, asymmetric and pool paths allocate ids by the same code and are one event.
- ChannelSpec.ChannelIsFifo: holds until the channel is destroyed.
