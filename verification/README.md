# Verified models of the hard parts of an Android device tree

The device tree is mostly vendor glue.  Five components in it carry real algorithms and protocols; this project
models them in Dafny and proves what they promise, over every input, every run or every interleaving.

| component | source | files |
|---|---|---|
| GPS timer service | `gps/utils/LocTimer.cpp`, `gps/utils/LocHeap.cpp`, `gps/utils/LocSharedLock.h` | `HeapTree`, `LocHeap`, `TimerModel`, `TimerInvariant`, `TimerTheorems`, `TimerExpiry`, `TimerLiveness`, `TimerContainer` |
| version string search | `recovery/recovery_updater.cpp` | `BoyerMoore` |
| sensor multi-HAL | `sensors/multihal.cpp`, `sensors/SensorEventQueue.cpp` | `SensorQueue`, `SensorHandles`, `PollScan`, `PollContext`, `MultiHal` |
| blocking message queue | `gps/utils/msg_q.c`, `gps/utils/linked_list.c` | `LinkedList`, `MsgQ` |
| camera plane copies | `camera/QCamera2/HAL/QCamera2HWICallbacks.cpp`, `camera/QCamera2/stack/mm-camera-interface/src/mm_camera_stream.c` | `CameraPlanes`, `CameraLayouts`, `CameraFormats`, `CameraRoutines` |

`dafny verify dfyconfig.toml` checks everything.

## Main results

* `BoyerMoore.BmSearchIsExactIff`: for every non-empty pattern, the search finds the leftmost occurrence in every text
  if and only if no entry of its good-suffix table overshoots a border, a condition on the pattern alone.  The entries
  overshoot because the first table loop tests the suffix at `p` but stores `p + 1`
  (`recovery/recovery_updater.cpp:81-82`); for every pattern with such an entry `OvershootMisses` builds a text that
  contains it and in which the search finds nothing.  Without a NUL in the pattern the condition is that it has no
  proper border or is one repeated letter (`NulFreeIsExactIff`); a NUL, at which strncmp stops, can save a bordered
  pattern (`NulSavesBordered`).  The string the search is used for falls on the good side (`FreshLastLetterIsUnbordered`).
* `HeapTree.RunRefines`: any sequence of push, pop, remove and peek on the pointer heap behaves as a priority multiset
  and leaves a heap; the pruned search of `remove` misses nothing (`RemoveFinds`).  Every node-level method of
  `LocHeapModule` is proved equal to the tree function `HeapTree` reasons about.
* `TimerTheorems`: in every interleaving of clients, message task and poll thread no step follows a dangling pointer
  (`RunIsSafe`), no pending timer is forgotten (`NoTimerForgotten`), every delegate is pushed, taken out and deleted
  exactly once (`StageAdvances`, `StageNeverFalls`, `DeletedOnce`), the shared locks are counted exactly and starts
  match stops and callbacks.
* `TimerExpiry`: an expiry fires exactly the drain of the heap over every run (`ExpireFiresTheDrain`).  It fires a timer
  ahead of its time exactly when its first pop finds no second come, or with the others of its own second
  (`FiresEarlyIff`); only the former can be early by a second or more.  Both happen: however long its delay, a timer can
  be fired while the clock still reads what it read at its start (`FiresAtOnce`), and without any race two timers of
  one second are fired together (`FiresWithTheSecond`).
* `TimerLiveness`: left alone, the service takes a bounded number of steps and then rests with nothing a second or more
  overdue; a timer is overdue at all exactly when one of the second at the heap's top is (`RestIsWithinASecond`), and
  `RestsOverdue` is a run to such a rest.
* `MultiHal`: the writers' stores outside the lock are invisible, no wake-up is lost, no event is lost, duplicated or
  reordered within a queue, and every locked scan of every run is fair and complete on the queues it began with, however
  the stores fall, and ends within a bounded number of visits.
* `MsgQModule`: first in, first out over every run, with any number of receivers and no forgotten sleeper.
* `CameraLayouts`: the two copies undo each other, and each of the two shortcuts that skip a copy is right exactly
  when a stated condition on the layout holds.  `CameraFormats`: for NV12 and NV21 previews the make-up shortcut is always
  right, for Adreno previews it is wrong exactly for widths of 32 more than a multiple of 64 and heights that are
  multiples of 128.

## Where code and comments disagree

The model follows the code.

* `gps/utils/LocHeap.cpp:34` says `mSize` excludes the node itself; the code counts it (`HeapTree.PushKeepsSize`,
  `PopKeepsSize`, `RemoveKeepsSize`: `mSize` stays the number of nodes, this one included).
* `gps/utils/LocTimer.cpp:289-295` says the timer is disarmed when the tree is empty; no caller can get there
  (`TimerTheorems.NeverDisarms`).  The step that empties the heap leaves the kernel alone
  (`TimerExpiry.EmptyingKeepsKernel`), so an empty heap can have an armed timer (`EmptyYetArmed`), and an expiry may
  find nothing (`ExpiryFindsNothing`).
* `gps/utils/LocTimer.cpp:366-372` says only what is older than now is popped; the first pop of every expiry is
  unconditional, and the others compare seconds only.  `TimerExpiry.PopsEarlyIff` and `FiresEarlyIff` say exactly when
  that takes a timer still to come; `FiresAtOnce` and `FiresWithTheSecond` are runs in which it does.
* `sensors/multihal.cpp:354-356` drops events of unknown handles; metadata about an unknown sensor passes
  (`PollScan.BadHandlePassesIff`).
* `isNeedDelPadding` looks at the first plane's stride and length only; `CameraLayouts.SkippingIsRightIff` says for
  which layouts that suffices, `CameraFormats.AdrenoSkipsWronglyIff` for which of the Adreno previews it does not.

## How the state machines follow the code

* `TimerModel.Apply`: `DoStart` is `LocTimer::start` with the delegate's constructor (`gps/utils/LocTimer.cpp:477-484`,
  `544-562`), `DoStop` is `stop` with `destroyLocked` (`487-503`, `564-577`), `Receive`, `PopNext`, `Fire`, `AddPoll`,
  `SetTime` and `Delete` are the message task (`318-322`, `335-347`, `361-375`, `517-529`), `Wake` to `PollSend` the
  poll thread (`378-382`, `448-472`), `Destroy` the end of `~LocTimer` after its `stop()` (`536-542`).
* `MultiHal.Apply`: `WriterLock`, `Store`, `DeviceReturns` and `MarkWritten` are `writerTask`
  (`sensors/multihal.cpp:142-179`, `sensors/SensorEventQueue.cpp:84-91`), the rest is `poll` (`sensors/multihal.cpp:337-377`).
* `MsgQModule.Apply`: the calls of `gps/utils/msg_q.c:185-336`; `Lock` is what a receiver does each time it gets the mutex.

A run of the timer service or of the sensor threads may do anything after a step that follows a dangling pointer or
leaves an array; that this never happens is proved, not assumed.

## Model

| member | source | states |
|---|---|---|
| BoyerMoore.BorderPasses | recovery/recovery_updater.cpp:81 | whatever NULs the pattern holds, a suffix that is a prefix passes the strncmp test |
| BoyerMoore.StrncmpIsEquality | recovery/recovery_updater.cpp:81 | for a NUL-free pattern the strncmp test is equality of the suffix with the prefix of its length |
| BoyerMoore.MaxSuffixLen | recovery/recovery_updater.cpp:50-58 | the result is a common suffix ending at p that is capped at p or cannot be extended |
| BoyerMoore.MakeDelta1 | recovery/recovery_updater.cpp:63-72 | every character's entry is its distance from the end at its last place before the final one, or the pattern's length, stated without the specification function too |
| BoyerMoore.PrefixPass | recovery/recovery_updater.cpp:75-85 | the first loop fills the table from the nearest suffix that passes for a prefix, one too far |
| BoyerMoore.RecursOnlyAt | recovery/recovery_updater.cpp:87-93 | each place p can be a recurrence of one suffix only, the one max_suffix_len finds, so one store per place is enough |
| BoyerMoore.SuffixTableStep | recovery/recovery_updater.cpp:87-93 | one round of the second loop moves the whole table on to the last recurrence below p + 1 |
| BoyerMoore.MakeDelta2 | recovery/recovery_updater.cpp:75-94 | each entry is the distance of the last recurrence of its suffix preceded by another character, else one more than the next suffix that passes for a prefix, else the length less one, plus the suffix length |
| BoyerMoore.CompareBackwards | recovery/recovery_updater.cpp:111-115 | the inner loop stops at the last mismatch of the alignment, all characters after it equal, or runs off the front |
| BoyerMoore.SkipLoop | recovery/recovery_updater.cpp:109-122 | for any tables that let it progress the nested loops stay in bounds, end, and compute the search function |
| BoyerMoore.SearchStep | recovery/recovery_updater.cpp:110-119 | an alignment past the text ends the search, an occurrence is returned, and a last mismatch moves it by the larger of the two shifts |
| BoyerMoore.BmSearch | recovery/recovery_updater.cpp:96-123 | with its own tables: any result is a real occurrence, and the leftmost or NULL iff none when no entry overshoots, as for unbordered and one-letter patterns |
| BoyerMoore.SearchIsSound | recovery/recovery_updater.cpp:110-119 | for every pattern and any progressing tables what is returned is an occurrence |
| BoyerMoore.BadCharacterIsSafe | recovery/recovery_updater.cpp:63-72 | the bad-character shift never passes an occurrence |
| BoyerMoore.GoodSuffixIsSafe | recovery/recovery_updater.cpp:75-94 | the good-suffix shift never passes an occurrence when no entry overshoots |
| BoyerMoore.TablesAreSafe | recovery/recovery_updater.cpp:119 | so no occurrence lies strictly between an alignment and the next |
| BoyerMoore.SearchIsComplete | recovery/recovery_updater.cpp:110-122 | with safe tables the search from a stops at or before every occurrence at or after a |
| BoyerMoore.OvershootIsStored | recovery/recovery_updater.cpp:79-93 | where a border is the next suffix to pass and the suffix after j does not recur, the table stores one more than the border allows |
| BoyerMoore.OvershootMisses | recovery/recovery_updater.cpp:96-123 | for every pattern with such an entry there is a text containing it in which the search returns NULL |
| BoyerMoore.BmSearchIsExactIff | recovery/recovery_updater.cpp:96-123 | for every non-empty pattern: leftmost occurrence in all texts if and only if no entry overshoots |
| BoyerMoore.SoundPatterns | recovery/recovery_updater.cpp:75-94 | no entry overshoots in patterns without proper border or of one repeated letter, with NULs or not |
| BoyerMoore.BorderedOvershoots | recovery/recovery_updater.cpp:81-84 | in every other NUL-free pattern the entry at 1 overshoots the smallest border |
| BoyerMoore.NulFreeIsExactIff | recovery/recovery_updater.cpp:96-123 | for NUL-free patterns: leftmost occurrence in all texts if and only if unbordered or one repeated letter |
| BoyerMoore.NulSavesBordered | recovery/recovery_updater.cpp:81 | a bordered two-letter pattern with NULs for which the search is exact all the same |
| BoyerMoore.FreshLastLetterIsUnbordered | recovery/recovery_updater.cpp:143-144 | a pattern whose last character occurs nowhere else, as the one searched for, is unbordered |
| HeapTree.PushElements | gps/utils/LocHeap.cpp:107-124 | push adds exactly the new element and one node |
| HeapTree.PushKeepsOrder | gps/utils/LocHeap.cpp:107-124 | for any total preorder push keeps every parent at least as high ranked as its children |
| HeapTree.PushKeepsSize | gps/utils/LocHeap.cpp:123 | push keeps mSize equal to the subtree's node count at every node |
| HeapTree.PopElements | gps/utils/LocHeap.cpp:134-164 | pop takes out exactly the top's data, whatever it swaps on the way |
| HeapTree.PopKeepsOrder | gps/utils/LocHeap.cpp:134-164 | pop keeps the order |
| HeapTree.PopKeepsSize | gps/utils/LocHeap.cpp:143 | pop keeps mSize exact at every node |
| HeapTree.TopIsMaximal | gps/utils/LocHeap.cpp:237-243 | nothing in the heap outranks its top |
| HeapTree.RemoveElements | gps/utils/LocHeap.cpp:170-193 | remove takes out exactly the given element, or changes nothing |
| HeapTree.RemoveFinds | gps/utils/LocHeap.cpp:170-193 | despite the pruned subtrees remove finds the element if and only if it is in the heap |
| HeapTree.RemoveKeepsOrder | gps/utils/LocHeap.cpp:170-193 | remove keeps the order |
| HeapTree.RemoveKeepsSize | gps/utils/LocHeap.cpp:186-189 | remove keeps mSize exact along the whole path |
| HeapTree.PushGrows | gps/utils/LocHeap.cpp:108-122 | push keeps the old top on a tie and grows the smaller subtree, the left one on a tie |
| HeapTree.PopMovesUp | gps/utils/LocHeap.cpp:144-154 | pop moves up the higher ranked subtree's top, the right one's on a tie, and leaves the other subtree alone |
| HeapTree.RemoveTakesLeftFirst | gps/utils/LocHeap.cpp:177-184 | remove searches the right subtree only for what is not in the left |
| HeapTree.CheckNodesIsHeap | gps/utils/LocHeap.cpp:197-220 | checkNodes is true exactly on trees with heap order and right sizes everywhere |
| HeapTree.ApplyRefines | gps/utils/LocHeap.cpp:228-267 | each call is a call on a priority multiset: pop and peek give a maximal element, remove the given one or NULL |
| HeapTree.RunRefines | gps/utils/LocHeap.cpp:228-267 | so is any sequence of calls, with all its results, and it leaves a heap |
| HeapTree.PushKeepsBraun | gps/utils/LocHeap.cpp:114-122 | pushing keeps the left subtree as large as the right or one larger, at every node |
| HeapTree.BraunHeight | gps/utils/LocHeap.cpp:101-107 | a tree so balanced is taller than h exactly when it has at least 2^h nodes |
| HeapTree.PushAllHeight | gps/utils/LocHeap.cpp:101-124 | a heap of n elements built by pushes has height floor(log2 n) + 1 |
| LocHeapModule.LocHeapNode.Swap | gps/utils/LocHeap.cpp:88-92 | exchanges the data of two nodes and no link |
| LocHeapModule.LocHeapNode.Push | gps/utils/LocHeap.cpp:107-124 | the pointer code yields the pushed tree, on the same nodes and the new one |
| LocHeapModule.LocHeapNode.Pop | gps/utils/LocHeap.cpp:134-164 | the pointer code yields the popped tree; the node returned is a leaf outside it that holds the old top |
| LocHeapModule.LocHeapNode.Remove | gps/utils/LocHeap.cpp:170-193 | the pointer code yields the tree without the data; the node returned is a leaf outside it that holds the data |
| LocHeapModule.LocHeapNode.CheckNodes | gps/utils/LocHeap.cpp:197-220 | reading the nodes decides the tree check |
| LocHeapModule.LocHeap.Push | gps/utils/LocHeap.cpp:228-235 | a push call of the heap functions, on an empty heap too |
| LocHeapModule.LocHeap.Peek | gps/utils/LocHeap.cpp:237-243 | the top or NULL |
| LocHeapModule.LocHeap.Pop | gps/utils/LocHeap.cpp:245-254 | a pop call of the heap functions, NULL on an empty heap |
| LocHeapModule.LocHeap.Remove | gps/utils/LocHeap.cpp:256-267 | a remove call of the heap functions, NULL if absent |
| LocHeapModule.LocHeap.CheckTree | gps/utils/LocHeap.cpp:270-272 | true exactly on heaps |
| LocHeapModule.LocHeap.GetTreeSize | gps/utils/LocHeap.cpp:273-275 | the number of elements |
| TimerModel.FutureTimeIsSum | gps/utils/LocTimer.cpp:548-555 | the expiry time is normalised and exactly the given milliseconds after now |
| TimerModel.TimerRanking | gps/utils/LocTimer.cpp:505-514 | comparing seconds only is a total preorder, as the heap needs |
| TimerInvariant.InvDerefs | gps/utils/LocTimer.cpp:281-577 | under the invariant every pointer a step may follow leads to a living object |
| TimerInvariant.RemoveTakesOut | gps/utils/LocTimer.cpp:335-347 | MsgTimerRemove finds the delegate exactly if it is in the heap, and afterwards no node holds it |
| TimerInvariant.StepKeepsInv | gps/utils/LocTimer.cpp:281-577 | every step of client, message task and poll thread keeps heap, lives, client links, locks, counts and arming right |
| TimerTheorems.RunInv | gps/utils/LocTimer.cpp:281-577 | the invariant holds throughout every run |
| TimerTheorems.RunIsSafe | gps/utils/LocTimer.cpp:329-351 | no run uses a delegate, client or lock after its deletion |
| TimerTheorems.MessageSteps | gps/utils/LocTimer.cpp:318-376 | a push arms the kernel exactly for a new top, a remove exactly for the top that follows a removed one, before it deletes |
| TimerTheorems.ThreadSteps | gps/utils/LocTimer.cpp:299-304 | what each step of the poll thread and each kernel step of the message task does to timerfd, epoll set and queue |
| TimerTheorems.NoTimerForgotten | gps/utils/LocTimer.cpp:281-383 | in every interleaving a non-empty heap has its expiry armed at the top and polled, in the poll thread or queued, or the message task is about to arm just that time or is handling an expiry |
| TimerTheorems.NeverDisarms | gps/utils/LocTimer.cpp:289-295 | the disarming branch is out of reach of all its callers |
| TimerExpiry.EmptyingKeepsKernel | gps/utils/LocTimer.cpp:335-346 | the step that takes the last timer out leaves timerfd and epoll set as they were |
| TimerExpiry.EmptyHeapKeepsKernel | gps/utils/LocTimer.cpp:281-307 | over every run, while the heap stays empty only the poll thread changes either |
| TimerExpiry.StoppingLastLeavesArmed | gps/utils/LocTimer.cpp:335-347 | from every idle reachable state with one timer, stopping it leads to an empty heap with the kernel armed for it as before |
| TimerExpiry.EmptyYetArmed | gps/utils/LocTimer.cpp:340-344 | a run to an idle service with an empty heap and an armed, polled timer |
| TimerExpiry.ExpiryFindsNothing | gps/utils/LocTimer.cpp:368 | a run to an expiry with nothing to pop |
| TimerTheorems.StageAdvances | gps/utils/LocTimer.cpp:311-351 | a delegate moves only from queued to heap to out to deleted, each move made by the one step responsible |
| TimerTheorems.StageNeverFalls | gps/utils/LocTimer.cpp:311-351 | over a run it never moves back |
| TimerTheorems.DeletedIsUnreferenced | gps/utils/LocTimer.cpp:345-346 | a deleted delegate is in no message, heap node, task hand or mTimer |
| TimerTheorems.DeletedOnce | gps/utils/LocTimer.cpp:345-346 | no delegate is deleted twice |
| TimerTheorems.LockCountsAreExact | gps/utils/LocSharedLock.h:48-52 | mRef is one for the living client plus one per living delegate, and the lock lives exactly while that is positive |
| TimerTheorems.DestroyedForGood | gps/utils/LocTimer.cpp:536-542 | over every run a destroyed client never lives again, and from then on its lock lives exactly while its delegates do, counting them |
| TimerTheorems.StartsAreMatched | gps/utils/LocTimer.cpp:487-577 | successful starts equal client stops plus callbacks plus a running timer; mClient is set exactly on the client's current mTimer |
| TimerTheorems.HistoryIsExact | gps/utils/LocTimer.cpp:517-577 | a start succeeds only without a current timer, a stop only with one, and a callback is made exactly when the popped delegate still is the client's current timer |
| TimerTheorems.ExpiryIsFixed | gps/utils/LocTimer.cpp:477-484 | a delegate keeps its expiry time and its lock from creation to deletion |
| TimerTheorems.StartSetsExpiry | gps/utils/LocTimer.cpp:544-562 | over every run the timer of a successful start is due exactly the given milliseconds after that start, for as long as it lives |
| TimerTheorems.DrainIsOrdered | gps/utils/LocTimer.cpp:361-375 | an expiry pops by non-decreasing second, all but the first with their second come, all that stay with theirs to come if any was popped, none lost |
| TimerTheorems.ExpireFollowsDrain | gps/utils/LocTimer.cpp:361-375 | each step of the message task works that drain off undisturbed by other threads, the last one re-arms for the new top |
| TimerExpiry.ExpireFiresTheDrain | gps/utils/LocTimer.cpp:361-375 | over every run, from receiving an Expire message to re-arming exactly the drained timers are fired, in order, and the rest stays |
| TimerExpiry.PopsEarlyIff | gps/utils/LocTimer.cpp:366-370 | an expiry pops a timer still to come, to the nanosecond, exactly when the heap is non-empty with no second come, or holds one of the current second still to come |
| TimerExpiry.FiresEarlyIff | gps/utils/LocTimer.cpp:368-372 | over every run a timer is fired ahead of its time exactly when it was the first pop of an expiry on a heap with no second come, or of the current second with later nanoseconds; otherwise by less than a second |
| TimerExpiry.FiresAtOnce | gps/utils/LocTimer.cpp:368-372 | for every delay, a run in which the callback comes at the clock reading of the start |
| TimerExpiry.FiresWithTheSecond | gps/utils/LocTimer.cpp:505-514 | for any two delays of one second, a run without a race in which the later is fired with the earlier, early by their difference |
| TimerLiveness.RestIsWithinASecond | gps/utils/LocTimer.cpp:281-383 | when the service threads have nothing to do, all living delegates are in the heap, the kernel waits for the top, no timer is a second or more overdue, and none is overdue at all exactly if none in the second of the top is |
| TimerLiveness.RestsOverdue | gps/utils/LocTimer.cpp:296-300 | a run to rest with an overdue timer: the later of two timers of one second was pushed first and keeps the kernel |
| TimerLiveness.ServiceStepWorks | gps/utils/LocTimer.cpp:318-382 | every step of message task and poll thread uses up some of a finite amount of work |
| TimerLiveness.ServiceComesToRest | gps/utils/LocTimer.cpp:318-382 | so without new requests or ticks the threads stop within a bound |
| TimerContainerModule.LocTimerContainer.UpdateSoonestTime | gps/utils/LocTimer.cpp:281-307 | the kernel timer and poll set change as the decision function says, the heap not at all |
| TimerContainerModule.LocTimerContainer.PushProc | gps/utils/LocTimer.cpp:318-322 | the kernel is set to the new timer exactly when it becomes the top |
| TimerContainerModule.LocTimerContainer.RemoveProc | gps/utils/LocTimer.cpp:335-346 | the kernel is set to the new top exactly when the old top was removed and one is left |
| TimerContainerModule.LocTimerContainer.PopIfOutRanks | gps/utils/LocTimer.cpp:385-392 | pops the top exactly when its second is not after now's |
| TimerContainerModule.LocTimerContainer.ExpireProc | gps/utils/LocTimer.cpp:361-375 | the loop on the pointer heap expires the drained timers in order, leaves the drained heap, and arms its top |
| TimerContainerModule.PendingStep | gps/utils/LocTimer.cpp:368-373 | one round of that loop keeps expired plus pending timers constant |
| SensorQueue.RegionIsOpen | sensors/SensorEventQueue.cpp:39-59 | the region offered is contiguous, in bounds, next after the readable slots, disjoint from them, and empty only if the queue is full or nothing was asked |
| SensorQueue.RegionIsMaximal | sensors/SensorEventQueue.cpp:47-56 | it ends only where asked, at the array's end or at the oldest event |
| SensorQueue.DequeueDrops | sensors/SensorEventQueue.cpp:74-81 | dequeue drops exactly the oldest event, across the wrap too |
| SensorQueue.DequeueKeepsOpen | sensors/SensorEventQueue.cpp:74-81 | a region handed out stays free under any dequeue |
| SensorQueue.WriteIsInvisible | sensors/multihal.cpp:155-159 | a store into the region puts its event in its slot, changes no other slot and no readable event |
| SensorQueue.SensorEventQueue.Store | sensors/multihal.cpp:155-159 | the same for the array in place |
| SensorQueue.MarkAppends | sensors/SensorEventQueue.cpp:61-63 | marking appends exactly the first slots of the region |
| SensorQueue.SensorEventQueue.GetWritableRegion | sensors/SensorEventQueue.cpp:39-59 | the in-place code offers an open region |
| SensorQueue.SensorEventQueue.MarkAsWritten | sensors/SensorEventQueue.cpp:61-63 | the contents grow by the marked slots |
| SensorQueue.SensorEventQueue.Peek | sensors/SensorEventQueue.cpp:69-72 | the oldest event or NULL |
| SensorQueue.SensorEventQueue.GetSize | sensors/SensorEventQueue.cpp:65-67 | the number of readable events |
| SensorQueue.SensorEventQueue.Dequeue | sensors/SensorEventQueue.cpp:74-81 | the contents lose their first event, all open regions stay open, and space is announced exactly when the queue was full |
| SensorHandles.GlobalToFullAt | sensors/multihal.cpp:87-99 | handle h resolves to the h-th pair assigned, and to nothing outside 1 to their number |
| SensorHandles.FullToGlobalIsLast | sensors/multihal.cpp:91-99 | a pair assigned more than once has its last handle |
| SensorHandles.InverseIffDistinct | sensors/multihal.cpp:87-99 | the two maps are mutually inverse if and only if no pair was assigned twice |
| SensorHandles.RemapReturnsTheHandle | sensors/multihal.cpp:315-335 | an event of the sensor a handle resolves to is delivered under that handle, metadata too |
| SensorHandles.RemapOfUnlisted | sensors/multihal.cpp:324-334 | an event of a sensor never listed gets -1 for its handle and keeps the rest |
| SensorHandles.HandleMaps.AssignGlobalHandle | sensors/multihal.cpp:91-99 | handles are given out as 1, 2, 3 and both maps follow |
| SensorHandles.HandleMaps.Resolve | sensors/multihal.cpp:102-121 | module and local handle of an assigned handle, -1 for any other |
| SensorHandles.HandleMaps.InitSensorsList | sensors/multihal.cpp:640-691 | the k-th listed sensor, counted from 0, is the k-th of all modules in order with handle k + 1 |
| PollScan.BadHandlePassesIff | sensors/multihal.cpp:328-334 | exactly which events are dropped, and that only metadata about unlisted sensors slips through the test |
| PollScan.VisitProgresses | sensors/multihal.cpp:346-363 | every round lowers the queued events, or the queues not yet found empty in a row |
| PollScan.VisitConserves | sensors/multihal.cpp:346-363 | a round loses, duplicates and reorders nothing |
| PollScan.VisitKeepsEmpties | sensors/multihal.cpp:349-352 | the queues counted in empties are the last ones visited and are empty |
| PollScan.VisitKeepsEven | sensors/multihal.cpp:362 | queues that stay non-empty have given one event per round trip |
| PollScan.ScanIsFairAndComplete | sensors/multihal.cpp:346-363 | a locked scan conserves all events in order, stops short of maxReads only with all queues empty, and drains busy queues within one event of each other |
| PollScan.LoopAfter | sensors/multihal.cpp:346-363 | what was delivered and dequeued before makes no difference to a scan |
| PollContext.SensorsPollContext.CopyEvent | sensors/multihal.cpp:353-359 | the remapped event is appended to the output unless its handle is unknown |
| PollContext.SensorsPollContext.VisitNext | sensors/multihal.cpp:347-362 | one round on the queue objects is one round of the scan |
| PollContext.SensorsPollContext.ScanQueues | sensors/multihal.cpp:339-363 | the loop on the queue objects is the scan, so it is fair, complete and conserving |
| MultiHal.StepKeepsInv | sensors/multihal.cpp:142-179 | every step of writers and poller keeps regions open, sleepers justified and events conserved |
| MultiHal.VisitRefines | sensors/multihal.cpp:346-363 | one step of the machine's scan over ring buffers is one round over plain sequences |
| MultiHal.RunInv | sensors/multihal.cpp:142-179 | the invariant holds throughout every run |
| MultiHal.WriterLockOpens | sensors/multihal.cpp:150-156 | a writer with the lock sleeps exactly if its queue is full and else gets all space up to the array's end or the oldest event |
| MultiHal.DeviceReport | sensors/multihal.cpp:159-169 | no event or an error sends the writer back, else exactly the reported number goes on to be marked |
| MultiHal.PollerSteps | sensors/multihal.cpp:343-376 | a call begins, a scan begins, ends with what it read, or ends asleep when it read nothing |
| MultiHal.PollReturnsEvents | sensors/multihal.cpp:345-376 | over every run a poll that returns hands over at least one and at most its maxReads events |
| MultiHal.RescansOnlyWoken | sensors/multihal.cpp:364-371 | over every run a scan that found nothing leaves the poller asleep, and the next scan of the call follows a marking or a spurious wake-up |
| MultiHal.SlotsHoldTheLastStored | sensors/multihal.cpp:155-159 | over every run a slot holds what a sub-HAL last stored there, whatever is dequeued and marked |
| MultiHal.MarksWhatWasStored | sensors/multihal.cpp:150-169 | over every run a writer's round adds exactly the reported number of events, those last stored in the first slots of its region |
| MultiHal.PollNeverBlocks | sensors/multihal.cpp:142-179 | while a poll is under way it can go on, or it waits and every writer can |
| MultiHal.EventGetsThrough | sensors/multihal.cpp:142-179 | for every event with a known handle a run in which it is stored, marked, polled and returned under its global handle |
| MultiHal.NoLostWakeup | sensors/multihal.cpp:364-371 | a poller asleep without a wake-up under way has only empty queues, a writer asleep a full one, so they never all sleep |
| MultiHal.EventsAreConserved | sensors/multihal.cpp:142-179 | at every moment of every run, events marked equal events dequeued followed by events queued, and delivered are the dequeued with known handles |
| MultiHal.ScanIsAtomic | sensors/multihal.cpp:345-377 | whatever writers do meanwhile, a scan does what the one-go loop does from where it stands |
| MultiHal.EveryScanIsFair | sensors/multihal.cpp:343-364 | every scan of every run, from its lock to its end, conserves the queues it began with, falls short of maxReads only with all of them empty, and drains busy ones evenly |
| MultiHal.ScanEnds | sensors/multihal.cpp:346-363 | in every run, under concurrent stores, a scan visits no more queues than its budget, and until its end a visit or the end is possible |
| MultiHal.BudgetIsBounded | sensors/multihal.cpp:135 | the budget for n queues is at most 36 n (n + 1) + n visits |
| LinkedListModule.LinkedList.Add | gps/utils/linked_list.c:110-155 | the list grows by a fresh newest element, or rejects NULL, with all links consistent |
| LinkedListModule.LinkedList.Remove | gps/utils/linked_list.c:162-204 | the oldest element leaves, or the list reports that it is empty |
| LinkedListModule.LinkedList.Empty | gps/utils/linked_list.c:211-223 | the head is NULL exactly when the list has no element |
| LinkedListModule.LinkedList.Flush | gps/utils/linked_list.c:230-260 | all elements go, and exactly those with a dealloc function are deallocated, newest first |
| LinkedListModule.DeallocatedAt | gps/utils/linked_list.c:241-255 | of what a flush deallocates: one entry per element with a dealloc function, each after those newer than it |
| LinkedListModule.LinkedList.Search | gps/utils/linked_list.c:267-327 | the newest match is found, handed out, unlinked and deallocated as the flags say, and nothing else changes |
| LinkedListModule.LinkedList.Unlink | gps/utils/linked_list.c:298-310 | one element leaves the chain anywhere and the rest stays consistent |
| MsgQModule.MsgQ.Snd | gps/utils/msg_q.c:185-221 | on a queue not unblocked every message is queued last, signalled and reported accepted; NULL and an unblocked queue are refused with their codes |
| MsgQModule.MsgQ.Take | gps/utils/msg_q.c:262-268 | the oldest message, or unavailable when there is none |
| MsgQModule.MsgQ.Flush | gps/utils/msg_q.c:276-299 | the queue is empty afterwards and exactly the messages with a dealloc function were deallocated, newest first |
| MsgQModule.SendIsSnd | gps/utils/msg_q.c:204-220 | a send of the monitor queues, records and wakes likewise, and does nothing on an unblocked queue |
| MsgQModule.LockIsTake | gps/utils/msg_q.c:247-268 | a receiver with the mutex gives up, waits, or returns and removes the oldest message, under the conditions of the code |
| MsgQModule.OtherSteps | gps/utils/msg_q.c:276-336 | a flush drops exactly what is queued, an unblock wakes every sleeper, once |
| MsgQModule.MsgQ.Unblock | gps/utils/msg_q.c:306-336 | the queue is unblocked and all are woken, once |
| MsgQModule.StepKeepsFifo | gps/utils/msg_q.c:185-299 | what was accepted is what left, in order, followed by what is queued |
| MsgQModule.StepKeepsInv | gps/utils/msg_q.c:185-336 | and someone asleep implies as many receivers woken as messages queued |
| MsgQModule.RunInv | gps/utils/msg_q.c:185-336 | both hold throughout every run with any number of receivers, and no one sleeps on an unblocked queue |
| MsgQModule.ReceivedIsPrefix | gps/utils/msg_q.c:228-269 | without a flush the messages received are a prefix of those accepted |
| MsgQModule.NothingAfterUnblock | gps/utils/msg_q.c:204-209 | once unblocked nothing more is accepted, for good |
| MsgQModule.AcceptedAreSentInTime | gps/utils/msg_q.c:204-217 | over every run exactly the messages sent before the unblock are accepted, in order |
| MsgQModule.SomeoneCanReceive | gps/utils/msg_q.c:257-268 | over every run, while a message waits or once unblocked, some receiver inside can take the mutex and return |
| CameraPlanes.UnpackPack | camera/QCamera2/HAL/QCamera2HWICallbacks.cpp:352-407 | spreading what was packed from a buffer changes nothing in it |
| CameraPlanes.PackUnpack | camera/QCamera2/HAL/QCamera2HWICallbacks.cpp:352-407 | packing what was spread over disjoint rows gives the packed image back |
| CameraPlanes.PaddingIsUntouched | camera/QCamera2/HAL/QCamera2HWICallbacks.cpp:380-407 | recovering changes no byte outside the rows |
| CameraPlanes.PackIsIdentityIff | camera/QCamera2/HAL/QCamera2HWICallbacks.cpp:352-378 | packing hands out the start of every buffer unchanged exactly when the rows follow each other without a gap |
| CameraRoutines.YuvDataRelocate | camera/QCamera2/HAL/QCamera2HWICallbacks.cpp:352-378 | byte by byte, row after row and plane after plane, every row of the frame at its offset, length and stride is in the destination, and nothing behind is touched |
| CameraRoutines.YuvDataRecover | camera/QCamera2/HAL/QCamera2HWICallbacks.cpp:380-407 | byte by byte, every row of the packed image is at its place in the frame if planes do not overlap, and no byte outside the rows is touched |
| CameraLayouts.RowsAreDisjoint | camera/QCamera2/HAL/QCamera2HWICallbacks.cpp:363-376 | rows no wider than their stride in planes that follow each other do not overlap |
| CameraLayouts.CopiesUndoEachOther | camera/QCamera2/HAL/QCamera2HWICallbacks.cpp:352-407 | for every such layout relocate and recover undo each other both ways and padding survives |
| CameraLayouts.PackedFits | camera/QCamera2/HAL/QCamera2HWICallbacks.cpp:442-445 | the packed image fits the temporary buffer of width * height * 3 / 2 bytes, for odd sizes too |
| CameraLayouts.SkippingIsRightIff | camera/QCamera2/HAL/QCamera2HWICallbacks.cpp:409-412 | leaving the copy out when isNeedDelPadding is false is right for every frame exactly when offsets are zero and chroma rows are unpadded |
| CameraFormats.PadToSize | camera/QCamera2/stack/common/mm_camera_interface.h:43-45 | the result is the least multiple of the padding not below the size |
| CameraFormats.RoomyFits | camera/QCamera2/stack/mm-camera-interface/src/mm_camera_stream.c:1854-1891 | all rows lie in the frame and the packed image fits |
| CameraFormats.NvNeverSkipsWrongly | camera/QCamera2/stack/mm-camera-interface/src/mm_camera_stream.c:1817-1858 | for NV12 and NV21 of all dimensions and paddings, isNeedDelPadding never skips a copy that was needed |
| CameraFormats.NvTestPassesIff | camera/QCamera2/HAL/QCamera2HWICallbacks.cpp:409-412 | there the test finds no padding exactly when both dimensions are multiples of their paddings |
| CameraFormats.AdrenoSkipsWronglyIff | camera/QCamera2/stack/mm-camera-interface/src/mm_camera_stream.c:1859-1891 | for the Adreno format it does exactly when the width is 32 more than a multiple of 64 and the height a multiple of 128 |
| CameraFormats.AdrenoTestPassesIff | camera/QCamera2/HAL/QCamera2HWICallbacks.cpp:409-412 | the test finds no padding exactly when width and height are multiples of 32 and the picture fills whole pages |
| CameraFormats.AdrenoExample | camera/QCamera2/HAL/QCamera2HWICallbacks.cpp:516-521 | a 160 x 128 preview frame handed on without the copy it needs |
| CameraLayouts.SizesAgreeIffPacked | camera/QCamera2/HAL/QCamera2HWICallbacks.cpp:840-856 | the total sizes agree exactly when no stride or scanline exceeds the picture |
| CameraLayouts.PackedPreviewIsItself | camera/QCamera2/HAL/QCamera2HWICallbacks.cpp:856-864 | on such a frame the row copy would give the frame itself |
| CameraLayouts.CopyPreview | camera/QCamera2/HAL/QCamera2HWICallbacks.cpp:865-892 | the two row loops fill the application's buffer with exactly the packed picture |
| CameraRoutines.SendPreview | camera/QCamera2/HAL/QCamera2HWICallbacks.cpp:840-892 | both paths hand out each luma and chroma byte of the picture from its strided place, and memory is shared exactly when nothing is padded |

## Left out

- BoyerMoore.BmSearch: patterns are non-empty.  For an empty pattern the source fills its tables out of bounds before it looks at the length (`recovery/recovery_updater.cpp:102-105`); sizes are assumed to fit `int`.
- CameraRoutines.SendPreview: pictures have at least two rows and a positive width, strides and scanlines are no smaller than the picture; the YV12 branch never copies and is not modelled.
- CameraLayouts.SkippingIsRightIff: two planes of the width that isNeedDelPadding is given, as its callers use it.
- CameraFormats.PadToSize: paddings other than powers of two, for which the bit mask of the macro is no rounding, do not occur; the layouts of the other formats and streams are not modelled, nor is the wrap-around of 32-bit lengths.
- CameraRoutines.YuvDataRelocate: the return for NULL buffers, and the wrap-around of 32-bit lengths and offsets, are not modelled.
- MultiHal.NoLostWakeup: one poller, polling for at least one event; with a smaller maxReads `poll` waits for ever by design of its loop.  A sub-HAL returns no more events than its region holds.
- SensorQueue.SensorEventQueue.MarkAsWritten: counts up to the region's length only, because a sub-HAL that reports more events than it was given room for has already written past its region; the source adds any count unchecked.
- TimerInvariant.StepKeepsInv: reading `mClient` and calling `client->stop()` in `LocTimerDelegate::expire()` is one step; a client destroyed between the two is not modelled.
- TimerModel.TimerRanking: the difference of two expiry seconds is assumed to fit `int`.
- The timer service has two containers (with and without wake-up) that share the threads; one container is modelled, for any number of clients.
- LocTimer and LocTimerDelegate are records of the state machine and not classes, because the point is how their methods interleave; address reuse after deletion is not modelled.
- Timer creation failure, the once-only creation of tasks and containers, the fallback to another clock, spurious epoll returns, and the C wrapper `LocTimerWrapper`.
- The message task takes its messages in the order they were sent; the task's own queue object is not part of this model, `MsgQModule` shows the order for `msg_q`.
- The sub-HAL loading of `sensors/multihal.cpp`, failed opens, `batch` and its fallback, `fix_sensor_flags`, and the early return of `lazy_init_sensors_list`.
- NULL handles, allocation failure, `init` and `destroy` of list and message queue; `linked_list_search` leaving `*data_p` alone on an empty list.
- Memory mapping and file access of the recovery updater, and its other functions, which only call the search.
- The camera callbacks other than the copies: memory handles, parameters, the make-up library, other stream types.
- The remaining glue of the tree (lights, fingerprint, RIL, Wi-Fi, init, shims): thin wrappers over libraries that are not in it.
