# FreeRTOS kernel objects in Dafny

A model of the data structures and protocols of the FreeRTOS V10.0.1 kernel in
`freertos/src`, with proofs of what they promise. `tasks.c` is not part of this model: what
the kernel objects ask of it is taken from its documented contracts
(`freertos/inc/task.h:1224-1233`, `freertos/inc/task.h:2145-2214`). The conditions of
`configASSERT` are preconditions.

Each object that the C code updates in place is a class whose methods are proved against
functions on values; the properties are then proved of those functions, and of runs of them.
Beside the protocols and runs there are laws of the single calls, which say from outside what the
caller gets and what has changed: when an item sent comes out, when a timer is called, which
bits end a wait.

| module | what it models |
|---|---|
| `Types`, `Arithmetic` | small types and functions that the others share; facts about division |
| `QueueSpec`, `Queues` | the queue as a deque with two event lists and two lock counts; the byte ring that holds it |
| `QueueProtocol` | tasks in the retry loops of send, receive and peek, and interrupts, sharing one queue |
| `QueueOrder` | which item comes out when, and who is woken, over runs of QueueProtocol |
| `TimerSpec`, `TimerRuns` | the timer daemon in unwrapped time, and one timer over whole runs |
| `TimerOneShots` | one-shot timers and changes of period, over whole runs |
| `TimerPasses` | what a pass of the daemon calls, catching up, the order of commands, creation |
| `TimerDaemon` | the daemon as it is: a 32-bit tick, two lists, a bounded command queue |
| `TimerTasks` | the timer task from its creation on, over whole runs |
| `HeapSpec`, `HeapRuns` | free lists as sequences of blocks, the two heap operations, and runs of them |
| `Heaps` | the same operations on headers in memory, linked from a sentinel |
| `StreamProtocol` | one writer and one reader on a stream buffer without a lock |
| `StreamBuffers` | the byte ring of stream and message buffers, and message framing |
| `EventGroups` | event bits, conditional waiters, clear on exit, the rendezvous |
| `EventLaws` | the same calls bit by bit: what they answer, whom they wake, what they clear |
| `EventBarrier` | the rendezvous as a barrier for n tasks, over whole runs |
| `ListSpec`, `KernelLists` | sorted insertion and round robin on sequences; the ring of pointers |
| `CoRoutineSpec` | delayed co-routines in unwrapped time |
| `CoRoutineRuns` | the whole co-routine scheduler in unwrapped time, over runs of its calls |
| `CoRoutineLaws` | the same calls seen from the lists: who is ready where, who runs next |
| `CoRoutines` | the scheduler as it is, with its two delayed lists and 32-bit tick |

## How the model is put together

**Queues.** `QState` holds the items in order, the two lock counts and the two event lists.
The class `Queue` keeps the items in an array of bytes with `pcWriteTo` and `pcReadFrom` as
offsets. `QueueProtocol` gives every task a program counter whose value is the critical
section it runs next; a step is one critical section of a task, the expiry of a time-out, or
one interrupt. While a task has the scheduler suspended no other task moves. `NoLostWakeup`
says that while a receiver waits there are at most as many items as receivers woken and not
yet retried, plus sends counted in `cTxLock`; and dually for senders and `cRxLock`.

**Timers.** A `Clock` is the unwrapped time, the active timers in the order of their unwrapped
expiries, the queued commands and a log of callbacks. `Daemon` has the tick counts and the two
lists; its `View()` is a `Clock`: the current list is lifted by the start of the epoch of the
last sample and the overflow list by one cycle more. `Valid()` holds from the constructor on
and after every method that a task or the daemon calls; it implies `InEpochs()`, that both
lists are sorted and each holds expiries of its own epoch only. `Share` follows one timer
through the log from its n-th callback on: k callbacks since, and one expiry or one command
still to come. `TimerTasks.TimerTask` runs a daemon on any sequence of creations, commands,
passes and receipts; what it assumes of time is that consecutive looks at the tick are less
than 2^32 ticks apart, and that each start is received less than 2^32 ticks after the time it
carries, which for a restart is the expiry last called. `StartedTimerKeepsTime` says of such a
run what `TimerRuns` proves of one timer.

**Heap.** A `HeapState` has the free blocks in address order and the live ones. `Separated`
says that two free blocks neither overlap nor touch, and `Tiled` that every byte is in a free
or in a live block and never in both. A list that is `Separated` is determined by the bytes
it covers (`Canonical`), and most of the rest follows from that. `Heap` has a header for each
block in a map from addresses and walks the chain of links as the C code does.

**Stream buffers.** In `StreamProtocol` a side reads the other's index in a step of its own,
computes the space or the count from that reading, copies its bytes one at a time in any
order, publishes its own index, and then notifies; the steps of both sides interleave freely,
and the reading may be old by the time it is used: a writer that gives up waiting for space
writes with what it read before it slept.

**Event groups.** A word of event bits is the set of the positions of its one bits; the three
control bits stay packed into the item value at positions 24, 25 and 26.

**Lists.** `ListItem` objects are linked in a ring that starts with the end marker, and a
ghost sequence gives the ring. `Walk` is that ring with the place of `pxIndex`.

`TimerSpec.Insert` and `CoRoutineSpec.Insert` are that sorted insertion on lists of timers and
of sleepers (`InsertIsListInsert`, twice).

**Co-routines.** A `Sched` has the sleepers in unwrapped time, the ready lists, one `Walk` for
each priority, and who is on an event list or pending. `SchedOk` says that every created
co-routine is ready once or asleep once and never both. The class `Scheduler` keeps it, and
each of its calls is a `Call` of `CoRoutineRuns`, or for scheduling a run of them, so that
interrupts can come between its parts; `PerformAll` makes those runs runs of the class.

## Findings

- `prvCopyDataToQueue` takes the overwritten item off the count only in the branch for items
  that hold data (freertos/src/queue.c:2049-2116), so an overwrite with an empty item of a
  one-place queue that is full, which the assertions allow (freertos/src/queue.c:732-733),
  leaves a count of 2 (`EmptyOverwriteOverfills`). `CountStaysWithinExactly`: a send leaves
  the count within the length if and only if it is not that one, and `RunStaysWithin` has
  the bound over all runs without it. The rest of what is proved of queues does not need it.
- A lock count is an `int8_t` (freertos/src/queue.c:1057, freertos/src/queue.c:1824).
  `SendKeepsInvariantExactlyBelow127` and `ReceiveKeepsInvariantExactlyBelow127`: the wake-up
  invariant survives an interrupt send or receive on a locked queue, in all states with that
  count, if and only if the count is below 127. `The128thSendIsForgotten` is a run from an
  empty queue at the end of which an item lies in it and its reader sleeps, with nobody
  holding the queue locked. The protocol therefore assumes at most 127 interrupt operations
  of a kind for each lock.
- A start or reset of a timer is not the last word if the daemon is late
  (freertos/src/timers.c:462-499, freertos/src/timers.c:753-777,
  freertos/src/timers.c:846-886): it may first run the old expiry and queue a restart from
  that, behind the reset, which then undoes it (`StaleRestartTakesOver`: a reset at 104 of a
  timer of period 10 ends armed for 120). `StartTakesOverExactly`: a start that is received
  becomes the timer's one pending entry, on its schedule, if and only if no other command of
  the timer is queued behind it; the second half is about that one entry, for two starts of
  the same tick end on schedule as well. `ResetTakesOverExactly`, in terms of lateness: with a
  pass between issue and receipt, a reset takes over if and only if that pass queues no
  restart, that is, within an epoch, if it is not a whole period after the old expiry, and at
  the end of one if the old expiry is not before that end.
- A start that is received 2^32 ticks or more after the time it carries can be put off by a
  cycle, because the time passed is a 32-bit subtraction (freertos/src/timers.c:660). A
  restart carries the expiry last called, so this can happen though the daemon never sleeps
  for a cycle: `RestartOfACycleAgoIsMisjudged` has a timer of the longest period due at 60 and
  looks at the clock at 100 and 2^32 + 99. `LateClassifyIsExactly`: the nested comparisons are
  right if and only if less than 2^32 ticks have passed or the remainder modulo 2^32 is still
  the period at least.
- The space check of a message send adds the length prefix in 32-bit arithmetic
  (freertos/src/stream_buffer.c:502-512). `SpaceCheckIsExact`: it means what it says exactly
  for messages below 2^32 - 4 bytes.
- `uxListRemove` of the item at `pxIndex` moves the index back (freertos/src/list.c:181-184),
  and `vListInsertEnd` then puts a new item ahead of the one it moved back to
  (freertos/src/list.c:74-100), though that one had been waiting for its turn
  (`RemovalThenAdditionOvertakes`). `PlaceInTurn` shows that this is the only way to lose a
  place, and `ServedInTurn` bounds how often it can matter.
- `vCoRoutineAddToDelayedList` with a delay of 0, which `crDELAY` never asks for
  (freertos/inc/croutine.h:290-295), puts the present tick into the current list
  (freertos/src/croutine.c:165-186), and the wrap exchanges the lists before it looks at one
  (freertos/src/croutine.c:230-243). `ZeroDelayWakesNextTickExactly`: the next tick wakes such
  a co-routine if and only if it is not the tick at which the count wraps; then it sleeps on
  in what has become the overflow list.

## Model

| member | source | states |
|---|---|---|
| `Queues.RingIndexIsModular` | freertos/src/queue.c:2066-2113 | the write slot is (read slot + 1 + count) modulo the length |
| `Queues.RingAppend` | freertos/src/queue.c:2066-2077 | an item written into the write slot comes last in the ring, the others unchanged |
| `Queues.RingPrepend` | freertos/src/queue.c:2078-2091 | an item written into the read slot, the slot then stepping back, comes first |
| `Queues.RingDrop` | freertos/src/queue.c:2119-2134 | stepping the read slot on takes away exactly the first item |
| `Queues.SlotsAfterCopy` | freertos/src/queue.c:2066-2082 | copying itemSize bytes at a slot's offset changes that slot's item and no other |
| `Queues.Queue.constructor` | freertos/src/queue.c:247-288 | a new queue is empty, unlocked, with nobody waiting |
| `Queues.Queue.CopyDataToQueue` | freertos/src/queue.c:2040-2116 | the deque gets the item at the back, at the front, or, when overwriting with data, in place of its one item; a queue of empty items only counts, an overwrite included |
| `Queues.Queue.CopyDataFromQueue` | freertos/src/queue.c:2119-2134 | the first item of the deque is returned and taken out, across the end of the array too |
| `Queues.Queue.TrySend` | freertos/src/queue.c:744-870 | the critical section of a send is Send on the abstract queue, for every item and every count below the wrap of uxMessagesWaiting: refused only when full and not overwriting, and otherwise the first waiting receiver is woken |
| `Queues.Queue.TrySendFromISR` | freertos/src/queue.c:954-1068 | the same from an interrupt, which on a locked queue wakes nobody and adds one to cTxLock, wrapping as an int8_t |
| `Queues.Queue.TryReceive` | freertos/src/queue.c:1264-1330 | the critical section of a receive is Receive on the abstract queue |
| `Queues.Queue.TryReceiveFromISR` | freertos/src/queue.c:1750-1838 | the same from an interrupt, which on a locked queue adds one to cRxLock, wrapping as an int8_t, instead of waking |
| `Queues.Queue.TryPeek` | freertos/src/queue.c:1626-1690 | a peek returns the first item, leaves the deque as it was and wakes the next receiver |
| `Queues.Queue.LockQueue` | freertos/src/queue.c:232-244 | an unlocked count becomes 0 and a count already locked is kept |
| `Queues.Queue.ReplayTx` | freertos/src/queue.c:2137-2223 | unlocking wakes as many receivers as were counted, or all there are, in list order, and leaves the count unlocked |
| `Queues.Queue.ReplayRx` | freertos/src/queue.c:2225-2254 | the same for senders and cRxLock |
| `QueueSpec.CountStaysWithinExactly` | freertos/src/queue.c:2049-2116 | a send, from a task or an interrupt, leaves the count within the length if and only if it does not overwrite a full queue with an empty item |
| `QueueSpec.EmptyOverwriteOverfills` | freertos/src/queue.c:2113 | two overwrites with empty items count two in a queue of one place |
| `QueueProtocol.StepKeepsInv` | freertos/src/queue.c:725-920 | every critical section of every task, every time-out and every interrupt keeps the wake-up bounds, the lock discipline and the place of each task |
| `QueueProtocol.WakeupsAreNeverLost` | freertos/src/queue.c:2137-2254 | over every interleaving from an empty queue the wake-up bounds hold; so once the woken have retried and the queue is unlocked, receivers wait only on an empty queue and senders only when there is no room |
| `QueueProtocol.RunKeepsTasksOk` | freertos/src/queue.c:870-919 | in every reachable state a task is on at most one event list, and only while blocked in that kind of call; one task at a time is inside the suspended window; nothing is locked outside it |
| `QueueProtocol.IsrSendBound` | freertos/src/queue.c:954-1059 | an interrupt send adds one item and either one woken receiver or one to the count, whenever somebody still waits |
| `QueueProtocol.IsrReceiveBound` | freertos/src/queue.c:1775-1838 | an interrupt receive adds one space and either one woken sender or one to the count, whenever somebody still waits |
| `QueueProtocol.QueueIsFifo` | freertos/src/queue.c:1264-1312 | with sends to the back only, over every interleaving, what was sent is what was received followed by what the queue holds |
| `QueueOrder.EachComesOutInTurn` | freertos/src/queue.c:2066-2134 | over every interleaving of calls that do not overwrite: an item sent to the front is handed out by the next receive and one sent to the back after those held, only later sends to the front coming before it |
| `QueueOrder.FrontComesOutNext` | freertos/src/queue.c:2078-2091 | an item sent to the front of a queue with room, from a task or an interrupt, is what the next receive hands out, leaving what was held before |
| `QueueOrder.BackComesOutLast` | freertos/src/queue.c:2066-2077 | an item sent to the back leaves the next receive as it was, and is itself last |
| `QueueOrder.OverwriteReplaces` | freertos/src/queue.c:2092-2113 | an item with data that overwrites a mailbox is what the next receive hands out, and nothing else is held |
| `QueueOrder.RefusedExactly` | freertos/src/queue.c:744-750 | a send is refused exactly on a full queue that it does not overwrite, a receive and a peek exactly on an empty one, and what is refused changes nothing |
| `QueueOrder.PeekShowsTheNext` | freertos/src/queue.c:1634-1645 | a peek hands out what the next receive does and takes nothing |
| `QueueOrder.PeekShowsTheOldest` | freertos/src/queue.c:1634-1645 | with sends to the back, in every state of every run a peek finds the first item sent and not yet received |
| `QueueOrder.WokenFromTheHead` | freertos/src/queue.c:778-800 | each call wakes the first of the event list, if anybody waits and the queue is not locked, and nobody else leaves it |
| `QueueOrder.UnlockWakesFromTheHead` | freertos/src/queue.c:2137-2254 | an unlock wakes as many from the head as were counted, or all there are |
| `QueueOrder.LockKeepsTheCounts` | freertos/src/queue.c:232-244 | locking starts an unlocked count at 0 and keeps one that is already locked |
| `QueueOrder.WaitsOnlyIfItMust` | freertos/src/queue.c:876-895 | under the lock a task goes to wait exactly if the queue is still full, or empty |
| `QueueOrder.NothingOnlyFromEmpty` | freertos/src/queue.c:1303-1375 | a receive or a peek returns with nothing only from an empty queue, and a send without a block time fails only on a full one |
| `QueueProtocol.RunStaysWithin` | freertos/src/queue.c:2049-2113 | over every run without overwrites by empty items the count is at most the length |
| `QueueProtocol.SendKeepsInvariantExactlyBelow127` | freertos/src/queue.c:1053-1058 | an interrupt send on a locked queue keeps the invariant in all states with a given count if and only if the count is below 127 |
| `QueueProtocol.ReceiveKeepsInvariantExactlyBelow127` | freertos/src/queue.c:1820-1825 | the same for an interrupt receive and cRxLock |
| `QueueProtocol.OverwritesAreCounted` | freertos/src/queue.c:1053-1058 | n overwrites with data from interrupts under one lock leave one item and a count of n, and of -128 when n is 128 |
| `QueueProtocol.The128thSendIsForgotten` | freertos/src/queue.c:2145-2223 | from an empty queue, with one reader asleep and another between lock and unlock, 128 overwrites and the unlock are a run to a state in which the wake-up bound fails |
| `TimerSpec.InsertOk` | freertos/src/timers.c:647-685 | insertion keeps the active timers sorted by expiry and all known |
| `TimerSpec.InsertIsListInsert` | freertos/src/list.c:103-167 | insertion among the timers is the insertion of the pointer list, entry and value, at the place of the expiry |
| `TimerSpec.WithoutIsListRemove` | freertos/src/list.c:170-196 | and taking off a timer that is active once is the removal of its item |
| `TimerSpec.DrainOneShrinks` | freertos/src/timers.c:846-886 | each turn of the drain loop, though it may insert into the list it empties, lowers the sum of the distances to the end of the epoch: the loop ends |
| `TimerRuns.FiringsAreRegular` | freertos/src/timers.c:846-886 | the callbacks of a drained auto-reload timer are for v, v + p, v + 2p, ... up to the last before the wrap |
| `TimerRuns.FiringsAreCeiling` | freertos/src/timers.c:846-886 | and there are exactly ceil((bound - v) / p) of them |
| `TimerRuns.DrainFires` | freertos/src/timers.c:846-886 | whatever other timers do, draining calls an auto-reload timer exactly those times, takes it off and sends one restart carrying its last expiry |
| `TimerRuns.DrainFiresOneShot` | freertos/src/timers.c:846-886 | a one-shot timer is called once and leaves nothing behind |
| `TimerRuns.DrainCallsInOrder` | freertos/src/timers.c:846-886 | the drain's callbacks come in non-decreasing order of expiry, from the earliest active one to the bound |
| `TimerRuns.StartTakesOverExactly` | freertos/src/timers.c:749-777 | a start received at any time after it was issued puts an auto-reload timer on time from the time of the command, with that as its one pending entry, whatever it did before, if and only if no other command of the timer is queued behind it |
| `TimerRuns.PassRestartsExactly` | freertos/src/timers.c:462-499 | a pass queues a restart of an active auto-reload timer exactly if it ends the epoch of its expiry, or finds it first and a whole period late |
| `TimerRuns.ResetTakesOverExactly` | freertos/src/timers.c:749-777 | a reset of an active timer, with one pass of the daemon between issue and receipt, takes over if and only if that pass queues no restart |
| `TimerRuns.RunOnTime` | freertos/src/timers.c:462-499 | every run without further commands to a timer keeps it on time: k calls since for its first k expiries, none early, and pending exactly once |
| `TimerRuns.NoDriftNoLoss` | freertos/src/timers.c:753-777 | in unwrapped time, from the issue of a start at T of an inactive auto-reload timer, before or after the daemon last looked at the clock: its i-th callback since is for T + (i + 1) * period and never before, with exactly one further expiry pending, however late the daemon runs |
| `TimerRuns.NoDriftAfterReceipt` | freertos/src/timers.c:753-777 | the same from the receipt of a start on, though the timer be active: a reset |
| `TimerRuns.StaleRestartTakesOver` | freertos/src/timers.c:846-886 | a reset at 104 with a late daemon ends armed for 120 instead of 114 |
| `TimerRuns.CaughtUpWhenIdle` | freertos/src/timers.c:538-595 | when nothing has expired and no restart of it is queued there have been exactly floor((now - T) / period) callbacks since the start |
| `TimerRuns.StoppedIsSilent` | freertos/src/timers.c:779-783 | from the receipt of a stop, with no further command to it, a timer has no callback, not even for an expiry in the epoch just left |
| `TimerOneShots.OneShotFiresOnce` | freertos/src/timers.c:462-499 | from the issue of a start at T of an inactive one-shot timer, over every run without further commands to it: either it is pending exactly once and has not been called since, or it has been called once, for T + period and not before, and is neither active nor queued |
| `TimerOneShots.OneShotAfterReceipt` | freertos/src/timers.c:749-777 | the same from the receipt of a start on, though the timer be active |
| `TimerOneShots.CalledExactlyWhenDue` | freertos/src/timers.c:538-595 | when nothing has expired and its start is not still queued, the call has been made exactly if T + period has come, and is still to come exactly otherwise |
| `TimerOneShots.PeriodChangeTakesOverExactly` | freertos/src/timers.c:785-797 | a change of period to p received at `now` puts an auto-reload timer on time from `now` with period p, and begins the one life of a one-shot timer then, active or dormant before, if and only if no other command of it is queued behind |
| `TimerOneShots.KeepsTimeAfterPeriodChange` | freertos/src/timers.c:785-797 | so over every run without further commands to it the i-th later callback is for now + (i + 1) * p, or the one callback for now + p, none early, with exactly one entry pending as long as one is to come |
| `TimerPasses.PassCallsTheEarliest` | freertos/src/timers.c:462-499 | within an epoch a pass calls the earliest active timer, of either kind, for its expiry, if that has come, and otherwise changes nothing |
| `TimerPasses.PassEndsTheEpoch` | freertos/src/timers.c:835-891 | at the end of an epoch a pass calls in order for expiries before that end only, and leaves none of those active |
| `TimerPasses.PassesCatchUp` | freertos/src/timers.c:538-595 | as many passes as there are expired timers leave none expired, though each may arm its timer again, and call once each |
| `TimerPasses.CommandsComeInOrder` | freertos/src/timers.c:688-735 | commands are received in the order of their issue, those that the daemon sends itself included |
| `TimerPasses.CreatedIsDormant` | freertos/src/timers.c:352-379 | a timer is created with its period and mode, and is not called until a command is given to it |
| `TimerDaemon.ClassifyIsExact` | freertos/src/timers.c:647-685 | with less than 2^32 ticks since the command, the nested comparisons say process-now exactly when the period has elapsed, and otherwise choose the list of the epoch of the expiry |
| `TimerDaemon.LateClassifyIsExactly` | freertos/src/timers.c:656-683 | however long after the time of the command, they are right if and only if less than 2^32 ticks have passed or what is left of those modulo 2^32 is still the period at least |
| `TimerDaemon.RestartOfACycleAgoIsMisjudged` | freertos/src/timers.c:656-683 | a restart of a cycle ago, by a daemon that last looked at the clock less than a cycle ago, goes to the overflow list though its expiry has passed |
| `TimerDaemon.PlacementIsExact` | freertos/src/timers.c:647-685 | insertion of the wrapped expiry into the chosen list is insertion of the unwrapped expiry among all active timers |
| `TimerDaemon.SwitchIsExact` | freertos/src/timers.c:624-644 | with samples less than a cycle apart the tick is below the last one exactly when one new epoch has begun |
| `TimerDaemon.SleepIsExact` | freertos/src/timers.c:538-622 | the block time ends exactly at the earliest expiry if that is in this epoch, and otherwise at the wrap, which is not past it |
| `TimerDaemon.Daemon.constructor` | freertos/src/timers.c:894-942 | the daemon starts with empty lists in order and an empty queue of so many places |
| `TimerDaemon.Daemon.CreateTimer` | freertos/src/timers.c:352-379 | a timer gets its period and mode; the lists stay in order |
| `TimerDaemon.Daemon.SendCommand` | freertos/src/timers.c:381-430 | the command is queued last, with its meaning in unwrapped time, or refused exactly when the queue is full |
| `TimerDaemon.Daemon.EpochInvariant` | freertos/src/timers.c:647-685 | in a valid daemon both lists are sorted, the current one within the epoch of the last sampled time and the overflow list within the next |
| `TimerDaemon.Daemon.InsertTimerInActiveList` | freertos/src/timers.c:647-685 | the two lists after it are the unwrapped insertion, or the timer is reported late and nothing is inserted |
| `TimerDaemon.Daemon.ProcessExpiredTimer` | freertos/src/timers.c:462-499 | the head timer is called for its expiry and, if auto-reload, armed again from that expiry or sent a restart |
| `TimerDaemon.Daemon.SwitchTimerLists` | freertos/src/timers.c:835-891 | emptying the current list and exchanging the lists is the drain of the old epoch in unwrapped time |
| `TimerDaemon.Daemon.SampleTimeNow` | freertos/src/timers.c:624-644 | the lists are switched exactly when a new epoch has begun, and the time is remembered |
| `TimerDaemon.Daemon.GetNextExpireTime` | freertos/src/timers.c:598-621 | the head of the current list, or 0 so that the daemon wakes at the wrap |
| `TimerDaemon.Daemon.ProcessTimerOrBlockTask` | freertos/src/timers.c:538-595 | one pass is a pass of the unwrapped daemon and leaves the lists in order; when it blocks, it is for ever only with no active timer, and otherwise not past the earliest expiry |
| `TimerDaemon.Daemon.TakeCommand` | freertos/src/timers.c:688-735 | the oldest command is taken, and its timer off whichever list holds it |
| `TimerDaemon.Daemon.StartTimer` | freertos/src/timers.c:749-777 | a start arms from the time of the command, calling a late timer at once and restarting it if auto-reload |
| `TimerDaemon.Daemon.ChangeTimerPeriod` | freertos/src/timers.c:785-797 | a period change arms from now and is never late |
| `TimerDaemon.Daemon.ProcessReceivedCommand` | freertos/src/timers.c:688-832 | a turn of the command loop is the unwrapped command pass and leaves the lists in order |
| `TimerTasks.TimerTask` | freertos/src/timers.c:502-535 | from its creation, over every sequence of creations, commands, passes and receipts: the state is that of the unwrapped run, both lists are sorted and in their epochs, and every sleep on the way ended in time |
| `TimerTasks.StartedTimerKeepsTime` | freertos/src/timers.c:502-535 | in such a run of the 32-bit daemon, from the moment a start at T of an inactive auto-reload timer is accepted and with no further command to it, its i-th callback since is for T + (i + 1) * period and never before, with exactly one further expiry pending, whatever other commands the full queue refuses |
| `TimerTasks.StartedOneShotFiresOnce` | freertos/src/timers.c:502-535 | in such a run an inactive one-shot timer whose start at T is accepted is pending once and not called, or called once, for T + period and not before, and gone |
| `HeapSpec.Canonical` | freertos/src/heap_4.c:377-435 | two ordered lists of blocks of which none touch, covering the same bytes, are the same list |
| `HeapSpec.AddKeeps` | freertos/src/heap_4.c:377-435 | insertion with merging keeps the order, the alignment and the sum, and leaves no two blocks touching |
| `HeapSpec.AddCovers` | freertos/src/heap_4.c:377-435 | and covers exactly the bytes covered before and those of the block |
| `HeapSpec.FirstFitIsFirst` | freertos/src/heap_4.c:161-171 | the search finds the lowest block that is large enough, or that there is none |
| `HeapRuns.RoundingNeverWraps` | freertos/src/heap_4.c:135-159 | a request with its top bit clear becomes, without wrapping, the least multiple of 8 with room for it and a header |
| `HeapRuns.MallocKeepsInv` | freertos/src/heap_4.c:161-224 | allocation keeps the heap tiled, ordered, merged and aligned, and the byte count exact |
| `HeapRuns.FreeKeepsInv` | freertos/src/heap_4.c:263-308 | so does freeing |
| `HeapRuns.MallocRefusesExactly` | freertos/src/heap_4.c:135-224 | NULL exactly for 0, for a set top bit, or when no free block is large enough; the test on the total refuses nothing else |
| `HeapRuns.MallocIsFirstFit` | freertos/src/heap_4.c:161-171 | otherwise the lowest free block that is large enough is used |
| `HeapRuns.MallocDelivers` | freertos/src/heap_4.c:175-224 | it was not live, is aligned, holds the request and a header, and exceeds the rounded size by at most 16 bytes |
| `HeapRuns.MallocSplitsExactly` | freertos/src/heap_4.c:187-202 | the block found is split exactly if more than the smallest block would be left over |
| `HeapRuns.FreeListIsCanonical` | freertos/src/heap_4.c:377-435 | equal live blocks mean equal free lists and byte counts |
| `HeapRuns.FreeUndoesMalloc` | freertos/src/heap_4.c:187-209 | freeing what was just allocated restores the free list and the byte count, split or not |
| `HeapRuns.FreesCommute` | freertos/src/heap_4.c:281-296 | the order of two frees does not matter |
| `HeapRuns.NothingLiveIsOneBlock` | freertos/src/heap_4.c:377-435 | with nothing live the heap is the single initial block |
| `HeapRuns.InitialInv` | freertos/src/heap_4.c:329-374 | the initial heap, cut to alignment at both ends, lies within the array with room for pxEnd and has a free block |
| `HeapRuns.InitialIsAllFree` | freertos/src/heap_4.c:329-374 | the heap starts as one free block between the first and the last aligned address with room for a header behind it, all of it counted, as free and as the least ever free |
| `HeapRuns.HeapStaysWhole` | freertos/src/heap_4.c:161-308 | after every sequence of allocations and frees the heap is tiled and merged and the count is the sum; when all is freed the initial block is back |
| `HeapRuns.RunsAgreeOnFreeList` | freertos/src/heap_4.c:377-435 | two histories that leave the same blocks live leave the same free list |
| `HeapRuns.LowestIsMinimumEver` | freertos/src/heap_4.c:209-218 | xMinimumEverFreeBytesRemaining is the minimum of the free bytes over the whole history |
| `HeapRuns.LowestFromTheStart` | freertos/src/heap_4.c:368-370 | from the start of the heap on it is the least number of free bytes over the run itself |
| `Heaps.Heap.HeapInit` | freertos/src/heap_4.c:329-374 | the headers it writes are the initial heap |
| `Heaps.Heap.InsertBlockIntoFreeList` | freertos/src/heap_4.c:377-435 | walking, merging and relinking headers is Add on the free list; no header off the list is touched but the block's own |
| `Heaps.Heap.Search` | freertos/src/heap_4.c:161-171 | the walk over the links stops at the first fit, or at pxEnd when there is none |
| `Heaps.Heap.Unlink` | freertos/src/heap_4.c:175-183 | the predecessor's link passes over the block, which leaves the free list |
| `Heaps.Heap.Split` | freertos/src/heap_4.c:187-202 | the leftover becomes a free block and the taken one keeps the wanted size |
| `Heaps.Heap.Malloc` | freertos/src/heap_4.c:113-260 | on the headers it is the abstract allocation: same pointer, same free list, live blocks and counts |
| `Heaps.Heap.Free` | freertos/src/heap_4.c:263-308 | on the headers it is the abstract free, and nothing for a null pointer |
| `StreamProtocol.StepKeepsInv` | freertos/src/stream_buffer.c:487-585 | every index read, byte copy, publication, notification, wait, wake-up and giving up of either side keeps what the ring holds, the copies in progress, the readings and the wake-ups in order |
| `StreamProtocol.OldReadingsAreSafe` | freertos/src/stream_buffer.c:451-472 | over every interleaving the space a writer computes from its reading of the tail, and the count a reader computes from its reading of the head, are at most the true ones, however old the reading, also one from before a wait that timed out |
| `StreamProtocol.NothingIsLostOrReordered` | freertos/src/stream_buffer.c:1020-1118 | under every interleaving what was sent is what was received followed by what the ring holds |
| `StreamProtocol.UnreadIsNeverOverwritten` | freertos/src/stream_buffer.c:1020-1063 | no byte the writer copies lands on an unread byte or on one the reader is copying |
| `StreamProtocol.NobodySleepsInVain` | freertos/src/stream_buffer.c:691-792 | with the other side between calls, a reader asleep without its notification has less than the trigger level to read, and a writer less than the space it asked for |
| `StreamBuffers.SpanWritten` | freertos/src/stream_buffer.c:1020-1063 | bytes written behind the contents, across the end of the array too, extend the contents by themselves |
| `StreamBuffers.LengthRoundTrip` | freertos/src/stream_buffer.c:852-870 | the stored length prefix gives back the length |
| `StreamBuffers.FramesUnique` | freertos/src/stream_buffer.c:639-688 | the bytes of a message buffer determine the messages in it |
| `StreamBuffers.StreamBuffer.constructor` | freertos/src/stream_buffer.c:219-264 | a new buffer is empty, has one byte more than the size asked for and a trigger level of at least 1 |
| `StreamBuffers.StreamBuffer.SpacesAvailable` | freertos/src/stream_buffer.c:451-472 | the space is the capacity less the contents |
| `StreamBuffers.StreamBuffer.BytesInBuffer` | freertos/src/stream_buffer.c:1121-1138 | the count is the length of the contents |
| `StreamBuffers.StreamBuffer.WriteBytes` | freertos/src/stream_buffer.c:1020-1063 | the contents are extended by exactly the bytes given |
| `StreamBuffers.StreamBuffer.ReadBytes` | freertos/src/stream_buffer.c:1066-1118 | the first bytes of the contents are returned and taken out, as many as asked for and there |
| `StreamBuffers.StreamBuffer.WriteMessage` | freertos/src/stream_buffer.c:639-688 | a message is appended whole or not at all, a stream takes what there is room for |
| `StreamBuffers.StreamBuffer.Send` | freertos/src/stream_buffer.c:487-585 | the same for a call without a block time, and a waiting reader is notified once the trigger level is reached |
| `StreamBuffers.StreamBuffer.ReadMessage` | freertos/src/stream_buffer.c:852-899 | the oldest message is returned whole; one too long for the caller leaves the state as it was |
| `StreamBuffers.StreamBuffer.Receive` | freertos/src/stream_buffer.c:691-792 | the same for a call without a block time, and a waiting writer is notified when something was read |
| `StreamBuffers.MessagesAreFifo` | freertos/src/stream_buffer.c:639-688 | over every sequence of sends and receives the messages held at first and those accepted are those delivered followed by those held, and they fit |
| `StreamBuffers.PerformAll` | freertos/src/stream_buffer.c:487-792 | of a message buffer itself: over every sequence of calls, what it held and what its sends took is what its receives returned followed by what it holds |
| `StreamBuffers.SpaceCheckIsExact` | freertos/src/stream_buffer.c:502-512 | the space check is right for every amount of space if and only if message and prefix fit in 32 bits |
| `EventGroups.PackRoundTrip` | freertos/src/event_groups.c:346-372 | the wanted bits and both options come back out of the item value |
| `EventGroups.WakesExactly` | freertos/src/event_groups.c:527-590 | setting bits wakes exactly the waiters whose condition holds for old and new bits, gives each that same value, keeps the others, and clears exactly what the woken wanted cleared |
| `EventGroups.OrderOfWaitersIsIrrelevant` | freertos/src/event_groups.c:527-590 | who is woken, who stays and what is cleared do not depend on the order of the waiters |
| `EventGroups.TimedOutIsGone` | freertos/inc/task.h:2148-2153 | a time-out takes exactly that task's item off the list |
| `EventGroups.DoKeepsQuiet` | freertos/src/event_groups.c:504-595 | set, clear, wait, sync, time-out and the step after a time-out each leave no waiter whose condition holds |
| `EventGroups.NobodyWaitsInVain` | freertos/src/event_groups.c:314-381 | so in every state between calls nobody waits whose condition holds, and no control bit is in the event word |
| `EventLaws.WaitAnswersExactly` | freertos/src/event_groups.c:314-381 | a wait returns at once exactly if one of its bits is set, or all of them, or it may not block; with the word before its clearing, which takes out the wanted bits and no others, if asked; otherwise it joins the list with what it asked for |
| `EventLaws.SyncAnswersExactly` | freertos/src/event_groups.c:190-235 | a rendezvous returns at once exactly if its bits complete the set, with that word, taking the set out; otherwise it joins the list for all of it, to be cleared, or returns the word |
| `EventLaws.TimedOutAnswersExactly` | freertos/src/event_groups.c:400-431 | after a time-out the word is returned, and the wanted bits taken out if they are there and that was asked |
| `EventLaws.ClearsExactly` | freertos/src/event_groups.c:446-470 | clearing takes out its bits and no others and wakes nobody |
| `EventLaws.WaiterServedExactly` | freertos/src/event_groups.c:532-572 | setting bits takes a waiter for any off the list with the first of its bits, a waiter for all with the last that was missing, and no other; with the whole word, marked at bit 25 |
| `EventLaws.BitSurvivesExactly` | freertos/src/event_groups.c:555-585 | a bit is set afterwards exactly if it was or is set and no waiter that leaves asked to have it cleared |
| `EventGroups.EventGroup.Examine` | freertos/src/event_groups.c:532-572 | the tests on the split item value are the wait condition, and what is to be cleared |
| `EventGroups.EventGroup.SetBitsAndWake` | freertos/src/event_groups.c:504-595 | one walk over the list, removing from it on the way, is SetBits; the clearing comes after the walk |
| `EventGroups.EventGroup.ClearEventBits` | freertos/src/event_groups.c:446-470 | the bits are cleared and the old word is returned |
| `EventGroups.EventGroup.WaitForBits` | freertos/src/event_groups.c:296-387 | the task returns at once, clearing if asked, or joins the list with its packed condition |
| `EventGroups.EventGroup.Rendezvous` | freertos/src/event_groups.c:176-241 | own bits are set, waking others; the task returns all bits and clears the set when complete, or blocks |
| `EventGroups.EventGroup.ResumeAfterTimeOut` | freertos/src/event_groups.c:400-431 | after a time-out bits that have come in the meantime still count and are cleared if asked |
| `EventBarrier.StepKeepsInv` | freertos/src/event_groups.c:176-293 | each call and each return keeps all tasks in one round |
| `EventBarrier.NobodyPassesEarly` | freertos/src/event_groups.c:176-293 | no task finishes round r before every task has entered round r, over every run |
| `EventBarrier.BarrierAtRest` | freertos/src/event_groups.c:504-595 | between calls the event bits are the union of the waiting tasks' bits, the list holds exactly those tasks, not all tasks wait, and whoever has passed was given all the bits |
| `EventBarrier.LastArrival` | freertos/src/event_groups.c:198-209 | the set is completed only when every other task is blocked |
| `ListSpec.PlaceIs` | freertos/src/list.c:103-167 | the place of a value is where all before are not above it and the next one is |
| `ListSpec.InsertionKeepsSorted` | freertos/src/list.c:103-167 | insertion there keeps a sorted list sorted |
| `ListSpec.InsertionIsStable` | freertos/src/list.c:103-167 | in a sorted list the new value goes after exactly those that are not above it, equal ones included |
| `ListSpec.RoundRobin` | freertos/inc/list.h:276-287 | on a fixed list of n items n walks return each once and leave the order of the next ones as it was |
| `ListSpec.UpcomingInsertEnd` | freertos/src/list.c:74-100 | an item added at the end comes after every other but the one the index rests on |
| `ListSpec.RemovalKeepsOrder` | freertos/src/list.c:170-196 | removal of any item, the one at the index included, leaves the order of the rest |
| `ListSpec.PlaceInTurn` | freertos/src/list.c:74-100 | a walk brings an item one nearer, a removal never puts it off, an addition puts it off exactly when the index rests on it |
| `ListSpec.ServedInTurn` | freertos/inc/list.h:276-287 | however walks, additions and removals of others mix, the item at place d is returned once there have been more walks than d and the additions made while the index rested on it |
| `ListSpec.RemovalThenAdditionOvertakes` | freertos/src/list.c:181-184 | the case in which a later item comes before one that was already waiting |
| `KernelLists.List.constructor` | freertos/src/list.c:37-59 | a new list is the end marker linked to itself, with the index on it |
| `KernelLists.List.FindPlace` | freertos/src/list.c:120-155 | the walk ends for every value, portMAX_DELAY included, at the place of that value |
| `KernelLists.List.Insert` | freertos/src/list.c:103-167 | the pointers stay mutually inverse, the container and the count exact, and the items and values are the old ones with the new at its place |
| `KernelLists.List.InsertEnd` | freertos/src/list.c:74-100 | the item is linked in just before the index, and comes last but for the indexed one |
| `KernelLists.List.NextEntry` | freertos/inc/list.h:276-287 | the index moves to the next item, past the end marker, and its owner is returned |
| `KernelLists.List.HeadOwner` | freertos/inc/list.h:306 | the owner of the first item |
| `KernelLists.List.Unlink` | freertos/src/list.c:170-196 | the neighbours are linked to each other and the index steps back off the item |
| `KernelLists.Remove` | freertos/src/list.c:170-196 | the item leaves the list that its container names, and the number left is returned |
| `CoRoutineSpec.InsertIsListInsert` | freertos/src/list.c:103-167 | insertion among the sleepers is the insertion of the pointer list, entry and value, at the place of the wake time |
| `CoRoutineSpec.WithoutIsListRemove` | freertos/src/list.c:170-196 | and taking out one that sleeps once is the removal of its item |
| `CoRoutineSpec.WakesAtItsTick` | freertos/src/croutine.c:220-275 | in a run of steps one delayed by d > 0 ticks and woken by no event wakes exactly once, at exactly the d-th later tick, whatever others do |
| `CoRoutineSpec.RousedIsNotWokenAgain` | freertos/src/croutine.c:197-217 | one that an event has woken is not woken again by the delay it was in |
| `CoRoutineSpec.ExpiredOf` | freertos/src/croutine.c:242-271 | a tick wakes exactly those whose time it is |
| `CoRoutineRuns.CallIsSteps` | freertos/src/croutine.c:159-275 | the time part of each call is at most one step of CoRoutineSpec: a sleep, the rousing of a pending co-routine, or a tick |
| `CoRoutineRuns.CallKeepsOk` | freertos/src/croutine.c:159-305 | creation, delay, event, taking one pending, one tick and the choice each keep every co-routine in exactly one place, the ready lists by priority and the sleepers in order and in the future |
| `CoRoutineRuns.ScheduleIsRun` | freertos/src/croutine.c:278-299 | a scheduling call is a run of such parts, with as many ticks as have passed |
| `CoRoutineRuns.EventWithinTick` | freertos/src/croutine.c:253-268 | an event within a tick is as one before it; if it is for the co-routine whose time has just come, the tick takes that one off the pending list and it becomes ready once |
| `CoRoutineRuns.EverybodyIsSomewhere` | freertos/src/croutine.c:159-305 | over every run from the start, events between the parts of a scheduling call included, each created co-routine is ready once or asleep once, never both, and only what is asleep is on an event list or pending |
| `CoRoutineRuns.DelayedWakesAtItsTick` | freertos/src/croutine.c:220-275 | over every run of calls after a delay of d > 0 ticks, with no event for it: before d ticks have passed it is asleep and has not woken, and after them its next wake was at exactly the d-th |
| `CoRoutineLaws.CreatedIsReady` | freertos/src/croutine.c:113-146 | a co-routine gets the priority asked for, or the highest if there is none such, and is ready behind the others there; the first becomes current; nobody else is touched |
| `CoRoutineLaws.DelayedSleeps` | freertos/src/croutine.c:165-193 | the one that delays itself sleeps until d ticks from now, the others as before, and joins an event list exactly if there is one |
| `CoRoutineLaws.DelayedLeaves` | freertos/src/croutine.c:170 | and it leaves its ready list, the others keeping their order |
| `CoRoutineLaws.TakenIsReady` | freertos/src/croutine.c:197-217 | the oldest pending co-routine is taken out of its delay and is ready behind the others of its priority |
| `CoRoutineLaws.WokenIsReady` | freertos/src/croutine.c:245-270 | one whose time has come leaves every event list and is ready behind the others of its priority |
| `CoRoutineLaws.EventsAreServedInOrder` | freertos/src/croutine.c:328-350 | another event changes nothing for the one that is taken first |
| `CoRoutineLaws.NextOfHighestRuns` | freertos/src/croutine.c:286-299 | of the highest priority with any ready co-routine the next in turn runs, and has its next turn after all the others there |
| `CoRoutineLaws.NobodyReadyNobodyRuns` | freertos/src/croutine.c:287-293 | with no ready co-routine nothing changes |
| `CoRoutines.PlacementIsExact` | freertos/src/croutine.c:163-187 | the wrapped wake time goes to the list whose cycle it lies in, which is insertion in unwrapped time; both lists keep their order and bounds |
| `CoRoutines.SwappedOutIsEmpty` | freertos/src/croutine.c:230-240 | the delayed list that is exchanged at the wrap is empty |
| `CoRoutines.ZeroDelayWakesNextTickExactly` | freertos/src/croutine.c:225-243 | a delay of 0 ends at the next tick if and only if that tick is not the one that wraps |
| `CoRoutines.Scheduler.constructor` | freertos/src/croutine.c:308-325 | the lists start empty and every co-routine in its place |
| `CoRoutines.Scheduler.AddToReadyQueue` | freertos/src/croutine.c:67-74 | the co-routine is added at the end of the list of its priority and no list above the top priority has any |
| `CoRoutines.Scheduler.AddToDelayedList` | freertos/src/croutine.c:159-187 | for every delay the wake time goes into the list that the comparison with the tick chooses; for a delay of at least 1 it is the unwrapped delay of the running co-routine, which leaves its ready list and joins the event list if there is one |
| `CoRoutines.Scheduler.WakeHead` | freertos/src/croutine.c:253-270 | the head of the delayed list leaves it and whatever event list it is on, and becomes ready |
| `CoRoutines.Scheduler.WakeExpired` | freertos/src/croutine.c:242-271 | everybody at the head of the current list whose time has come, and nobody else, becomes ready, in order |
| `CoRoutines.Scheduler.CountTick` | freertos/src/croutine.c:225-240 | the tick count goes on, the lists are exchanged at the wrap, and in unwrapped time only the clock moves |
| `CoRoutines.Scheduler.CheckDelayedList` | freertos/src/croutine.c:220-275 | as many unwrapped ticks pass as the kernel has counted since, modulo 2^32, each waking its own |
| `CoRoutines.Scheduler.RemoveFromEventList` | freertos/src/croutine.c:328-350 | the co-routine goes from the event list to the pending list, still asleep, and the interrupt is told whether its priority is at least the running one's |
| `CoRoutines.Scheduler.CheckPendingReadyList` | freertos/src/croutine.c:197-217 | those roused by events leave the delayed lists and become ready, in the order of their events |
| `CoRoutines.Scheduler.RunNext` | freertos/src/croutine.c:286-299 | of the highest priority with any ready co-routine the next in turn runs; none runs only when all ready lists are empty |
| `CoRoutines.Scheduler.Schedule` | freertos/src/croutine.c:278-305 | the events, then the passed ticks, then that choice: without interrupts, the scheduling call of the unwrapped scheduler, everybody in place again |
| `CoRoutines.Scheduler.Create` | freertos/src/croutine.c:102-155 | the co-routine becomes ready at its priority, an unknown one becoming the highest |
| `CoRoutines.PerformAll` | freertos/src/croutine.c:159-305 | over every sequence of calls and parts of scheduling calls, with interrupts between them, the scheduler, with its wrapped counter and two lists, goes through the states of the unwrapped run, everybody in place in each |

## Left out

- Mutexes, recursive mutexes and priority inheritance, which need the control blocks of `tasks.c`; `xQueueSemaphoreTake` and `xQueueGiveFromISR` on a counting semaphore are the receive and send of empty items.
- Queues.Queue.TrySend: the count is a natural number; the 32 bits of uxMessagesWaiting would wrap after 2^32 overwrites with empty items, nothing else taking it past the length.
- Queues.Queue.TrySendFromISR: the same.
- Queue sets, the queue registry, deletion, static allocation, trace hooks, MPU wrappers and co-routine variants of the queue calls.
- `xQueueGenericReset` of a queue in use: it wakes one sender only, so it does not keep the wake-up bounds.
- The choice of who runs next, yields and time-out bookkeeping: any task that may run can run, and a time-out can come at any moment.
- The position at which a task enters a queue's event list is any position: priorities are not modelled.
- QueueProtocol.WakeupsAreNeverLost: at most 127 interrupt operations of a kind on one lock, the exact condition under which the invariant is kept.
- Timer callbacks that send commands of their own within the step that calls them; a callback is an entry in the log, and commands come between steps. In particular StoppedIsSilent says nothing of a stop sent by the timer's own callback.
- TimerDaemon.Daemon.SendCommand: a command that finds the queue full is refused at once; waiting for room is what QueueProtocol is about.
- TimerDaemon.Daemon.QueueRestart: the restarts that the daemon queues for itself are assumed to find room, as its own assertions do (freertos/src/timers.c:484, freertos/src/timers.c:878).
- TimerDaemon.Daemon.ProcessReceivedCommand: one turn of the loop rather than the loop, and deleting a timer only takes it off its list; pended function calls are left out.
- TimerRuns.NoDriftNoLoss: the timer is inactive when the start is issued; NoDriftAfterReceipt covers a start of an active one, from its receipt.
- The heap's bytes other than block headers; the malloc-failed hook; the scheduler suspension around both calls makes each one step.
- Stream buffers: changes of the trigger level, reset, the ISR variants.
- StreamBuffers.StreamBuffer.Send: the call without a block time; waiting for space, with the other side running, is in StreamProtocol.
- StreamBuffers.StreamBuffer.Receive: the call without a block time; waiting for data, with the other side running, is in StreamProtocol.
- StreamProtocol.NobodySleepsInVain: stated where the other side is between calls, because the notification follows the publication.
- StreamBuffers.MessagesAreFifo: sequential calls only, because a read into too small a buffer publishes the tail and then takes it back.
- Event groups: EventBits_t is the set of the positions of its one bits, not a machine word; deletion and the deferred calls from interrupts.
- EventBarrier: every task calls xEventGroupSync without a time-out (portMAX_DELAY), as the documented use does (freertos/inc/event_groups.h:657-676); a time-out takes a task out of its round.
- Data integrity check bytes and memory barriers of the lists; an item given to an insertion must not be on the list already.
- Co-routines: which event list of which queue a co-routine waits on, and the order on it: an event may come for any that waits.
- CoRoutines.Scheduler.Schedule: a call without interrupts; PerformAll has its parts with interrupts between them, and EventWithinTick those within a tick.
- CoRoutines.Scheduler.AddToDelayedList: after a delay of 0 only the effect on the lists is stated, and CoRoutineRuns has delays of at least 1; ZeroDelayWakesNextTickExactly says what a delay of 0 does.
- The application under `nfc/`, `port.c` and assembly: glue without a model of its own.
