# Verified model of the Android POBICOS middleware

POBICOS ran on sensor nodes; this port runs it on Android phones that reach each other through an
Internet directory. The project models the port's own low-level services in Dafny and proves what
they promise, for all inputs, all runs and all interleavings.

Code that works in place is a class or a method with loops (arrays of records, a heap array, packet
buffers, descriptor objects, a registry list). Each such method is proved against a state machine
or function over values, and the guarantees are proved about those.

- **Runtime timers** (`TimerTable`, `TimerLiveness`, `TimerCatchUp`, `RuntimeTimers`). 128 software
  timers share one alarm over a 32-bit clock that wraps. The state machine writes a trace of starts,
  destroys and firings stamped with a clock that never wraps, and the guarantees are stated on that
  trace: no firing is early, no running timer is forgotten, catch-up is exact. Handlers are arbitrary
  sequences of calls back into the component; hardware firings may be stale or spurious.
- **Timer service** (`AlarmSchedule`, `AlarmReports`, `TimerServices`, `TimerSystem`). The Java service
  that schedules the alarm, what its getters report, and the composition with the runtime timers, in
  which an executor queues events that later cancellations do not recall.
- **Event queue** (`HeapOrder`, `EventHeap`, `QueueProtocol`, `SimEventQueue`). The growing array heap,
  and the mutex and semaphore protocol of many producers and one consumer as an interleaving of
  program counters, with an unlocked emptiness check and interruptible waits.
- **UART and upload** (`UartFraming`, `PillLoader`, `ConfigSettings`). Packets in reused buffers, the
  offset-driven upload, and the search for a setting.
- **Datagrams** (`VirtualFilter`, `Serialization`, `NetworkPackets`, `StreamFraming`, `MidFrame`,
  `DatagramPath`, `Reachability`, `DatagramRuns`). The address filter and hardware layer, the Java
  codecs, the frames, their readers under arbitrary fragmentation, what a part of a frame is read as,
  and the whole way from one node's filter through the directory to another's, for one datagram and for
  many.
- **Directory** (`DirectoryModel`, `Forwarding`, `DirectoryServer`, `RegistrationPath`). Registration,
  replies and forwarding, and a registration all the way from the client's request to what it learns.

## Where the code promises less

Several natural expectations are false of the code. Each is kept as it is, with a concrete failing
input or run where one is needed, and with the exact condition under which the code does meet it.

- A comment in the task (PoRuntimeSWTimersM.nc:62-65) supports intervals up to the largest `int32_t`.
  The strict comparison forgets that very interval (`LongestIntervalIsForgotten`, `ForgottenIff`);
  2^31-2 is the longest that is safe.
- An interval of 2^31 or more looks overdue to the task and not to `fireTimers`, and the task re-posts
  itself for nothing (`SpinsIff`).
- The drain does not end while a periodic timer has interval 0 (`DrainEndsIff`).
- The service schedules a start exactly only until its 32-bit clock wraps (`DueTimeIsExact`). After
  that the alarm fires at once; the table still signals nothing early (`SystemIsNeverEarly`).
- The service reports a one-shot as stopped when it is started again before its earlier event is
  dispatched (`RestartIsMisreported`), and only then (`MisreportsIff`). What it reports as running is
  always backed by a scheduled future or a queued event (`RunningIsBacked`).
- Events of equal time do not come out in the order in which they went in (`EqualTimesReorder`).
- The consumer can block while an event whose producer has posted is still queued
  (`PostedEventCanWait`). The guarantee counts posts and does not say which event they let through
  (`BlocksOnlyForPendingPost`): without interrupted waits a posted event waits exactly when some event
  was popped before its post (`PostedEventsWaitIff`, which also counts them).
- The indexed address decoder sign-extends its low byte (`CharAtRoundTripIff`); the directory routes by
  it and the receiver reports sources by it (`PlainTravel`).
- An empty payload shows the client the previous frame's buffer (`OwnPayloadIff`).
- A node of address 0xFFFF cannot broadcast: the hardware layer loops the message back to it
  (`LoopedBackIs`).
- A virtual message without a type byte of its own loses the type (`FooterKeepsTypeIff`).
- An upload error leaves the offset, so an upload loaded again misses the bytes sent before
  (`RestartAfterErrorIff`).
- The directory writes a datagram to each target once, without a loop, and out of one buffer whose
  position the writes share. A target gets it whole exactly when its socket takes it at once and no
  earlier one took a byte (`ServedWholeIff`, `EveryTargetServedIff`); a share cut short swallows what
  follows it on the stream (`ShortWriteSwallows`, `CutHeaderSwallows`, `PartSwallows`).
- A broadcast does not arrive whole or not at all: a later target's share starts mid-frame, and its
  node can be signalled a datagram that nobody sent (`ForgedBroadcast`). Only messages whose destination
  the directory reads as 0xFFFF are cut like that (`CutMidFrame`); a share of theirs carries nothing for
  every such message exactly when it starts at 0 or is shorter than `Room` says (`SilentIff`).
- A share cut short puts a node's stream out of step for the messages that follow
  (`CutPutsOutOfStep`); without one it reads exactly its own messages, in order
  (`OwnMessagesInOrder`, `FirstTargetsInOrder`).
- The directory assigns addresses from 1, and the gateway's address 0 only to the 65536th node. Until
  then a datagram for a virtual address reaches nobody (`GatewayAddressIsAssigned`,
  `VirtualReachesNobody`). Nodes whose own address lies in the virtual pool, or is not sign-safe and not
  taken for a broadcast, cannot be reached at it either (`OwnAddressReachesIff`).
- A broadcast is also written to the node registered as 0xFFFF before the loop, so that node gets it
  twice, or its own back (`BroadcastRepeats`, `BroadcastReachesOthersIff`).
- Expired nodes are refused but never removed, and a reconnecting node keeps its old socket
  (`ReconnectionIff`, `RunKeepsInv`).
- Addresses repeat after 65536 registrations (`AddressesDistinctIff`).

## Model

| member | source | states |
|---|---|---|
| TimerTable.FirstDue | middleware/androidPlatform/PoRuntimeSWTimersM.nc:32-56 | the scan stops at the lowest running slot whose wrapped elapsed time reaches its interval, and at no slot when none is due |
| TimerTable.MinRemaining | middleware/androidPlatform/PoRuntimeSWTimersM.nc:67-90 | the scan of the task keeps a lower bound of all running signed remainders, attained whenever the strict comparison ever set it |
| TimerTable.ElapsedNeverExceeds | middleware/androidPlatform/PoRuntimeSWTimersM.nc:38 | wrapped elapsed time is the true elapsed time modulo 2^32 and never exceeds it |
| TimerTable.ExpireKeepsInv | middleware/androidPlatform/PoRuntimeSWTimersM.nc:36-51 | a slot seen as due is truly past its deadline, and expiring it before `fired` moves it exactly one period on |
| TimerTable.FireTimersKeepsInv | middleware/androidPlatform/PoRuntimeSWTimersM.nc:28-58 | one firing, with any handler that calls back in, keeps table and trace consistent |
| TimerTable.HandleAppends | middleware/androidPlatform/PoRuntimeSWTimersM.nc:51 | a handler makes its calls one after the other, each on what the earlier ones left |
| TimerTable.StepKeepsInv | middleware/androidPlatform/PoRuntimeSWTimersM.nc:28-224 | every client call, hardware firing (stale or not) and task keeps table and trace consistent |
| TimerTable.RunIsNeverEarly | middleware/androidPlatform/PoRuntimeSWTimersM.nc:28-103 | over every run no firing in the trace precedes its true deadline, across any number of clock wraps |
| TimerTable.PeriodicNeverDrifts | middleware/androidPlatform/PoRuntimeSWTimersM.nc:42-49 | in every reachable state running implies created, and `t0` is (start + count*dt) mod 2^32 however late firings were serviced |
| TimerTable.FiredOnTime | middleware/androidPlatform/PoRuntimeSWTimersM.nc:36-53 | every `fired` belongs to a start not destroyed since, is its (k+1)-th signal, and comes at start + (k+1)*dt or later, with k = 0 for a one-shot |
| TimerTable.CreateHandsOutLeast | middleware/androidPlatform/PoRuntimeSWTimersM.nc:123-155 | in every reachable state a creation hands out the least timer that was not handed out, or was destroyed since, and fails exactly when all 128 are held; starting or destroying a timer that is not held does nothing |
| TimerTable.CreatedInOrder | middleware/androidPlatform/PoRuntimeSWTimersM.nc:105-137 | from start-up the first 128 creations hand out the ids 0 to 127 in order, and every later one fails |
| TimerLiveness.SignedTestAgrees | middleware/androidPlatform/PoRuntimeSWTimersM.nc:80-97 | the signed test of the task and the unsigned test of `fireTimers` agree exactly on differences that fit 32 signed bits |
| TimerLiveness.RemainingIsExact | middleware/androidPlatform/PoRuntimeSWTimersM.nc:80-81 | the computed remainder is the true time to the deadline exactly when that fits 32 signed bits |
| TimerLiveness.LateIsDue | middleware/androidPlatform/PoRuntimeSWTimersM.nc:36-40 | within the lateness bound a slot is due exactly when its unwrapped deadline has passed |
| TimerLiveness.TimeLeftIsExact | middleware/androidPlatform/PoRuntimeSWTimersM.nc:191-219 | `getTimeLeft` succeeds on exactly the running timers; however late one is it reports the true remainder read as 32 signed bits or 0, which is max(0, deadline - now) exactly when a timer on time has at most 2^31-1 left and a late one reads as late |
| TimerLiveness.UpdateCovers | middleware/androidPlatform/PoRuntimeSWTimersM.nc:60-103 | after the task either it is re-posted (exactly when a slot was due), or nothing runs, or the alarm is armed for the minimum deadline |
| TimerLiveness.ApplyKeepsCovered | middleware/androidPlatform/PoRuntimeSWTimersM.nc:123-189 | no client call leaves a running timer without a coming service |
| TimerLiveness.StepKeepsShort | middleware/androidPlatform/PoRuntimeSWTimersM.nc:157-189 | if clients ask for at most 2^31-2, no interval in the table is longer |
| TimerLiveness.StepKeepsCovered | middleware/androidPlatform/PoRuntimeSWTimersM.nc:60-103 | every step keeps the coming service of all running timers, given punctual task runs |
| TimerLiveness.RunNeverForgets | middleware/androidPlatform/PoRuntimeSWTimersM.nc:60-103 | over every punctual run with intervals of at most 2^31-2 no running timer is ever forgotten |
| TimerLiveness.ForgottenIff | middleware/androidPlatform/PoRuntimeSWTimersM.nc:67-88 | with intervals up to 2^31-1 timers are forgotten exactly when each running one has all of 2^31-1 left |
| TimerLiveness.LongestIntervalIsForgotten | middleware/androidPlatform/PoRuntimeSWTimersM.nc:67-88 | a client that starts one timer for 2^31-1 loses it: running, nothing posted, no alarm |
| TimerLiveness.SpinsIff | middleware/androidPlatform/PoRuntimeSWTimersM.nc:80-97 | the task re-posts itself without signalling anything exactly when no slot is due and some running slot has 2^31 or more left |
| TimerLiveness.TooLongIntervalSpins | middleware/androidPlatform/PoRuntimeSWTimersM.nc:92-102 | a timer just started for 2^31 or more makes the task re-post without signalling when no slot is due |
| TimerCatchUp.FiringSettles | middleware/androidPlatform/PoRuntimeSWTimersM.nc:42-49 | one firing reduces what a timer is owed by one and leaves where it settles unchanged |
| TimerCatchUp.FindsWhatIsOwed | middleware/androidPlatform/PoRuntimeSWTimersM.nc:32-56 | `fireTimers` finds a slot exactly when some timer is owed a firing |
| TimerCatchUp.PassiveUpdate | middleware/androidPlatform/PoRuntimeSWTimersM.nc:60-103 | with the clock held and passive handlers the task signals the lowest due slot once and re-posts, or changes no timer and covers every deadline |
| TimerCatchUp.DrainIsExact | middleware/androidPlatform/RealMainP.nc:360 | draining the task signals each running one-shot once if it is due and not otherwise, each running periodic timer floor(elapsed/dt) times and no other, then idles or arms the alarm |
| TimerCatchUp.DrainEndsIff | middleware/androidPlatform/PoRuntimeSWTimersM.nc:92-98 | the drain ends exactly when no running periodic timer has interval 0 |
| RuntimeTimers.RuntimeTimersM.constructor | middleware/androidPlatform/PoRuntimeSWTimersM.nc:105-116 | all 128 slots start neither created nor running, with nothing posted and no alarm, which meets the invariant |
| RuntimeTimers.RuntimeTimersM.Create | middleware/androidPlatform/PoRuntimeSWTimersM.nc:123-137 | hands out the lowest slot not created, or fails when there is none |
| RuntimeTimers.RuntimeTimersM.Destroy | middleware/androidPlatform/PoRuntimeSWTimersM.nc:139-155 | clears exactly one created slot, and fails on the others and out of range |
| RuntimeTimers.RuntimeTimersM.Start | middleware/androidPlatform/PoRuntimeSWTimersM.nc:157-189 | starts a created slot at the current clock, one-shot or periodic, and posts the task; fails otherwise |
| RuntimeTimers.RuntimeTimersM.TimeLeft | middleware/androidPlatform/PoRuntimeSWTimersM.nc:191-219 | computes what `TimeLeftIsExact` characterises |
| RuntimeTimers.RuntimeTimersM.RunHandler | middleware/androidPlatform/PoRuntimeSWTimersM.nc:51 | a handler is any sequence of calls back into the component, with time passing between them |
| RuntimeTimers.RuntimeTimersM.FireTimers | middleware/androidPlatform/PoRuntimeSWTimersM.nc:28-58 | the in-place scan is the firing step of the state machine |
| RuntimeTimers.RuntimeTimersM.ScanRemaining | middleware/androidPlatform/PoRuntimeSWTimersM.nc:67-90 | the loop computes the minimum remainder and whether it was ever set |
| RuntimeTimers.RuntimeTimersM.UpdateFromTimer | middleware/androidPlatform/PoRuntimeSWTimersM.nc:60-103 | the in-place task is the update step of the state machine |
| RuntimeTimers.RuntimeTimersM.TimerMilliFired | middleware/androidPlatform/PoRuntimeSWTimersM.nc:221-224 | the hardware event samples the clock and fires |
| RuntimeTimers.RuntimeTimersM.CompleteTasks | middleware/androidPlatform/RealMainP.nc:341-362 | with the clock held and handlers that call nothing back, the drain loop ends, and when it does every timer was signalled exactly as often as it was owed |
| AlarmSchedule.DueTimeIsExact | PoClient/src/org/lekkas/poclient/PoAPI/TimerService.java:128-137 | a start is never scheduled late, and is scheduled for max(now, t0+dt) exactly until the 32-bit clock wraps or when already overdue |
| AlarmSchedule.OnePendingPerTimer | PoClient/src/org/lekkas/poclient/PoAPI/TimerService.java:139-164 | at most one scheduled task per timer id |
| AlarmSchedule.StartKeepsInv | PoClient/src/org/lekkas/poclient/PoAPI/TimerService.java:123-166 | a start leaves one descriptor for its id, cancels the task it had, and schedules one new task |
| AlarmSchedule.StopKeepsInv | PoClient/src/org/lekkas/poclient/PoAPI/TimerService.java:200-206 | a stop leaves its timer without a scheduled task and touches no other timer's |
| AlarmSchedule.RunTaskKeepsInv | PoClient/src/org/lekkas/poclient/PoAPI/TimerService.java:28-37 | a task that runs queues an event for a known timer |
| AlarmSchedule.DispatchKeepsInv | PoClient/src/org/lekkas/poclient/PoAPI/TimerService.java:106-117 | a dispatched event always finds its descriptor, and schedules and cancels nothing |
| AlarmReports.SchedulingIs | PoClient/src/org/lekkas/poclient/PoAPI/TimerService.java:139-164 | a start schedules one future, at t0+dt or now when that has passed, repeated every dt unless a one-shot, and leaves no earlier one of that timer scheduled and the others alone |
| AlarmReports.ExecutionIs | PoClient/src/org/lekkas/poclient/PoAPI/TimerService.java:28-37 | a future runs at its time or later and queues one event; a one-shot's never runs again, a periodic one stays scheduled exactly one period after it was due |
| AlarmReports.ReportsAfter | PoClient/src/org/lekkas/poclient/PoAPI/TimerService.java:106-206 | what each call, event and passing of time does to the four getters of every timer |
| AlarmReports.RunningIsBacked | PoClient/src/org/lekkas/poclient/PoAPI/TimerService.java:106-192 | over every run a timer reported as running has a scheduled future, or its one-shot event is queued |
| AlarmReports.MisreportsIff | PoClient/src/org/lekkas/poclient/PoAPI/TimerService.java:106-117 | timers with a scheduled future are reported as running until exactly the dispatch of an event of a one-shot that was started again since |
| AlarmReports.RestartIsMisreported | PoClient/src/org/lekkas/poclient/PoAPI/TimerService.java:106-166 | the failing input, in any reachable state with a queued event: a one-shot started before that event is dispatched is then reported as stopped |
| TimerServices.TimerService.FindTimer | PoClient/src/org/lekkas/poclient/PoAPI/TimerService.java:99-104 | finds the first descriptor with the id, or null |
| TimerServices.TimerService.Describe | PoClient/src/org/lekkas/poclient/PoAPI/TimerService.java:139-152 | updates the one descriptor of an id in place, or adds it, leaving the others alone |
| TimerServices.TimerService.Reschedule | PoClient/src/org/lekkas/poclient/PoAPI/TimerService.java:139-164 | the imperative half of a start: descriptor, cancellation and new future |
| TimerServices.TimerService.StartTimer | PoClient/src/org/lekkas/poclient/PoAPI/TimerService.java:123-166 | the imperative start is the start step of the schedule |
| TimerServices.TimerService.StopTimer | PoClient/src/org/lekkas/poclient/PoAPI/TimerService.java:200-206 | the imperative stop is the stop step of the schedule |
| TimerServices.TimerService.FireTimer | PoClient/src/org/lekkas/poclient/PoAPI/TimerService.java:106-117 | takes the oldest event and marks a one-shot stopped or a periodic timer restarted |
| TimerServices.TimerService.IsRunning | PoClient/src/org/lekkas/poclient/PoAPI/TimerService.java:186-192 | answers for the first descriptor of the id, or false |
| TimerServices.TimerService.GetT0 | PoClient/src/org/lekkas/poclient/PoAPI/TimerService.java:171-177 | the start of the first descriptor of the id, or 0 |
| TimerServices.TimerService.GetDt | PoClient/src/org/lekkas/poclient/PoAPI/TimerService.java:179-185 | the interval of the first descriptor of the id, or 0 |
| TimerServices.TimerService.IsOneShot | PoClient/src/org/lekkas/poclient/PoAPI/TimerService.java:193-199 | whether the first descriptor of the id is a one-shot, or false |
| TimerSystem.ArmingIsBacked | middleware/androidPlatform/PoRuntimeSWTimersM.nc:71-101 | stopping and re-arming the alarm leaves exactly one scheduled task, due no later than the table asked for or already due |
| TimerSystem.StepKeepsInv | middleware/androidPlatform/PoRuntimeSWTimersM.nc:28-103 | every step of table and service together keeps what the table believes armed backed by a scheduled task or a queued event |
| TimerSystem.TaskNeedsPosting | middleware/androidPlatform/PoRuntimeSWTimersM.nc:60-64 | a task that is not posted does not run and changes nothing |
| TimerSystem.SystemIsNeverEarly | PoClient/src/org/lekkas/poclient/PoAPI/TimerService.java:106-166 | over every run of table and service, stale events and cancellations included, no timer is signalled early |
| TimerSystem.SystemNeverForgets | middleware/androidPlatform/PoRuntimeSWTimersM.nc:60-103 | over every punctual run the task is posted, or nothing runs, or a firing is queued, or one is scheduled by every running deadline |
| TimerSystem.QueuedAlarmPosts | PoClient/src/org/lekkas/poclient/PoAPI/TimerService.java:106-117 | a queued alarm is served: the dispatches up to it, with any handlers, leave the task posted |
| TimerSystem.DueAlarmPosts | PoClient/src/org/lekkas/poclient/PoAPI/TimerService.java:28-117 | a scheduled alarm that is due is served: executor, then the dispatches of all that waits, leave the task posted |
| TimerSystem.SystemFromStart | PoClient/src/org/lekkas/poclient/PoAPI/TimerService.java:28-206 | the three guarantees from start-up: never early, one task per id, never forgotten |
| HeapOrder.SiftUpRestores | middleware/androidPlatform/out/heap.c:186-198 | sifting up a new entry restores heap order |
| HeapOrder.SiftDownRestores | middleware/androidPlatform/out/heap.c:160-184 | sifting down restores heap order, including the only-left-child branch that does not recurse |
| HeapOrder.SiftUpKeepsBag | middleware/androidPlatform/out/heap.c:186-198 | sifting up permutes the entries |
| HeapOrder.SiftDownKeepsBag | middleware/androidPlatform/out/heap.c:160-184 | sifting down permutes the entries |
| HeapOrder.RootIsLeast | middleware/androidPlatform/out/heap.c:85-101 | the root has the least key |
| HeapOrder.InsertAddsOne | middleware/androidPlatform/out/heap.c:133-145 | an insertion adds exactly its (key, data) pair to the bag |
| HeapOrder.PopRemovesRoot | middleware/androidPlatform/out/heap.c:103-117 | a pop removes exactly the returned pair from the bag |
| HeapOrder.InsertKeepsHeap | middleware/androidPlatform/out/heap.c:133-145 | an insertion, sifted up before the size grows, keeps heap order |
| HeapOrder.PopKeepsHeap | middleware/androidPlatform/out/heap.c:103-117 | a pop keeps heap order and returns a pair of least key |
| HeapOrder.UpSwapsBound | middleware/androidPlatform/out/heap.c:186-198 | an insertion swaps at most floor(log2(size)) times |
| HeapOrder.DownSwapsBound | middleware/androidPlatform/out/heap.c:160-184 | a pop swaps at most floor(log2(size)) times |
| HeapOrder.HeapRefinesBag | middleware/androidPlatform/out/heap.c:103-145 | over every operation sequence the heap behaves as a bag that serves some entry of least key |
| HeapOrder.InsertThenPopSorts | middleware/androidPlatform/out/heap.c:103-145 | inserting any entries and popping until empty yields a permutation with non-decreasing keys |
| HeapOrder.EqualTimesReorder | middleware/androidPlatform/out/heap.c:103-145 | events of equal time are not served in the order of insertion: four inserted in a row come out first, fourth, third, second |
| HeapOrder.RightChildOnTie | middleware/androidPlatform/out/heap.c:160-184 | of two equal children below a greater entry the right one moves up |
| EventHeap.Heap.constructor | middleware/androidPlatform/out/heap.c:67-71 | an empty heap of capacity 511 |
| EventHeap.Heap.GetMinKey | middleware/androidPlatform/out/heap.c:85-92 | the least key, or -1 when empty |
| EventHeap.Heap.PeekMinData | middleware/androidPlatform/out/heap.c:94-101 | the event of least key, or none when empty |
| EventHeap.Heap.Swap | middleware/androidPlatform/out/heap.c:147-158 | exchanges two entries, key and data |
| EventHeap.Heap.UpHeap | middleware/androidPlatform/out/heap.c:186-198 | the in-place recursion is the sift up |
| EventHeap.Heap.DownHeap | middleware/androidPlatform/out/heap.c:160-184 | the in-place recursion is the sift down of the live part, and leaves the rest alone |
| EventHeap.Heap.Expand | middleware/androidPlatform/out/heap.c:119-131 | growth doubles the capacity plus one and keeps every entry in place; after k expansions it is 2^(9+k)-1 |
| EventHeap.Heap.Append | middleware/androidPlatform/out/heap.c:139-144 | writes past the end, sifts up, then counts the entry |
| EventHeap.Heap.Insert | middleware/androidPlatform/out/heap.c:133-145 | keeps order, bounds and capacity, adds exactly the pair, and grows only a full array |
| EventHeap.Heap.TakeRoot | middleware/androidPlatform/out/heap.c:103-116 | moves the last entry to the root, shrinks, then sifts down |
| EventHeap.Heap.PopMinData | middleware/androidPlatform/out/heap.c:103-117 | keeps order, bounds and capacity, and removes and returns a pair of least key |
| QueueProtocol.ProducerKeepsInv | middleware/androidPlatform/out/sim_event_queue.c:90-112 | lock, insert, unlock and post keep the accounting |
| QueueProtocol.ConsumerKeepsInv | middleware/androidPlatform/out/nativepc.c:138-153 | wait, unlocked check, lock, pop and unlock keep the accounting |
| QueueProtocol.ConsumerKeepsOrder | middleware/androidPlatform/out/nativepc.c:150-166 | the event dispatched is the one in hand, which is the last one popped |
| QueueProtocol.PerformKeepsInv | middleware/androidPlatform/out/nativepc.c:138-153 | every step keeps the accounting and mutual exclusion, and never pops an empty heap |
| QueueProtocol.RunKeepsAccounts | middleware/androidPlatform/out/nativepc.c:134-166 | over every interleaving: size <= semaphore + inserts not posted + waits not used, with equality without interrupts; empty wake-ups that took a unit never outnumber pops made without one; no event is lost or duplicated; and the events dispatched are those popped, once each and in order, but for one in hand |
| QueueProtocol.BlocksOnlyForPendingPost | middleware/androidPlatform/out/nativepc.c:134-145 | a blocked consumer with a non-empty queue means a producer between insert and post, and without interrupts exactly that |
| QueueProtocol.PostedEventsWaitIff | middleware/androidPlatform/out/nativepc.c:134-153 | over every run, a blocked consumer leaves as many posted events queued as were popped before their post, less the pops an interrupted wait allowed; without interrupts one waits exactly when some event was popped before its post |
| QueueProtocol.PopsLeast | middleware/androidPlatform/out/sim_event_queue.c:120-123 | the event popped is of least time among those queued |
| QueueProtocol.WaitingIs | middleware/androidPlatform/out/nativepc.c:134-145 | a wait takes a unit or returns early without one, and either way the consumer then looks at the queue |
| QueueProtocol.InsertsAlone | middleware/androidPlatform/out/sim_event_queue.c:90-112 | an undisturbed insert queues exactly its event and leaves the mutex free |
| QueueProtocol.ConsumesAlone | middleware/androidPlatform/out/nativepc.c:127-153 | an undisturbed consumer with a unit to take pops the root and waits again |
| QueueProtocol.PostedEventCanWait | middleware/androidPlatform/out/nativepc.c:134-153 | for any two events, a run in which the later one stays queued after its post behind a blocked consumer, because the earlier one was popped before its own post |
| SimEventQueue.EventQueue.constructor | middleware/androidPlatform/out/sim_event_queue.c:64-66 | an empty queue, a free mutex and a semaphore at 0 |
| SimEventQueue.EventQueue.AdvanceProducer | middleware/androidPlatform/out/sim_event_queue.c:97-109 | each statement of an insert, on the array heap, is the matching protocol step |
| SimEventQueue.EventQueue.PopEvent | middleware/androidPlatform/out/sim_event_queue.c:120-123 | pops the array heap inside the lock |
| SimEventQueue.EventQueue.AdvanceConsumer | middleware/androidPlatform/out/nativepc.c:144-153 | each later statement of the consumer is the matching protocol step; it fails only on the empty check |
| SimEventQueue.EventQueue.Execute | middleware/androidPlatform/out/nativepc.c:134-153 | every interleaving of the threads runs on the array heap without popping an empty one, and ends in the state of the protocol's run |
| Serialization.CharOfIs | PoClient/src/org/lekkas/poclient/Serialization.java:27-29 | the unindexed decoder joins both bytes unsigned |
| Serialization.CharAtIs | PoClient/src/org/lekkas/poclient/Serialization.java:36-38 | the indexed decoder replaces the high byte by 0xFF when the low byte is negative |
| Serialization.IntOfIs | PoClient/src/org/lekkas/poclient/Serialization.java:30-35 | the four-byte decoder is big-endian two's complement |
| Serialization.OrOctetIsBitOr | PoClient/src/org/lekkas/poclient/Serialization.java:27-38 | the model of `|` on octets is the bitwise or on all of them |
| Serialization.CharRoundTrip | PoClient/src/org/lekkas/poclient/Serialization.java:27-29 | every address survives the unindexed decoder |
| Serialization.CharAtRoundTripIff | PoClient/src/org/lekkas/poclient/Serialization.java:36-38 | an address survives the indexed decoder exactly when its low byte is below 128 or its high byte is 0xFF |
| Serialization.IntRoundTrip | PoClient/src/org/lekkas/poclient/Serialization.java:30-35 | every seed survives |
| NetworkPackets.Unwrapped | PoClient/src/org/lekkas/poclient/PoAPI/NetworkService.java:31-43 | unwrapping fails exactly on a payload shorter than it claims or of negative length |
| NetworkPackets.SendPacket | PoClient/src/org/lekkas/poclient/PoAPI/NetworkService.java:45-67 | wraps addresses, length and the claimed bytes in that order, and throws exactly on a payload shorter than it claims or a negative length |
| NetworkPackets.ReceivedPacket | PoClient/src/org/lekkas/poclient/PoAPI/NetworkService.java:31-43 | unwraps addresses and the claimed number of bytes, or throws |
| NetworkPackets.BuildFrame | PoClient/src/org/lekkas/poclient/PoCommMgrWriteTask.java:80-102 | the frame is type, length byte, payload and, for datagrams only, the 18-byte trailer; it throws exactly when the payload is longer than its length byte says, and ends in zeros when it is shorter |
| NetworkPackets.WriteAll | PoClient/src/org/lekkas/poclient/PoCommMgrWriteTask.java:105-106 | whatever each socket write accepts, the bytes go out once each and in order |
| NetworkPackets.LengthByteIff | PoClient/src/org/lekkas/poclient/PoCommMgrWriteTask.java:80-93 | the length byte is right exactly when payload and trailer are below 256 bytes |
| NetworkPackets.DatagramSurvives | PoClient/src/org/lekkas/poclient/PoAPI/NetworkService.java:31-67 | bytes and length survive wrapping and unwrapping, each address exactly when sign-safe, whatever trailer follows |
| NetworkPackets.DatagramFrameEndsInTrailer | PoClient/src/org/lekkas/poclient/PoCommMgrWriteTask.java:91-101 | the frame of a datagram is header, wrapped datagram and trailer |
| NetworkPackets.DirectoryReadsTheCoordinates | directory/src/org/lekkas/PoDirectory/RequestHandler.java:227-228 | the directory reads the coordinates the writer put, latitude 16 and longitude 8 bytes before the end |
| NetworkPackets.DirectoryReadsTheRadius | directory/src/org/lekkas/PoDirectory/RequestHandler.java:226 | the directory reads the radius the writer put |
| NetworkPackets.RadiusIsBigEndian | directory/src/org/lekkas/PoDirectory/RequestHandler.java:226 | the radius is the two bytes 18 before the end, most significant first |
| NetworkPackets.DirectoryReadsTheDestination | directory/src/org/lekkas/PoDirectory/RequestHandler.java:253 | the directory reads the destination the wrapper put, as the sign-extending decoder reads it |
| StreamFraming.ParseInverts | PoClient/src/org/lekkas/poclient/PoConnMgrReadTask.java:71-100 | parsing the concatenation of any frames gives back exactly those frames and leaves an incomplete rest |
| StreamFraming.WholeFramesEncode | PoClient/src/org/lekkas/poclient/PoConnMgrReadTask.java:71-100 | bytes that parse without rest are the encoding of what was parsed |
| StreamFraming.FramedIsOneFrame | PoClient/src/org/lekkas/poclient/PoCommMgrWriteTask.java:88-101 | the writer's bytes are exactly one frame of the stream, and parse as that frame exactly when the length fits its byte |
| StreamFraming.OwnPayloadIff | PoClient/src/org/lekkas/poclient/PoConnMgrReadTask.java:88-100 | the client acts on a frame's own payload exactly when it is not empty |
| StreamFraming.EndsIff | PoClient/src/org/lekkas/poclient/PoConnMgrReadTask.java:103-128 | the reader ends exactly at a refusal, a datagram or welcome before any payload, or a welcome that shows fewer than six bytes |
| StreamFraming.Stream.Fill | PoClient/src/org/lekkas/poclient/PoConnMgrReadTask.java:79-83 | the accumulating loop fills its buffer from any reads, or the connection ended |
| StreamFraming.ReadTask.ReadFrame | PoClient/src/org/lekkas/poclient/PoConnMgrReadTask.java:71-140 | one pass takes nothing, an incomplete rest, or exactly one frame that it acts on |
| StreamFraming.ReadTask.Run | PoClient/src/org/lekkas/poclient/PoConnMgrReadTask.java:46-171 | for any fragmentation the client acts on exactly the parsed frames, in order, up to one that ends its thread |
| StreamFraming.ClientReceives | PoClient/src/org/lekkas/poclient/PoConnMgrReadTask.java:71-100 | frames cut up in any way reach the client exactly once each, in order, with their own payloads |
| StreamFraming.NothingEnds | PoClient/src/org/lekkas/poclient/PoConnMgrReadTask.java:116-121 | a client of plain frames never stops before the stream does |
| StreamFraming.ReadRequest | directory/src/org/lekkas/PoDirectory/RequestHandler.java:62-107 | one read takes nothing, an incomplete rest, or exactly one frame |
| StreamFraming.ReadPayload | directory/src/org/lekkas/PoDirectory/RequestHandler.java:89-100 | the extra read into the full header takes nothing |
| StreamFraming.ServeRequests | directory/src/org/lekkas/PoDirectory/RequestHandler.java:46-107 | the directory sees exactly the parsed frames |
| StreamFraming.DirectoryReceives | directory/src/org/lekkas/PoDirectory/RequestHandler.java:62-107 | frames cut up in any way, empty payloads included, reach the directory exactly once each, in order |
| VirtualFilter.FooterKeepsTypeIff | middleware/androidPlatform/zigbee/PoCommVirtualFilterM.nc:42-52 | the type is recognised as virtual exactly for the three plain types; an empty message loses it to the footer |
| VirtualFilter.FooterIs | middleware/androidPlatform/zigbee/PoCommVirtualFilterM.nc:42-56 | the type byte moved up by 3 modulo 256, then the message's own bytes, then source and destination, most significant bytes first |
| VirtualFilter.ArrivesAsIs | middleware/androidPlatform/zigbee/PoCommVirtualFilterM.nc:71-106 | an arrival is passed on unchanged when it is over 55 bytes, neither from nor at the gateway, or not of a virtual type; the footer is read before the buffer exactly for the others below 4 bytes |
| VirtualFilter.UnwrapInverts | middleware/androidPlatform/zigbee/PoCommVirtualFilterM.nc:74-104 | the gateway's filter takes off exactly the footer that sending put on, or drops for another destination |
| VirtualFilter.FilterRoundTrip | middleware/androidPlatform/zigbee/PoCommVirtualFilterM.nc:20-107 | in every case of sender and receiver: restored exactly when link sender or receiver is the gateway and the footer names the receiver or everybody |
| VirtualFilter.FilterOutputFits | middleware/androidPlatform/zigbee/PoHWCommM.nc:63-71 | nothing the filter passes down is rejected as too large below, and the filter rejects exactly above 51 bytes |
| VirtualFilter.HwRoundTrip | middleware/androidPlatform/zigbee/PoHWCommM.nc:63-180 | a message is handed down exactly when it has at most 55 bytes and is for another node, and is then received with the same bytes and length by exactly the nodes its 16-bit destination names; one for the own address comes back unchanged with that source; a longer one is refused |
| VirtualFilter.ReceivesIff | middleware/androidPlatform/zigbee/PoHWCommM.nc:161-180 | a node takes exactly the datagrams of at most 60 bytes for its address or everybody, with all their bytes |
| VirtualFilter.LoopedBackIs | middleware/androidPlatform/zigbee/PoHWCommM.nc:72-75 | which messages never leave the node and what its filter signals of them: its own plain address unchanged, the gateway's virtual ones restored or dropped, and the broadcasts of node 0xFFFF with their footer |
| VirtualFilter.Filter.SendMsg | middleware/androidPlatform/zigbee/PoCommVirtualFilterM.nc:20-62 | looks up its address once, checks the length, appends the footer to a copy, and redirects virtual destinations to the gateway |
| VirtualFilter.Filter.MsgArrived | middleware/androidPlatform/zigbee/PoCommVirtualFilterM.nc:69-107 | rewrites type and length in place, and drops, delivers or (below 4 bytes) reads out of bounds |
| VirtualFilter.HwComm.SendMsg | middleware/androidPlatform/zigbee/PoHWCommM.nc:63-105 | checks state and length, loops back its own address, or hands bytes and 16-bit addresses to Java |
| VirtualFilter.HwComm.NativeReceivedPacket | middleware/androidPlatform/zigbee/PoHWCommM.nc:161-180 | accepts a datagram for itself or everybody of at most 60 bytes, whatever the local buffer held |
| VirtualFilter.CommStack.Join | middleware/androidPlatform/zigbee/PoHWCommC.nc:11-20 | joining makes filter and hardware layer agree on the address |
| VirtualFilter.CommStack.Send | middleware/androidPlatform/zigbee/PoHWCommC.nc:11-20 | the two layers together: refused as not started exactly before joining, and what the filter passes down is never too large below |
| MidFrame.ArrivesWholeIff | PoClient/src/org/lekkas/poclient/PoConnMgrReadTask.java:71-100 | the bytes on a node's stream are one message and nothing else exactly when they are its whole frame |
| MidFrame.ShortWriteSwallows | directory/src/org/lekkas/PoDirectory/RequestHandler.java:264-270 | after a write cut short the node gets nothing until the missing number of bytes has followed, which it takes from whatever comes next; it gets the message sent exactly when those are the missing bytes |
| MidFrame.CutHeaderSwallows | directory/src/org/lekkas/PoDirectory/RequestHandler.java:264-270 | cut after its first byte, a frame takes its length from the kind of the next frame |
| MidFrame.PartSwallows | directory/src/org/lekkas/PoDirectory/RequestHandler.java:277-301 | a stream that starts with any part of a frame, mid-frame included: what is left after the frames it holds swallows the bytes it misses from what comes next, and the reader is in step when nothing is left |
| MidFrame.EndedSawAll | PoClient/src/org/lekkas/poclient/PoConnMgrReadTask.java:116-135 | a reader that a frame ended has handed over all that its stream carries |
| MidFrame.SilentPart | directory/src/org/lekkas/PoDirectory/RequestHandler.java:277-301 | a part of any frame that starts at 0 or is shorter than `AnyRoom` hands over no datagram, whatever the destination |
| MidFrame.SilentBroadcast | directory/src/org/lekkas/PoDirectory/RequestHandler.java:277-301 | a part of a broadcast's frame that starts at 0 or is shorter than `Room` hands over no datagram; from byte 4 none is ever long enough |
| MidFrame.CulpritForges | directory/src/org/lekkas/PoDirectory/RequestHandler.java:277-301 | for every other part there is a broadcast of that length such that the client hands over a datagram from that part alone |
| MidFrame.SilentIff | directory/src/org/lekkas/PoDirectory/RequestHandler.java:277-301 | sharp, on the messages that the directory cuts mid-frame: a part other than the whole carries nothing for every broadcast of that length, sender and location exactly when it starts at 0 or is shorter than `Room` |
| MidFrame.FrameCarries | PoClient/src/org/lekkas/poclient/PoAPI/NetworkService.java:31-67 | a whole frame carries bytes and length always and each address exactly when sign-safe; a silent part of it carries nothing |
| DatagramPath.WholeInboxIff | directory/src/org/lekkas/PoDirectory/RequestHandler.java:252-301 | a node's bytes are exactly the message sent exactly when, until the frame is used up, only its own socket takes any bytes |
| DatagramPath.ShareIsSlice | directory/src/org/lekkas/PoDirectory/RequestHandler.java:277-301 | a node written to once gets the bytes between two positions of the shared buffer, which start mid-frame only for a destination read as 0xFFFF; other than the whole, they carry nothing for every such message of that length exactly when silent |
| DatagramPath.CutMidFrame | directory/src/org/lekkas/PoDirectory/RequestHandler.java:252-301 | a write starts mid-frame only when the directory reads the destination as the broadcast one |
| DatagramPath.UnicastInbox | directory/src/org/lekkas/PoDirectory/RequestHandler.java:252-271 | a datagram not read as a broadcast reaches a node whole exactly when that is the first node of the decoded address, the location allows it and its socket takes the frame in one write; any other share of that node is cut short, and other nodes get no byte |
| DatagramPath.LandsAsSent | middleware/androidPlatform/zigbee/PoHWCommM.nc:161-180 | what the receiver's filter makes of a landed message is what it makes of the one sent |
| DatagramPath.SignalsAppend | middleware/androidPlatform/zigbee/PoCommVirtualFilterM.nc:69-107 | every datagram handed up to the filter is looked at, in order |
| DatagramPath.PlainArrives | middleware/androidPlatform/zigbee/PoCommVirtualFilterM.nc:60-61 | from filter to filter through the directory: a plain datagram is signalled once, byte for byte, at a node that gets the whole frame and has the decoded address (or it decodes to the broadcast one), and nothing is signalled of a silent share |
| DatagramPath.PlainTravel | middleware/androidPlatform/zigbee/PoCommVirtualFilterM.nc:60-61 | from filter to filter through the directory: a plain datagram arrives at a registered node exactly when that is the first of the decoded address, the location allows it and its socket takes the frame in one write |
| DatagramPath.VirtualInbox | middleware/androidPlatform/zigbee/PoCommVirtualFilterM.nc:37-57 | for a virtual address a node gets the whole frame exactly when it is the first registered with the gateway's address, the location allows it and its socket takes the frame in one write; other nodes get no byte |
| DatagramPath.GatewayTravel | middleware/androidPlatform/zigbee/PoCommVirtualFilterM.nc:37-57 | at a node registered with the gateway's address that gets the whole frame the footer restores the exact source, and delivery happens exactly for the gateway or everybody; of a silent share nothing is signalled |
| DatagramPath.BroadcastTravel | middleware/androidPlatform/zigbee/PoCommVirtualFilterM.nc:37-57 | at any registered node that gets the whole frame of a broadcast: restored when sender or receiver is the gateway, else delivered with a virtual type; of a silent share nothing is signalled |
| Reachability.ForgedBroadcast | directory/src/org/lekkas/PoDirectory/RequestHandler.java:277-301 | after any run of the directory with three nodes, a broadcast of the third, of which the first takes 8 bytes, makes the second signal an empty datagram from node 9, which does not exist |
| Reachability.NodesJoin | directory/src/org/lekkas/PoDirectory/RequestHandler.java:143-159 | from start-up, nodes that join on any different sockets are registered on them in that order |
| Reachability.GatewayAddressIsAssigned | directory/src/org/lekkas/PoDirectory/Registry.java:17-26 | after any run the gateway's address is that of the 65536th node registered |
| Reachability.VirtualReachesNobody | middleware/androidPlatform/zigbee/PoCommVirtualFilterM.nc:37-57 | before that a datagram for a virtual address puts no byte on any node's stream |
| Reachability.OwnAddressReachesIff | directory/src/org/lekkas/PoDirectory/RequestHandler.java:252-301 | while addresses are distinct, a datagram from another node to a node's own address arrives, with everybody near and only its socket taking bytes, exactly when the address is sign-safe or ends in 0xFF and is outside 40000..40099 |
| DatagramPath.Relay | directory/src/org/lekkas/PoDirectory/RequestHandler.java:46-50 | the same way through the imperative writer, directory reader, request handler and client reader, under any splits of reads and writes: what is handed up is what the share carries, the datagram when that is the whole frame and nothing when it is silent |
| DatagramRuns.OwnMessagesInOrder | directory/src/org/lekkas/PoDirectory/RequestHandler.java:241-303 | over any list of datagrams of which a node's share is never cut, its stream parses to exactly its own messages, in order, and exactly their datagrams are handed up, as decoded |
| DatagramRuns.FirstTargetsInOrder | directory/src/org/lekkas/PoDirectory/RequestHandler.java:241-303 | while every socket takes whole frames, those are the messages whose first target the node is |
| DatagramRuns.CutPutsOutOfStep | directory/src/org/lekkas/PoDirectory/RequestHandler.java:264-270 | after a share cut short the reader takes the first bytes of what the node gets next for the end of the message that was cut, and reads that message as sent exactly when they are the missing ones |
| Forwarding.InboxOfFirst | directory/src/org/lekkas/PoDirectory/RequestHandler.java:264-301 | when every socket takes whole frames the first target gets the frame and no other node a byte |
| UartFraming.PobicosPacket.OnChannel | PoClient/src/org/lekkas/poclient/AppLoader/PobicosPacket.java:12-17 | an empty packet on a channel |
| UartFraming.PobicosPacket.FromMessage | PoClient/src/org/lekkas/poclient/AppLoader/PobicosPacket.java:18-25 | a copy of a received message and its length byte |
| UartFraming.PobicosPacket.Append | PoClient/src/org/lekkas/poclient/AppLoader/PobicosPacket.java:44-46 | adds one byte, or throws on a full buffer |
| UartFraming.PobicosPacket.AppendAll | PoClient/src/org/lekkas/poclient/AppLoader/PobicosPacket.java:47-50 | adds all bytes exactly when there are at most 27 |
| UartFraming.PobicosPacket.GetBuffer | PoClient/src/org/lekkas/poclient/AppLoader/PobicosPacket.java:26-33 | channel, length and payload |
| UartFraming.PobicosPacket.GetContents | PoClient/src/org/lekkas/poclient/AppLoader/PobicosPacket.java:37-43 | the payload, or throws on a negative length |
| UartFraming.SendPacket | PoClient/src/org/lekkas/poclient/AppLoader/PoUART.java:63-78 | sends the encoding exactly when the payload fits 27 bytes |
| UartFraming.Receiver.ReceiveFrame | PoClient/src/org/lekkas/poclient/AppLoader/PoUART.java:43-55 | one frame decoded byte by byte, independent of what earlier frames left in the buffer |
| UartFraming.Receive | PoClient/src/org/lekkas/poclient/AppLoader/PoUART.java:37-62 | the thread delivers exactly the packets the stream decodes to |
| UartFraming.DecodeInverts | PoClient/src/org/lekkas/poclient/AppLoader/PoUART.java:43-55 | decoding inverts encoding on one packet |
| UartFraming.DecodeIs | PoClient/src/org/lekkas/poclient/AppLoader/PoUART.java:43-60 | the decoder waits for the header and the payload it announces; a negative length kills it, and a length above 27 when the 28th payload byte arrives |
| UartFraming.StreamRoundTrip | PoClient/src/org/lekkas/poclient/AppLoader/PoUART.java:37-77 | decoding the concatenation of any packets gives back exactly those packets |
| UartFraming.DecodedReencodes | PoClient/src/org/lekkas/poclient/AppLoader/PoUART.java:37-62 | everything delivered fits, and its encoding is exactly the bytes it was decoded from |
| PillLoader.PoAppPillLoader.ByteArrayToInt | PoClient/src/org/lekkas/poclient/AppLoader/PoAppPillLoader.java:1228-1235 | little-endian with the overflow of `int` |
| PillLoader.PoAppPillLoader.RetrieveBundleSize | PoClient/src/org/lekkas/poclient/AppLoader/PoAppPillLoader.java:1207-1216 | the size is the bundle's first four bytes, and a bundle of fewer than four throws |
| PillLoader.StatedSizeIs | PoClient/src/org/lekkas/poclient/AppLoader/PoAppPillLoader.java:1207-1235 | the size read is the first four entries, reduced to octets, with weights 1, 2^8, 2^16 and 2^24, as a signed `int` |
| PillLoader.WrittenSizeIsStated | PoClient/src/org/lekkas/poclient/AppLoader/PoAppPillLoader.java:1207-1235 | a bundle that begins with the four little-endian octets of n below 2^31 states n |
| PillLoader.PoAppPillLoader.LoadAndStartApp | PoClient/src/org/lekkas/poclient/AppLoader/PoAppPillLoader.java:1173-1180 | loading reads the size again, starts a new UART, sends the first packet and keeps the offset; nothing while the application runs, and a throw on a bundle too short for its size |
| PillLoader.PoAppPillLoader.BuildChunk | PoClient/src/org/lekkas/poclient/AppLoader/PoAppPillLoader.java:1287-1293 | the next 27 bytes, zero-padded at the end, or a read past the array |
| PillLoader.PoAppPillLoader.PacketReceived | PoClient/src/org/lekkas/poclient/AppLoader/PoAppPillLoader.java:1274-1327 | the whole reaction to a packet, and no change where it throws |
| PillLoader.ReactIs | PoClient/src/org/lekkas/poclient/AppLoader/PoAppPillLoader.java:1274-1327 | what each packet but a ready request does: finished starts the application and resets the offset, started keeps bytes 1 to 4 as the root agent's id and sets the flag, killed clears it on any channel, an empty one throws, the rest change nothing |
| PillLoader.LoadIs | PoClient/src/org/lekkas/poclient/AppLoader/PoAppPillLoader.java:1173-1180 | a load while nothing runs reads the stated size and sends the first packet, throws on fewer than four entries, and does nothing while the application runs |
| PillLoader.ReadyThrowsIff | PoClient/src/org/lekkas/poclient/AppLoader/PoAppPillLoader.java:1290-1292 | a ready request throws exactly when its chunk would read past the bundle array |
| PillLoader.UploadReaches | PoClient/src/org/lekkas/poclient/AppLoader/PoAppPillLoader.java:1286-1295 | k ready requests move the offset to min(offset + 27k, size) and nothing else but the packets sent |
| PillLoader.UploadConserves | PoClient/src/org/lekkas/poclient/AppLoader/PoAppPillLoader.java:1286-1295 | the chunks sent concatenate to the bundle bytes up to there, once each and in order, then only zeros, from any starting offset |
| PillLoader.UploadCompleteIff | PoClient/src/org/lekkas/poclient/AppLoader/PoAppPillLoader.java:1286-1295 | from offset 0 the bundle is complete exactly from ceil(size/27) requests on |
| PillLoader.UploadSurvivesTheWire | PoClient/src/org/lekkas/poclient/AppLoader/PoUART.java:63-78 | the chunks decoded from the UART bytes are the chunks sent |
| PillLoader.NextUploadSendsAll | PoClient/src/org/lekkas/poclient/AppLoader/PoAppPillLoader.java:1274-1295 | an upload that finished leaves the offset at the start: the next one sends the whole bundle again |
| PillLoader.RestartAfterErrorIff | PoClient/src/org/lekkas/poclient/AppLoader/PoAppPillLoader.java:1173-1180 | loaded again after an error, the upload sends the bytes from where the first one stopped: the node gets the whole bundle exactly when that was the first byte and there are ceil(size/27) requests, and otherwise misses the bytes before it |
| ConfigSettings.FirstMatch | PoClient/src/org/lekkas/poclient/AppLoader/PoAppPillLoader.java:1363-1374 | the first occurrence with a separator and a value byte after it |
| ConfigSettings.Matches | PoClient/src/org/lekkas/poclient/AppLoader/PoAppPillLoader.java:1364-1370 | whether the setting stands at a position |
| ConfigSettings.ReadText | PoClient/src/org/lekkas/poclient/AppLoader/PoAppPillLoader.java:1378-1383 | the text up to the next NUL, or past the array |
| ConfigSettings.GetConfigSetting | PoClient/src/org/lekkas/poclient/AppLoader/PoAppPillLoader.java:1357-1387 | the text after the first match, empty without one, and a throw exactly when no NUL ends it |
| ConfigSettings.WrittenIsRead | PoClient/src/org/lekkas/poclient/AppLoader/PoAppPillLoader.java:1357-1387 | a setting written as name, separator, text and NUL is found with exactly that text when the name does not occur earlier |
| DirectoryModel.AdmitGrows | directory/src/org/lekkas/PoDirectory/RequestHandler.java:147-150 | a first connection adds one node on a new socket with the next address |
| DirectoryModel.CounterCounts | directory/src/org/lekkas/PoDirectory/Registry.java:23-25 | the overflowing counter still yields k mod 2^16 |
| DirectoryModel.RegisterGrows | directory/src/org/lekkas/PoDirectory/RequestHandler.java:114-216 | a registered socket is answered by PONG; only a welcome grows the registry, by the next address |
| DirectoryModel.StepKeepsInv | directory/src/org/lekkas/PoDirectory/RequestHandler.java:108-240 | every frame of any kind, malformed ones included, keeps the registry's invariant |
| DirectoryModel.RunKeepsInv | directory/src/org/lekkas/PoDirectory/RequestHandler.java:114-216 | every run of frames of any kind keeps it from any state that meets it, and removes or rebinds no node |
| DirectoryModel.DirectoryFromStart | directory/src/org/lekkas/PoDirectory/RequestHandler.java:114-216 | the same from start-up: sockets distinct, k-th address k mod 2^16, addresses distinct exactly up to 65536 nodes, each socket welcomed at most once |
| DirectoryModel.FirstOfAddress | directory/src/org/lekkas/PoDirectory/Registry.java:17-26 | the first node of an address is the one registered at that number, for address 0 at 65536 |
| DirectoryModel.AddressesDistinctIff | directory/src/org/lekkas/PoDirectory/Registry.java:23-25 | addresses are pairwise distinct exactly through 65536 registrations |
| DirectoryModel.WelcomeRoundTrip | PoClient/src/org/lekkas/poclient/PoConnMgrReadTask.java:103-111 | the client learns exactly the address and seed it was given |
| DirectoryModel.RequestRoundTrip | PoClient/src/org/lekkas/poclient/RegistryUpdateTask.java:46-56 | the directory reads from a request what the client wrote |
| DirectoryModel.UpdateIs | directory/src/org/lekkas/PoDirectory/RequestHandler.java:199-214 | a request of 17 bytes or more on a registered socket sets that node's position and time from the request, changes nothing else, and is answered by PONG |
| DirectoryModel.FirstConnectionIs | directory/src/org/lekkas/PoDirectory/RequestHandler.java:146-159 | a first connection registers one node, last, with the counter's low 16 bits as its address, and welcomes it with that address and its seed |
| DirectoryModel.TouchIs | directory/src/org/lekkas/PoDirectory/RequestHandler.java:236-238 | a datagram sets its sender's time and changes nothing else |
| DirectoryModel.ArrivalIs | directory/src/org/lekkas/PoDirectory/RequestHandler.java:108-240 | what a frame of each kind and length does to the directory, and which lengths end its thread |
| DirectoryModel.RequestIs | PoClient/src/org/lekkas/poclient/RegistryUpdateTask.java:46-56 | the request byte by byte |
| DirectoryModel.ActivityKeepsNodeKnown | directory/src/org/lekkas/PoDirectory/RequestHandler.java:165-239 | a node whose last datagram is within the limit may come back on a new socket and gets a PONG |
| DirectoryModel.UpdateKeepsNodeKnown | directory/src/org/lekkas/PoDirectory/RequestHandler.java:165-214 | so may a node whose last registration update on its own socket is within the limit |
| DirectoryModel.ReconnectionIff | directory/src/org/lekkas/PoDirectory/RequestHandler.java:161-198 | a reconnecting client is recognised exactly while its node was seen in the last 60 s, and its node keeps the old socket |
| RegistrationPath.ReplyIs | directory/src/org/lekkas/PoDirectory/RequestHandler.java:155-212 | each reply is one frame on the client's stream: kind 4 with address and seed, kind 3 or kind 5 without payload; only kind 3 ends the reader |
| RegistrationPath.RequestIsFrame | PoClient/src/org/lekkas/poclient/PoCommMgrWriteTask.java:80-102 | a request is one frame of kind 2 with its 23 bytes and no trailer |
| RegistrationPath.RegistryService.Handle | PoClient/src/org/lekkas/poclient/PoConnMgrReadTask.java:103-125 | a welcome sets address and seed and registers, a refusal rejects, a PONG registers, and a frame that throws changes nothing |
| RegistrationPath.RegistryService.Register | PoClient/src/org/lekkas/poclient/PoRegistryService.java:61-76 | the request that the client sends for its position, address and seed |
| RegistrationPath.ReplyTells | PoClient/src/org/lekkas/poclient/PoConnMgrReadTask.java:103-125 | what the client knows after each reply, read off the wire |
| RegistrationPath.LearnsFromRepliesOnly | PoClient/src/org/lekkas/poclient/PoConnMgrReadTask.java:103-128 | no other frame teaches the client anything, nor does a welcome on which it throws |
| RegistrationPath.FirstConnectionTells | directory/src/org/lekkas/PoDirectory/RequestHandler.java:146-159 | a new client on a new socket learns exactly the address and seed of the node registered for it |
| RegistrationPath.ReconnectionTells | directory/src/org/lekkas/PoDirectory/RequestHandler.java:161-198 | a client with address and seed on a new socket ends up registered exactly while their first node was seen in the last 60 s, else rejected, and keeps what it knows |
| RegistrationPath.Exchange | PoClient/src/org/lekkas/poclient/PoConnMgrReadTask.java:103-125 | the same through writer, readers and request handler, for any sizes of reads and writes |
| RegistrationPath.ComesBackIff | directory/src/org/lekkas/PoDirectory/RequestHandler.java:114-216 | over every run: a client joins, anything follows, its node stays where it was with what it learned, and below 65536 nodes it is registered again on another new socket exactly when that node was seen in the last 60 s |
| Forwarding.WriterLocationIsRead | directory/src/org/lekkas/PoDirectory/RequestHandler.java:226-228 | the directory reads the radius, latitude and longitude that the writer put into the trailer, or zeros from a node that does not host the root agent |
| Forwarding.IsZeroIff | directory/src/org/lekkas/PoDirectory/RequestHandler.java:230 | a coordinate counts as unset exactly for the eight bytes of 0.0 and of -0.0 |
| Forwarding.SenderDecides | directory/src/org/lekkas/PoDirectory/RequestHandler.java:230-287 | the handler remembers the sender's location exactly when it restricts, and the test before each write is whether the sender's location allows the node |
| Forwarding.OwnLocationDecides | directory/src/org/lekkas/PoDirectory/RequestHandler.java:230-266 | a handler's remembered location never matters: a datagram goes by its own or by none |
| Forwarding.UnicastTargets | directory/src/org/lekkas/PoDirectory/RequestHandler.java:252-271 | a datagram that does not decode to the broadcast address goes to at most the first node of the decoded address, exactly when the sender hosts no root agent, or its radius or a coordinate is zero, or the node is near that location |
| Forwarding.BroadcastCounts | directory/src/org/lekkas/PoDirectory/RequestHandler.java:252-301 | how often a broadcast is written to each node: once in the loop when it is another node that passes, and once before it when it is the first node of address 0xFFFF and passes |
| Forwarding.BroadcastWrites | directory/src/org/lekkas/PoDirectory/RequestHandler.java:252-301 | the same for a frame as its sender wrote it: in the loop exactly when the socket is another and the sender's location allows the node, before it exactly when the node is the first of address 0xFFFF and allowed |
| Forwarding.BroadcastReachesOthersIff | directory/src/org/lekkas/PoDirectory/RequestHandler.java:252-301 | a broadcast is written to each other passing node exactly once and never to the sender, exactly when the first node of address 0xFFFF, if any, does not pass; then in registry order |
| Forwarding.BroadcastAddressIsAssigned | directory/src/org/lekkas/PoDirectory/Registry.java:23-25 | after any run of the directory that node is the 65535th registered, if there are that many |
| Forwarding.BroadcastRepeats | directory/src/org/lekkas/PoDirectory/RequestHandler.java:252-301 | with a registered node of address 0xFFFF another's broadcast is written to it twice, and its own is written back to it |
| Forwarding.PieceIs | directory/src/org/lekkas/PoDirectory/RequestHandler.java:264-301 | the i-th write moves exactly the bytes between two positions of the one buffer, for any amounts the sockets take |
| Forwarding.ServedWholeIff | directory/src/org/lekkas/PoDirectory/RequestHandler.java:264-301 | a target is served whole exactly when its socket takes the frame at once and every earlier one took nothing |
| Forwarding.EveryTargetServedIff | directory/src/org/lekkas/PoDirectory/RequestHandler.java:264-301 | every target is served whole exactly when there is none, or just one whose socket takes the frame at once |
| Forwarding.ShareIsWholeIff | directory/src/org/lekkas/PoDirectory/RequestHandler.java:264-301 | a node, written to any number of times, gets the whole frame exactly when only its own socket takes bytes until the frame is used up |
| Forwarding.RewritingResumes | directory/src/org/lekkas/PoDirectory/RequestHandler.java:241-303 | writing a datagram again, as a frame of unknown kind makes the handler do, goes on where the buffer stands |
| Forwarding.OneBufferForAll | directory/src/org/lekkas/PoDirectory/RequestHandler.java:275-301 | all targets together get each byte at most once, in order |
| DirectoryServer.RegistryStore.BySocket | directory/src/org/lekkas/PoDirectory/Registry.java:27-33 | the first node on a socket |
| DirectoryServer.RegistryStore.ByAddr | directory/src/org/lekkas/PoDirectory/Registry.java:34-40 | the first node with an address |
| DirectoryServer.RegistryStore.ByAddrAndSeed | directory/src/org/lekkas/PoDirectory/Registry.java:41-47 | the first node with an address and seed |
| DirectoryServer.RequestHandler.AdmitNode | directory/src/org/lekkas/PoDirectory/RequestHandler.java:147-159 | adds the node and builds its welcome |
| DirectoryServer.RequestHandler.Rejoin | directory/src/org/lekkas/PoDirectory/RequestHandler.java:162-198 | refuses an unknown or expired node without removing it, else refreshes it |
| DirectoryServer.RequestHandler.ProcessRegistration | directory/src/org/lekkas/PoDirectory/RequestHandler.java:114-216 | the imperative request is the registration step, with its reply's bytes, or throws on a short payload |
| DirectoryServer.RequestHandler.ProcessDatagram | directory/src/org/lekkas/PoDirectory/RequestHandler.java:217-239 | keeps the frame verbatim, rewinds its buffer, and unless it is too short remembers its location when set and refreshes its sender's time |
| DirectoryServer.RequestHandler.Route | directory/src/org/lekkas/PoDirectory/RequestHandler.java:252-302 | writes to the addressed node and, for the broadcast address, to the other nodes, each subject to the location |
| DirectoryServer.RequestHandler.WritePieces | directory/src/org/lekkas/PoDirectory/RequestHandler.java:264-301 | each write continues where the last one left the one buffer |
| DirectoryServer.RequestHandler.Serve | directory/src/org/lekkas/PoDirectory/RequestHandler.java:46-50 | processing and writing a datagram: its targets in the updated registry and what each write moves, or a throw on a datagram shorter than its trailer, which writes nothing |

## Left out

- RuntimeTimers.RuntimeTimersM.Start: requires an id below 128, because the source indexes its table with the id unchecked.
- TimerLiveness.RunNeverForgets: assumes that no timer is more than 2^31 behind when the task runs; `RemainingIsExact` shows that beyond that the signed remainder is wrong.
- RuntimeTimers.RuntimeTimersM.CompleteTasks: assumes handlers that call nothing back and a held clock; handlers that start timers may keep the drain going.
- TimerServices.TimerService.StartTimer: requires a positive period for a periodic timer, because the executor throws on period 0; the exception's aftermath is not modelled.
- TimerSystem.StepKeepsInv: the executor's steps fall before or after a task or a handler, not between two of its statements.
- EventHeap.Heap.Insert: does not model a failed `malloc` or the overflow of the 32-bit size near 2^31 entries.
- EventHeap.Heap.PopMinData: requires a non-empty heap, because the source reads before the array otherwise; that the queue never does so is `PerformKeepsInv`.
- QueueProtocol.RunKeepsAccounts: the handler, the cancelled flag and the cleanup of a dispatched event are not modelled; a handler that inserts is one more producer.
- RegistrationPath.RegistryService.Handle: the update thread and the restart of the service that a reply also sets off are not modelled.
- VirtualFilter.Filter.MsgArrived: a virtual message below 4 bytes is reported as a read before the buffer, which is undefined in C.
- VirtualFilter.HwComm.NativeReceivedPacket: requires a length below 128; on a negative one its Java caller has already thrown.
- Forwarding.EveryTargetServedIff: a socket that fails during a write counts as accepting nothing; an exception of the single addressed write, which ends the handler before the broadcast loop, is not modelled.
- DatagramPath.Relay: the node's stream is taken from the start of this datagram; many datagrams are `DatagramRuns`. The thread that unwraps is taken to keep up with the reader.
- PillLoader.PoAppPillLoader.LoadAndStartApp: after an upload error the earlier UART thread is not cancelled, so that two threads take bytes from the one receive queue; the second reader is not modelled.
- DatagramPath.ShareIsSlice: a node written to twice, the one of address 0xFFFF, gets two slices; `WholeInboxIff` covers it, the sharp bound does not.
- DirectoryServer.RequestHandler.ProcessDatagram: coordinates are opaque eight-byte values, and the distance test is an arbitrary predicate; the haversine formula is floating point.
- Seeds, clocks and the acceptance of socket reads and writes are parameters.
- JNI glue, logging, Android services and activities, dialogs, notifications and location updates.
- Connecting, disconnecting, selectors and thread joins; a socket is an identifier and a byte stream.
- The memory modules, whose routing macros are in a header that is not part of this model.
- The signal-based timer of the PC platform, kept only as one more producer and as interrupted waits.
- Demo agents, bundle tables, descriptors, and the reliable transport, migration and agent managers, of which only declarations are present.
- The debug-channel configuration parser.
