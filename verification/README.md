# Timers, pools and a CGI reader: a verified model

The repository contains small Linux servers. This project models their four stateful
components and proves what the components are for.

* **Hashed time wheel** (`linux_server/time_wheel.h`). `WheelSpec.dfy` has the wheel on values
  and the table of countdowns it speeds up, `WheelTheorems.dfy` the refinement between them over
  every run, and `TimeWheel.dfy` the linked lists of the source, each method proved equal to a
  step of the wheel on values. The number of slots and the slot interval are parameters (60 and
  1 in the source).
* **Sorted timer list** (`linux_server/cpt_11_2_1.h`). `SortedList.dfy` states what the list does
  as a sequence and compares it with removing, inserting and filtering; `SortTimerList.dfy` is
  the doubly linked list. Its invariant leaves `tail` free while the list is empty, because
  `tick` leaves a dangling `_tail` behind.
* **Idle-connection server** (`linux_server/cpt_11_2_2.h`). `TimerServerSpec.dfy` is the event loop
  on values, next to a list of connections by last activity; `TimerServerTheorems.dfy` proves
  that the two agree in every run, and how long a connection can stay idle; `TimerServer.dfy` is
  the loop over the table, the timers and the list, with the bijection between them.
* **Thread pool** (`thread_pool_server.cpp`, `thread_pool_server.h`). `ThreadPoolSpec.dfy` is a
  transition system with one step per action of a worker, a call of `enqueue` or the destructor;
  `ThreadPoolTheorems.dfy` proves its invariant and what follows for every interleaving,
  `ThreadPoolProgress.dfy` how the pool comes to a stop, and when its destructor does not.
* **Process pool and CGI reader** (`linux_server/cpt_15_3.h`). `ProcessPoolSpec.dfy`,
  `ProcessPoolTheorems.dfy` and `ProcessPool.dfy` have the parent's dispatch, reaping and
  stopping; `CgiSpec.dfy`, `CgiTheorems.dfy` and `CgiConn.dfy` the buffer and the scan for CRLF.
* `ModArith.dfy` holds the facts about `/` and `%` that the wheel and the round-robin need,
  `Sequences.dfy` a predicate that several modules share.

How the model is built:

* Classes stand for the objects the source updates in place, datatypes for everything else.
  A ghost flag `live` says that a node has not been freed. Fields of a node are read and
  written through members that require the flag, and `Free` requires it too, so no node is used
  after it is freed and none is freed twice.
* What the system calls return is input: an event names the descriptor `accept` gave, what
  `recv` returned, the time, the pids from `waitpid`. Assumed are: `accept` gives a descriptor in
  range that is not in use; epoll reports open descriptors; a `recv` without room never returns a
  positive count; the children's pids are positive and distinct. The clock is assumed not to run
  backwards only where a theorem says so (`ClockRunsForwards`).
* Callbacks do not add or delete timers. The one callback in the source, `cb_func`, does not.
* In `run_parent` the `while` loop ends in line 246, before the `for` loop over the events
  (`linux_server/cpt_15_3.h:239-247`). The handler of the events, lines 249 to 337, is modelled
  as a step driven by an arbitrary sequence of events, which is its evident purpose.
* `EAGAIN` does not end `cgi_conn::process`: it calls `recv` again (lines 362 to 366). So does
  the model; it is still polling when the given results are used up.

Two things turn out to hold only under a condition, and each condition is proved exact:

* `adjust_timer` equals removal followed by stable insertion, and leaves the list sorted, if and
  only if the new expiry is not below that of the predecessor (`AdjustIsReinsert`;
  `AdjustCanUnsort` is a list that ends up unsorted).
* `stop_` is stored without the mutex, so the `notify_all` of the destructor can come before a
  worker sleeps. The destructor can be left in a `join` for ever, with no thread able to move,
  if and only if some worker has already found the queue empty and `stop_` false, and is about
  to sleep, when `notify_all` is called (`NotifyAllMissesExactly`); `NotifyAllCanMiss` gives a
  run in which this happens. Only a spurious wake-up helps then (`StuckForGood`).

And two facts worth knowing: a request line with a NUL byte in it is cut there, since the file
name is a C string (`NameIsLine`); and a line that does not end within the first 1023 bytes is
dropped with the next result of `recv` (`LongLineIsDropped`).

## Model

| member | source | states |
|---|---|---|
| `WheelTheorems.CountdownOfPlace` | linux_server/time_wheel.h:67-69 | a slot and rotation are recovered from the countdown they encode: no two places stand for one countdown |
| `WheelTheorems.PlaceOfCountdown` | linux_server/time_wheel.h:58-69 | the slot and rotation computed for a number of ticks encode exactly that number as `(slot - cur) mod N + N * rotation`, multiples of N included |
| `WheelTheorems.SurvivorsExactly` | linux_server/time_wheel.h:112-139 | after a visit the slot holds exactly its timers with rotations left, one rotation lower |
| `WheelTheorems.ExpiredExactly` | linux_server/time_wheel.h:119-121 | a visit fires exactly the timers of the slot with rotation 0 |
| `WheelTheorems.VisitKeepsOrder` | linux_server/time_wheel.h:112-139 | a visit keeps the surviving timers in order and fires the others in list order |
| `WheelTheorems.DelExactly` | linux_server/time_wheel.h:87-106 | deleting takes away the one timer and nothing else from its slot |
| `WheelTheorems.TickCountdown` | linux_server/time_wheel.h:109-141 | one call lowers the countdown of every timer that stays by exactly one, in the visited slot and in all others |
| `WheelTheorems.TickFires` | linux_server/time_wheel.h:109-141 | a call fires exactly the timers whose countdown is zero |
| `WheelTheorems.StepRefines` | linux_server/time_wheel.h:54-142 | adding, deleting and ticking on the wheel is adding, deleting and counting down in the table |
| `WheelTheorems.RunRefines` | linux_server/time_wheel.h:54-142 | after every sequence of operations the wheel still equals the table, and every timer ever added is accounted for |
| `WheelTheorems.EveryTimerHasOneFate` | linux_server/time_wheel.h:87-141 | in every reachable wheel a timer ever added is pending, fired or deleted, just one of these, and fired or deleted once |
| `WheelTheorems.FiresExactlyOnTime` | linux_server/time_wheel.h:61-69 | a timer added with timeout t and not deleted fires in the second call of `tick` after its insertion if t < SI, else in call t / SI + 1, and in no other, whatever is added and deleted meanwhile |
| `WheelTheorems.CallsAreTicks` | linux_server/time_wheel.h:109-142 | calls are counted by `tick` alone |
| `WheelTheorems.EmptyReachable` | linux_server/time_wheel.h:36-40 | the wheel a constructor makes is reachable |
| `WheelTheorems.StepReachable` | linux_server/time_wheel.h:54-142 | every step from a reachable wheel leads to a reachable one, so the theorems hold after every method of the class |
| `TimeWheels.LinkFront` | linux_server/time_wheel.h:73-82 | a new timer becomes the head of a well-linked list |
| `TimeWheels.Unlink` | linux_server/time_wheel.h:93-105 | taking out the head, a middle or the last timer leaves the others well linked in their order, and frees the timer |
| `TimeWheels.CountDown` | linux_server/time_wheel.h:115-117 | a timer with rotations left is lowered by one and stays in its place |
| `TimeWheels.FireAndUnlink` | linux_server/time_wheel.h:120-138 | a timer without rotations left is fired (noted by its id), unlinked and freed, and the walk goes on behind it |
| `TimeWheels.WalkSlot` | linux_server/time_wheel.h:110-140 | the walk ends, visits every timer once, leaves the survivors and fires the others in order, although it unlinks while it walks |
| `TimeWheels.FreeList` | linux_server/time_wheel.h:44-49 | the destructor frees every timer of a list once |
| `TimeWheels.TimeWheel.constructor` | linux_server/time_wheel.h:36-40 | a new wheel is empty |
| `TimeWheels.TimeWheel.Locate` | linux_server/time_wheel.h:58-69 | the slot and rotation for a timeout encode, seen from the current slot, a countdown of 1 if it is below SI, and otherwise of as many full slot intervals as go into it |
| `TimeWheels.TimeWheel.AddTimer` | linux_server/time_wheel.h:54-84 | returns null exactly for a negative timeout; otherwise the wheel gains one timer, in front of all others of its slot, and keeps all others and its heap shape |
| `TimeWheels.TimeWheel.DelTimer` | linux_server/time_wheel.h:87-106 | the timer leaves the wheel and is freed; all others stay as they are, null is ignored |
| `TimeWheels.TimeWheel.Visit` | linux_server/time_wheel.h:110-140 | the walk of the current slot, with the firings of the walk as the log; all other slots untouched |
| `TimeWheels.TimeWheel.Tick` | linux_server/time_wheel.h:109-142 | the heap after a call is the wheel on values after a tick, with all lists still acyclic, disjoint and consistently linked |
| `TimeWheels.TimeWheel.LiveIsPending` | linux_server/time_wheel.h:98-136 | a timer has not been freed exactly while it is pending |
| `TimeWheels.TimeWheel.OneFate` | linux_server/time_wheel.h:87-141 | every timer the wheel ever made is pending, fired or deleted, just one of these, and freed unless pending |
| `TimeWheels.TimeWheel.Destroy` | linux_server/time_wheel.h:42-51 | after the destructor every timer ever made has been freed, none of them twice |
| `SortedList.FirstGreater` | linux_server/cpt_11_2_1.h:56-69 | the place of insertion: behind all timers in front that are due no later |
| `SortedList.InsertIsStable` | linux_server/cpt_11_2_1.h:41-76 | insertion keeps the list sorted and puts the new timer behind those due at the same time |
| `SortedList.AdjustIsReinsert` | linux_server/cpt_11_2_1.h:99-117 | adjusting equals removal and stable insertion, and keeps the list sorted, exactly when the new expiry is not below the predecessor's |
| `SortedList.AdjustCanUnsort` | linux_server/cpt_11_2_1.h:103-106 | two timers on which adjusting leaves the list unsorted, where removal and insertion would sort it |
| `SortedList.SkipSuccessor` | linux_server/cpt_11_2_1.h:104-116 | skipping the successor, once it is known to be due no later, does not change the place found |
| `SortedList.EarlyStopIsFilter` | linux_server/cpt_11_2_1.h:85-96 | on a sorted list stopping at the first timer not yet due fires exactly the due timers of the whole list, in order of expiry |
| `SortedList.RunAgrees` | linux_server/cpt_11_2_1.h:41-142 | every run of add, adjust, delete and tick keeps the list sorted and equals the run of the list kept by sorting and filtering |
| `SortTimerLists.FindPlace` | linux_server/cpt_11_2_1.h:57-69 | the search loop finds the first timer due later, and its predecessor |
| `SortTimerLists.CbFunc` | linux_server/cpt_11_2_2.h:60-65 | the callback closes the client's descriptor |
| `SortTimerLists.SortTimerList.constructor` | linux_server/cpt_11_2_1.h:31-31 | a new list is empty |
| `SortTimerLists.SortTimerList.AddTimer` | linux_server/cpt_11_2_1.h:41-54 | the list gains the timer by stable insertion, a sorted list stays sorted, and links, head and tail are right, whatever `tail` was on an empty list |
| `SortTimerLists.SortTimerList.AddAfter` | linux_server/cpt_11_2_1.h:56-76 | the two-argument overload inserts at the place found behind the given timer |
| `SortTimerLists.SortTimerList.AdjustTimer` | linux_server/cpt_11_2_1.h:99-117 | the timer moves to the place found from its successor on, in the head, the middle and the move-to-tail case, or stays where it is; with the others in order the list ends up sorted exactly if the timer in front is due no later; null is ignored |
| `SortTimerLists.SortTimerList.DelTimer` | linux_server/cpt_11_2_1.h:118-142 | the timer leaves the list and is freed, in all four cases; the others stay linked in their order, and sorted |
| `SortTimerLists.SortTimerList.FireFirst` | linux_server/cpt_11_2_1.h:89-95 | one round: the callback runs, then the first timer is unlinked and freed |
| `SortTimerLists.SortTimerList.Tick` | linux_server/cpt_11_2_1.h:78-97 | one step of the list on values: the due timers in front are called back in list order and freed, the rest stay; on a sorted list these are all due timers, as a full filter finds them; `tail` is left alone even when the list becomes empty |
| `SortTimerLists.SortTimerList.Destroy` | linux_server/cpt_11_2_1.h:32-39 | the destructor frees every listed timer |
| `TimerServerTheorems.HandleKeepsOrder` | linux_server/cpt_11_2_2.h:113-181 | under a clock that does not run backwards each event keeps the timer list equal to the connections by last activity |
| `TimerServerTheorems.TickClosesExactlyTheIdle` | linux_server/cpt_11_2_1.h:78-97 | a tick at time T closes exactly the connections last active at or before T - 15 (three slots of 5 seconds), in order of last activity |
| `TimerServerTheorems.ListIsLeastRecentlyActiveFirst` | linux_server/cpt_11_2_2.h:107-186 | in every run the timer list is exactly the open connections, least recently active first, each due three slots after its last activity |
| `TimerServerTheorems.NoConnectionStaysIdle` | linux_server/cpt_11_2_2.h:107-186 | while the last tick is at most d ago no connection has been idle for 15 + d or longer, at any moment of any run |
| `TimerServerTheorems.EventEffects` | linux_server/cpt_11_2_2.h:131-170 | a SIGALRM (14) from the pipe, and nothing else, asks for a tick; a SIGTERM (15), and nothing else, for the end; a client that fails or is at end of file, and no other, is closed |
| `TimerServerTheorems.LoopEndsExactly` | linux_server/cpt_11_2_2.h:107-112 | the loop makes all rounds up to the first in which a SIGTERM has come in, that round included, or until epoll fails, and is told to stop exactly by that SIGTERM |
| `TimerServerTheorems.TicksExactlyOnAlarm` | linux_server/cpt_11_2_2.h:182-185 | the ticks are exactly the rounds in which a SIGALRM has come in, each at the end of its round |
| `TimerServerTheorems.LastTickIsLast` | linux_server/cpt_11_2_2.h:182-185 | the last tick that the idle bound speaks of is the last of these |
| `TimerServers.TimerServer.constructor` | linux_server/cpt_11_2_2.h:102-105 | the loop starts with no connections and both flags down |
| `TimerServers.TimerServer.Bijection` | linux_server/cpt_11_2_2.h:121-130 | each open descriptor has a live timer in the list that points back at its table entry, and each listed timer belongs to one open descriptor, whatever closed entries hold |
| `TimerServers.TimerServer.NewTimer` | linux_server/cpt_11_2_2.h:120-129 | the entry of a new descriptor and its new timer point at each other, also when the number is used again |
| `TimerServers.TimerServer.HandleAccept` | linux_server/cpt_11_2_2.h:116-130 | accepting opens the descriptor, lists its timer three slots ahead and keeps the bijection |
| `TimerServers.TimerServer.HandleHangup` | linux_server/cpt_11_2_2.h:157-170 | an error or end of file closes the descriptor and takes its timer out of the list |
| `TimerServers.TimerServer.HandleData` | linux_server/cpt_11_2_2.h:171-177 | data puts the timer off to three slots from now and moves it in the list |
| `TimerServers.TimerServer.HandleSignals` | linux_server/cpt_11_2_2.h:131-152 | the bytes read from the signal pipe set the two flags as `EventEffects` says, and nothing clears them |
| `TimerServers.TimerServer.HandleEvent` | linux_server/cpt_11_2_2.h:113-181 | every branch of the loop over the epoll result, in the order the source tests them |
| `TimerServers.TimerServer.FinishRound` | linux_server/cpt_11_2_2.h:182-185 | after a SIGALRM the due connections are closed and dropped from table and list, and the flag is reset |
| `TimerServers.TimerServer.Round` | linux_server/cpt_11_2_2.h:113-185 | a round handles all events reported, then the timers |
| `TimerServers.TimerServer.Run` | linux_server/cpt_11_2_2.h:107-186 | the whole loop, until it is told to stop or epoll fails, equals the run on values and keeps the bijection |
| `ThreadPoolTheorems.StepMutex` | thread_pool_server.cpp:21-31 | every step keeps the mutex with at most one worker or call |
| `ThreadPoolTheorems.StepWorkers` | thread_pool_server.cpp:22-30 | every step, the store of `stop_` without the mutex included, keeps what workers rely on: one that takes finds a task, one that leaves finds the pool stopped and the queue empty |
| `ThreadPoolTheorems.StepQueue` | thread_pool_server.h:75-82 | every step keeps the accepted tasks equal to the taken ones followed by the queue |
| `ThreadPoolTheorems.StepFates` | thread_pool_server.cpp:29-33 | every step keeps each task taken on one worker or returned once |
| `ThreadPoolTheorems.StepAwake` | thread_pool_server.cpp:23-25 | every step keeps the queue from being stranded, spurious wake-ups and notifying after unlocking included |
| `ThreadPoolTheorems.ReachableInv` | thread_pool_server.cpp:16-47 | the invariant holds in every state any interleaving leads to |
| `ThreadPoolTheorems.DrainedForGood` | thread_pool_server.cpp:26-28 | once a worker has exited the queue is empty and stays so, and no task is accepted any more |
| `ThreadPoolTheorems.EveryAcceptedTaskRanOnce` | thread_pool_server.cpp:18-33 | when all workers have exited each accepted task has run exactly once and no other has |
| `ThreadPoolTheorems.DestructorLeavesNothingBehind` | thread_pool_server.cpp:39-47 | when the destructor has returned each accepted task has run exactly once |
| `ThreadPoolTheorems.RejectedMeansStopped` | thread_pool_server.h:77-80 | `enqueue` throws only once the pool is being stopped, and then its task never runs |
| `ThreadPoolTheorems.TakenInOrder` | thread_pool_server.cpp:29-33 | the accepted tasks are the taken ones followed by the queue; each taken task is on exactly one worker or has returned |
| `ThreadPoolTheorems.StepAppends` | thread_pool_server.h:76-80 | a call that emplaces adds exactly itself at the end of the accepted tasks, and a worker takes the oldest one not yet taken; no other step accepts or takes any |
| `ThreadPoolTheorems.RunAppends` | thread_pool_server.h:76-80 | over every run the accepted and the taken tasks only grow at their ends |
| `ThreadPoolTheorems.FirstInFirstOut` | thread_pool_server.cpp:29-30 | if one call has emplaced and another has not, the first one's task is taken before the other's in every run |
| `ThreadPoolTheorems.WorkersNeverChange` | thread_pool_server.cpp:11-17 | there are as many workers as asked for, or one if none were, at all times |
| `ThreadPoolProgress.NoStrandedTask` | thread_pool_server.cpp:22-31 | with tasks queued some worker is on its way to the queue, or some call has emplaced and is yet to notify |
| `ThreadPoolProgress.QuietExactlyAtRest` | thread_pool_server.cpp:16-36 | the pool comes to a stop exactly when every call has returned and every worker waits or has exited, and then every accepted task has run: it never locks itself up |
| `ThreadPoolProgress.EveryCallIsAnswered` | thread_pool_server.h:69-84 | whenever the pool is at a stop after a new call, its task has run, or the call has thrown because the pool was stopped |
| `ThreadPoolProgress.NotifyAllMissesExactly` | thread_pool_server.cpp:39-41 | from the `notify_all` of the destructor on, a run leads to a `join` that does not return while no thread can move, if and only if some worker was about to sleep when it was called |
| `ThreadPoolProgress.NotifyAllCanMiss` | thread_pool_server.cpp:39-41 | a run to a `notify_all` after which the destructor can be left waiting for ever |
| `ThreadPoolProgress.NobodyMissedMeansDone` | thread_pool_server.cpp:39-46 | if nobody was about to sleep, no worker ever waits again, and when no thread can move the destructor has returned |
| `ThreadPoolProgress.StuckForGood` | thread_pool_server.cpp:42-46 | a destructor held up so does not return, whatever else happens, unless the sleeper wakes up spuriously |
| `ThreadPoolProgress.DestructorWaitsExactlyForASleeper` | thread_pool_server.cpp:42-46 | when nothing else moves, `join` does not return if and only if the worker joined is asleep, and even then every accepted task has run |
| `ThreadPoolProgress.StepIsProgress` | thread_pool_server.cpp:16-47 | every action of a worker, a call or the destructor lowers the number of actions they have left |
| `ThreadPoolProgress.EveryRunSettles` | thread_pool_server.cpp:16-47 | without new calls and spurious wake-ups every run is bounded, and whenever no thread can move every accepted task has run |
| `ThreadPoolProgress.CanSettle` | thread_pool_server.cpp:16-47 | from every state some run leads to one in which no thread can move |
| `ProcessPoolSpec.Skip` | linux_server/cpt_15_3.h:253-261 | only dead children are passed over, and the child reached lives |
| `ProcessPoolTheorems.SkipsAllExactly` | linux_server/cpt_15_3.h:262-266 | the search comes back empty-handed exactly when no child lives |
| `ProcessPoolTheorems.HitsFromZero` | linux_server/cpt_15_3.h:260-267 | how many turns each child gets when turns are dealt round and round |
| `ProcessPoolTheorems.DealtAll` | linux_server/cpt_15_3.h:249-337 | over every sequence of events, deaths included, the connections sent to children that live throughout are turns dealt among all children |
| `ProcessPoolTheorems.RoundRobinIsFair` | linux_server/cpt_15_3.h:253-268 | over every sequence of events any two children that live throughout are sent equally many connections, give or take one |
| `ProcessPoolTheorems.OneEachPerRound` | linux_server/cpt_15_3.h:253-268 | between two consecutive dispatches to one child every child that lives throughout gets exactly one |
| `ProcessPoolTheorems.StartOk` | linux_server/cpt_15_3.h:115-128 | with all children forked the pool meets every invariant the theorems start from, and the first connection goes to the first child |
| `ProcessPoolTheorems.LifeReap` | linux_server/cpt_15_3.h:290-301 | an ended process clears just its own child, whose pipe is closed at that moment; a stranger changes nothing |
| `ProcessPoolTheorems.LifeCycle` | linux_server/cpt_15_3.h:249-337 | over every sequence of events: stopped only when all children are reaped, a pipe closed once and with its child, a reaped child never sent to again |
| `ProcessPoolTheorems.ReapAllExactly` | linux_server/cpt_15_3.h:290-301 | of the processes `waitpid` reports, all of them and no others, the children are marked -1 |
| `ProcessPoolTheorems.StopsExactly` | linux_server/cpt_15_3.h:262-309 | over every sequence of events `m_stop` is set exactly when every `m_pid` is -1 |
| `ProcessPoolTheorems.LivingExactly` | linux_server/cpt_15_3.h:318-325 | SIGTERM goes to every living child once and to nobody else |
| `ProcessPoolTheorems.ConnectionIsSent` | linux_server/cpt_15_3.h:253-268 | while a child lives a connection is sent to the nearest living one from the counter on, the counter moves behind it, and nothing else changes |
| `ProcessPoolTheorems.ConnectionStops` | linux_server/cpt_15_3.h:262-266 | with no child left a connection is sent to nobody and the pool stops |
| `ProcessPoolTheorems.EveryConnectionIsSent` | linux_server/cpt_15_3.h:249-270 | over every sequence of events as many dispatches are made as connections come in while a child lives |
| `ProcessPoolTheorems.ChildSignalReaps` | linux_server/cpt_15_3.h:286-311 | SIGCHLD marks just the children whose processes are reported before the first result that is not positive, closes their pipes, and stops the pool exactly if none is left |
| `ProcessPoolTheorems.TerminateKillsTheLiving` | linux_server/cpt_15_3.h:312-327 | SIGTERM or SIGINT kills the living children, once each, and changes nothing else |
| `ProcessPoolTheorems.SignalsOneByOne` | linux_server/cpt_15_3.h:282-333 | all signals read in one go are handled, one after the other |
| `ProcessPoolTheorems.EventsOneByOne` | linux_server/cpt_15_3.h:247-338 | all events are handled, one after the other, up to a connection that finds no child left; none behind it is |
| `ProcessPoolTheorems.ReapedExactlyWhenReported` | linux_server/cpt_15_3.h:286-301 | over every sequence of events a child is -1 at the end exactly if it was at the start or its process was reported |
| `ProcessPools.ProcessPool.Search` | linux_server/cpt_15_3.h:253-261 | the search loop ends, at the first living child from the counter on, or at the counter if none lives |
| `ProcessPools.ProcessPool.Connect` | linux_server/cpt_15_3.h:253-268 | a connection is dispatched as `ConnectionIsSent` says; with no child left the pool stops and the event loop is left |
| `ProcessPools.ProcessPool.Join` | linux_server/cpt_15_3.h:292-300 | the loop over the children clears and closes the one whose process ended |
| `ProcessPools.ProcessPool.Child` | linux_server/cpt_15_3.h:286-311 | SIGCHLD is handled as `ChildSignalReaps` says, through the loops over the reports and the children |
| `ProcessPools.ProcessPool.CheckStop` | linux_server/cpt_15_3.h:302-309 | the parent stops exactly when no child is left |
| `ProcessPools.ProcessPool.Terminate` | linux_server/cpt_15_3.h:312-327 | SIGTERM is handled as `TerminateKillsTheLiving` says, through the loop over the children |
| `ProcessPools.ProcessPool.HandleEvents` | linux_server/cpt_15_3.h:247-338 | the loop over the events equals the run on values, and keeps the life-cycle invariant |
| `CgiTheorems.ReachIsTotal` | linux_server/cpt_15_3.h:359-371 | how many bytes are read depends on the total that came in alone, not on its split into chunks nor on EAGAIN in between |
| `CgiTheorems.FirstCrlfOfPrefix` | linux_server/cpt_15_3.h:373-377 | a CRLF is found in what has been read exactly when both its bytes have been |
| `CgiTheorems.ExtractsExactly` | linux_server/cpt_15_3.h:356-402 | a request is extracted exactly if the first CRLF of the stream lies within the first 1023 bytes and has come in, and it is the line before it |
| `CgiTheorems.ChunkingDoesNotMatter` | linux_server/cpt_15_3.h:359-380 | two ways to split one stream lead to the same request once both have brought its CRLF |
| `CgiTheorems.DropsExactly` | linux_server/cpt_15_3.h:362-369 | without a request the connection is dropped exactly if a `recv` fails, finds it closed or finds the buffer full; otherwise it is polled on |
| `CgiTheorems.NameIsLine` | linux_server/cpt_15_3.h:381-383 | the file name is the request line exactly if the line has no NUL in it |
| `CgiTheorems.LongLineIsDropped` | linux_server/cpt_15_3.h:361-369 | a line that does not fit the buffer is dropped with the next result of `recv` |
| `CgiConns.CgiConn.Init` | linux_server/cpt_15_3.h:348-354 | the buffer is all zeros and holds nothing of any stream yet |
| `CgiConns.CgiConn.Receive` | linux_server/cpt_15_3.h:361-371 | what comes in is appended, never beyond the last but one byte, and the byte behind it is zero |
| `CgiConns.CgiConn.Scan` | linux_server/cpt_15_3.h:373-377 | scanning from the first new byte on finds the first CRLF of the whole buffer, one split between two chunks included |
| `CgiConns.CgiConn.Serve` | linux_server/cpt_15_3.h:381-399 | the file name is the line before the CRLF as a C string; the connection is dropped in every case, and the file started if it is there and `fork` succeeds |
| `CgiConns.CgiConn.Process` | linux_server/cpt_15_3.h:356-402 | the whole loop: the outcome is that of the reference on the stream, and while polling the buffer holds a prefix of the stream without a CRLF, and zeros |

## Left out

- Guaranteed return of `~ThreadPool` and `join`: false; `NotifyAllMissesExactly` says exactly when, for threads that are left to themselves.
- That every worker and call eventually gets the processor: the thread pool theorems bound the runs, and speak of states in which nothing more can happen.
- Tasks of the pool that throw or never return: `packaged_task` keeps exceptions, and a task that does not return simply stays on its worker.
- Destroying the pool while other threads still use it after the destructor has returned, which C++ forbids.
- Integer widths: all numbers are unbounded here; the arithmetic of the source stays within its types for every timeout of type `int` and every clock of 64 bits.
- TimeWheels.FireAndUnlink: the callback is noted by the timer's serial number and not run, since the source has none for the wheel; `user_data` is not modelled.
- Sockets, epoll, fcntl, signals, fork, exec, clocks and printing: their results are inputs.
- Re-arming `alarm` after a tick: when SIGALRM comes is input, and `NoConnectionStaysIdle` takes the distance of the ticks as a parameter.
- The kernel's epoll interest set in the timer server: `epollfd` is shadowed in `linux_server/cpt_11_2_2.h:90`, and only the open descriptors matter.
- The clean-up after the event loops, which closes the remaining descriptors and frees the tables.
- An `accept` that fails or returns a descriptor at or above FD_LIMIT: the source does not check for it.
- TimerServers.TimerServer.NewTimer: the table is made with fixed entries, as an array of structs is, and the client's address and buffer are not modelled.
- CgiConns.CgiConn.Serve: the child's side of `fork`, which runs the file, ends the model there.
- The children of the process pool (`run_child`): the same loop with fewer cases.
- `linux_server/cpt_11_4_1.h`, a near copy of the wheel; `epoll_reactor`, whose work is one map lookup; the demonstrations and both main programs.
- `SocketHandle`, `TcpConnection` and the stress test: small facts about one loop or one move.
