/**
 The thread pool as a transition system: a step is one action of one thread.

 Shared are the mutex, the task queue and the flag `stop`, which the destructor sets without
 the mutex.  A worker, a call of `enqueue` and the destructor each have a program counter.
 The threads waiting on the condition variable are the workers at `Waiting`.  A task is
 named after the call that brought it.
 */
module ThreadPoolSpec {
  /** Where a worker is in its loop; from `TestStop` to `Leaving` it mostly holds the mutex. */
  datatype Worker =
    | Locking               // about to take the mutex, at first or on return from the wait
    | TestStop | TestEmpty  // the two halves of the predicate of the wait
    | Blocking              // the predicate was false: about to release the mutex and sleep
    | Waiting
    | AfterWait             // about to load `stop` again
    | CheckEmpty | Taking
    | Unlocking(task: nat) | Running(task: nat)
    | Leaving | Exited

  datatype Call = Calling | CheckStop | Emplacing | Releasing | Notifying | Accepted | Throwing | Rejected

  datatype Destructor = Alive | Stopped | Joining(next: nat) | Done

  datatype Mutex = Free | ByWorker(i: nat) | ByCall(c: nat)

  datatype Pool = Pool(workers: seq<Worker>, calls: seq<Call>, destructor: Destructor,
                       mutex: Mutex, queue: seq<nat>, stop: bool,
                       accepted: seq<nat>, taken: seq<nat>, returned: seq<nat>)

  datatype Step =
    | Work(i: nat)                // a worker does its next action
    | Spurious(i: nat)            // a wait ends without being notified
    | NewCall                     // some thread calls `enqueue`
    | Proceed(c: nat)             // a call does its next action
    | Notify(c: nat, i: nat)      // its `notify_one` ends the wait of worker i
    | NotifyNobody(c: nat)        // its `notify_one` finds no worker waiting
    | Destroy                     // the destructor does its next action

  /** The constructor: at least one worker. */
  function Init(threadCount: nat): Pool {
    Pool(seq(if threadCount == 0 then 1 else threadCount, _ => Locking), [], Alive, Free, [], false, [], [], [])
  }

  predicate Holds(w: Worker) {
    !w.Locking? && !w.Waiting? && !w.Running? && !w.Exited?
  }

  predicate CallHolds(c: Call) {
    c.CheckStop? || c.Emplacing? || c.Releasing? || c.Throwing?
  }

  predicate HasTask(w: Worker) {
    w.Unlocking? || w.Running?
  }

  /** `front` and `pop` are defined on a queue that is not empty. */
  predicate WorkerCan(p: Pool, i: nat)
    requires i < |p.workers|
  {
    match p.workers[i]
    case Locking => p.mutex.Free?
    case Taking => p.queue != []
    case Waiting => false
    case Exited => false
    case _ => true
  }

  function At(p: Pool, i: nat, w: Worker): Pool
    requires i < |p.workers|
  {
    p.(workers := p.workers[i := w])
  }

  function WorkerMove(p: Pool, i: nat): Pool
    requires i < |p.workers| && WorkerCan(p, i)
  {
    match p.workers[i]
    case Locking => At(p, i, TestStop).(mutex := ByWorker(i))
    case TestStop => At(p, i, if p.stop then AfterWait else TestEmpty)
    case TestEmpty => At(p, i, if p.queue != [] then AfterWait else Blocking)
    case Blocking => At(p, i, Waiting).(mutex := Free)
    case AfterWait => At(p, i, if p.stop then CheckEmpty else Taking)
    case CheckEmpty => At(p, i, if p.queue == [] then Leaving else Taking)
    case Taking => At(p, i, Unlocking(p.queue[0])).(queue := p.queue[1..], taken := p.taken + [p.queue[0]])
    case Unlocking(task) => At(p, i, Running(task)).(mutex := Free)
    case Running(task) => At(p, i, Locking).(returned := p.returned + [task])
    case Leaving => At(p, i, Exited).(mutex := Free)
  }

  predicate CallCan(p: Pool, c: nat)
    requires c < |p.calls|
  {
    match p.calls[c]
    case Calling => p.mutex.Free?
    case Notifying => false
    case Accepted => false
    case Rejected => false
    case _ => true
  }

  function CallAt(p: Pool, c: nat, k: Call): Pool
    requires c < |p.calls|
  {
    p.(calls := p.calls[c := k])
  }

  function CallMove(p: Pool, c: nat): Pool
    requires c < |p.calls| && CallCan(p, c)
  {
    match p.calls[c]
    case Calling => CallAt(p, c, CheckStop).(mutex := ByCall(c))
    case CheckStop => CallAt(p, c, if p.stop then Throwing else Emplacing)
    case Emplacing => CallAt(p, c, Releasing).(queue := p.queue + [c], accepted := p.accepted + [c])
    case Releasing => CallAt(p, c, Notifying).(mutex := Free)
    case Throwing => CallAt(p, c, Rejected).(mutex := Free)
  }

  /** `join` returns once its worker has. */
  predicate DestructorCan(p: Pool) {
    match p.destructor
    case Alive => true
    case Stopped => true
    case Joining(next) => next < |p.workers| ==> p.workers[next].Exited?
    case Done => false
  }

  function WokenAll(workers: seq<Worker>): (woken: seq<Worker>)
    ensures |woken| == |workers|
    ensures forall i :: 0 <= i < |woken| ==> woken[i] == if workers[i].Waiting? then Locking else workers[i]
  {
    seq(|workers|, i requires 0 <= i < |workers| => if workers[i].Waiting? then Locking else workers[i])
  }

  function DestructorMove(p: Pool): Pool
    requires DestructorCan(p)
  {
    match p.destructor
    case Alive => p.(stop := true, destructor := Stopped)
    case Stopped => p.(workers := WokenAll(p.workers), destructor := Joining(0))
    case Joining(next) => p.(destructor := if next < |p.workers| then Joining(next + 1) else Done)
  }

  ghost predicate Enabled(p: Pool, s: Step) {
    match s
    case Work(i) => i < |p.workers| && WorkerCan(p, i)
    case Spurious(i) => i < |p.workers| && p.workers[i].Waiting?
    case NewCall => true
    case Proceed(c) => c < |p.calls| && CallCan(p, c)
    case Notify(c, i) => c < |p.calls| && p.calls[c].Notifying? && i < |p.workers| && p.workers[i].Waiting?
    case NotifyNobody(c) =>
      c < |p.calls| && p.calls[c].Notifying? && forall i :: 0 <= i < |p.workers| ==> !p.workers[i].Waiting?
    case Destroy => DestructorCan(p)
  }

  ghost function Take(p: Pool, s: Step): Pool
    requires Enabled(p, s)
  {
    match s
    case Work(i) => WorkerMove(p, i)
    case Spurious(i) => At(p, i, Locking)
    case NewCall => p.(calls := p.calls + [Calling])
    case Proceed(c) => CallMove(p, c)
    case Notify(c, i) => CallAt(At(p, i, Locking), c, Accepted)
    case NotifyNobody(c) => CallAt(p, c, Accepted)
    case Destroy => DestructorMove(p)
  }

  ghost predicate Legal(p: Pool, steps: seq<Step>)
    decreases |steps|
  {
    steps == [] || (Enabled(p, steps[0]) && Legal(Take(p, steps[0]), steps[1..]))
  }

  ghost function Run(p: Pool, steps: seq<Step>): Pool
    requires Legal(p, steps)
    decreases |steps|
  {
    if steps == [] then p else Run(Take(p, steps[0]), steps[1..])
  }

  ghost predicate Reachable(p: Pool) {
    exists threadCount: nat, steps :: Legal(Init(threadCount), steps) && Run(Init(threadCount), steps) == p
  }
}
