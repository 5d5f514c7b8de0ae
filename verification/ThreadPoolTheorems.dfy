/** What holds of the thread pool under every interleaving. */
module ThreadPoolTheorems {
  import opened Sequences
  import opened ThreadPoolSpec

  // ----- The invariant -----

  /** The mutex knows who holds it. */
  ghost predicate MutexOk(p: Pool) {
    && (forall i :: 0 <= i < |p.workers| ==> Holds(p.workers[i]) == (p.mutex == ByWorker(i)))
    && (forall c :: 0 <= c < |p.calls| ==> CallHolds(p.calls[c]) == (p.mutex == ByCall(c)))
    && (p.mutex.ByWorker? ==> p.mutex.i < |p.workers|)
    && (p.mutex.ByCall? ==> p.mutex.c < |p.calls|)
  }

  predicate Gone(w: Worker) {
    w.Leaving? || w.Exited?
  }

  /** What a worker at `w` can rely on. */
  predicate WorkerOk(w: Worker, queue: seq<nat>, stop: bool) {
    match w
    case AfterWait => stop || queue != []
    case CheckEmpty => stop
    case Taking => queue != []
    case Blocking => queue == []
    case Leaving => stop && queue == []
    case Exited => stop && queue == []
    case _ => true
  }

  /** Once a worker is leaving, no call can bring another task. */
  ghost predicate WorkersOk(p: Pool) {
    && |p.workers| >= 1
    && (p.stop == !p.destructor.Alive?)
    && (forall i :: 0 <= i < |p.workers| ==> WorkerOk(p.workers[i], p.queue, p.stop))
    && (forall i, c :: 0 <= i < |p.workers| && 0 <= c < |p.calls| && Gone(p.workers[i]) ==> !p.calls[c].Emplacing?)
  }

  /** The destructor has joined a prefix of the workers. */
  ghost predicate JoinedOk(p: Pool) {
    && (p.destructor.Joining? ==>
          p.destructor.next <= |p.workers| && forall i :: 0 <= i < p.destructor.next ==> p.workers[i].Exited?)
    && (p.destructor.Done? ==> forall i :: 0 <= i < |p.workers| ==> p.workers[i].Exited?)
  }

  predicate HasEmplaced(c: Call) {
    c.Releasing? || c.Notifying? || c.Accepted?
  }

  /** Accepted tasks are taken in the order of acceptance, and accepted once. */
  ghost predicate QueueOk(p: Pool) {
    && p.accepted == p.taken + p.queue
    && NoRepeats(p.accepted)
    && (forall t :: t in p.accepted ==> t < |p.calls| && HasEmplaced(p.calls[t]))
    && (forall c :: 0 <= c < |p.calls| && HasEmplaced(p.calls[c]) ==> c in p.accepted)
    && (forall c :: 0 <= c < |p.calls| && (p.calls[c].Throwing? || p.calls[c].Rejected?) ==> p.stop)
  }

  ghost predicate OnWorker(workers: seq<Worker>, t: nat) {
    exists i :: 0 <= i < |workers| && HasTask(workers[i]) && workers[i].task == t
  }

  /** A task taken is on one worker, or has returned once. */
  ghost predicate FatesOk(p: Pool) {
    && NoRepeats(p.returned)
    && (forall t :: t in p.returned ==> t in p.taken)
    && (forall t :: t in p.taken ==> t in p.returned || OnWorker(p.workers, t))
    && (forall i :: 0 <= i < |p.workers| && HasTask(p.workers[i]) ==>
          p.workers[i].task in p.taken && p.workers[i].task !in p.returned)
    && (forall i, j :: 0 <= i < j < |p.workers| && HasTask(p.workers[i]) && HasTask(p.workers[j]) ==>
          p.workers[i].task != p.workers[j].task)
  }

  /** A worker that is on its way to look at the queue. */
  predicate Active(w: Worker) {
    !w.Blocking? && !w.Waiting? && !Gone(w)
  }

  /** Some worker is on its way to the queue, or some call is yet to notify one. */
  ghost predicate Awake(p: Pool) {
    || (exists i :: 0 <= i < |p.workers| && Active(p.workers[i]))
    || (exists c :: 0 <= c < |p.calls| && (p.calls[c].Releasing? || p.calls[c].Notifying?))
  }

  ghost predicate Inv(p: Pool) {
    && MutexOk(p) && WorkersOk(p) && JoinedOk(p) && QueueOk(p) && FatesOk(p)
    && (p.queue != [] ==> Awake(p))
  }

  // ----- Every step keeps it -----

  lemma MutexWorker(p: Pool, i: nat)
    requires MutexOk(p) && i < |p.workers| && WorkerCan(p, i)
    ensures MutexOk(WorkerMove(p, i))
  {
    assert Holds(p.workers[i]) == (p.mutex == ByWorker(i));
  }

  lemma MutexCall(p: Pool, c: nat)
    requires MutexOk(p) && c < |p.calls| && CallCan(p, c)
    ensures MutexOk(CallMove(p, c))
  {
  }

  lemma StepMutex(p: Pool, s: Step)
    requires MutexOk(p) && Enabled(p, s)
    ensures MutexOk(Take(p, s))
  {
    hide WorkerMove, CallMove;
    match s
    case Work(i) => MutexWorker(p, i);
    case Proceed(c) => MutexCall(p, c);
    case _ =>
  }

  /** While a thread holds the mutex no other does. */
  lemma OneHolder(p: Pool, i: nat)
    requires MutexOk(p) && i < |p.workers| && Holds(p.workers[i])
    ensures forall j :: 0 <= j < |p.workers| && j != i ==> !Holds(p.workers[j])
    ensures forall c :: 0 <= c < |p.calls| ==> !CallHolds(p.calls[c])
  {
  }

  lemma OneCallHolds(p: Pool, c: nat)
    requires MutexOk(p) && c < |p.calls| && CallHolds(p.calls[c])
    ensures forall j :: 0 <= j < |p.workers| ==> !Holds(p.workers[j])
    ensures forall d :: 0 <= d < |p.calls| && d != c ==> !CallHolds(p.calls[d])
  {
  }

  lemma WorkersWorker(p: Pool, i: nat)
    requires MutexOk(p) && WorkersOk(p) && i < |p.workers| && WorkerCan(p, i)
    ensures WorkersOk(WorkerMove(p, i))
  {
    hide MutexOk;
    assert WorkerOk(p.workers[i], p.queue, p.stop);
    if Holds(p.workers[i]) {
      OneHolder(p, i);
    }
  }

  lemma WorkersCall(p: Pool, c: nat)
    requires MutexOk(p) && WorkersOk(p) && c < |p.calls| && CallCan(p, c)
    ensures WorkersOk(CallMove(p, c))
  {
    hide MutexOk;
    if CallHolds(p.calls[c]) {
      OneCallHolds(p, c);
    }
  }

  lemma StepWorkers(p: Pool, s: Step)
    requires MutexOk(p) && WorkersOk(p) && Enabled(p, s)
    ensures WorkersOk(Take(p, s))
  {
    hide WorkerMove, CallMove, MutexOk;
    match s
    case Work(i) => WorkersWorker(p, i);
    case Proceed(c) => WorkersCall(p, c);
    case _ =>
  }

  lemma JoinedWorker(p: Pool, i: nat)
    requires JoinedOk(p) && i < |p.workers| && WorkerCan(p, i)
    ensures JoinedOk(WorkerMove(p, i))
  {
  }

  lemma JoinedDestructor(p: Pool)
    requires JoinedOk(p) && DestructorCan(p)
    ensures JoinedOk(DestructorMove(p))
  {
  }

  lemma StepJoined(p: Pool, s: Step)
    requires JoinedOk(p) && Enabled(p, s)
    ensures JoinedOk(Take(p, s))
  {
    hide WorkerMove, DestructorMove;
    match s
    case Work(i) => JoinedWorker(p, i);
    case Destroy => JoinedDestructor(p);
    case _ =>
  }

  lemma QueueWorker(p: Pool, i: nat)
    requires QueueOk(p) && i < |p.workers| && WorkerCan(p, i)
    ensures QueueOk(WorkerMove(p, i))
  {
    assert p.workers[i].Taking? ==> p.queue == [p.queue[0]] + p.queue[1..];
  }

  lemma QueueCall(p: Pool, c: nat)
    requires QueueOk(p) && c < |p.calls| && CallCan(p, c)
    ensures QueueOk(CallMove(p, c))
  {
    var p' := CallMove(p, c);
    if p.calls[c].Emplacing? {
      assert c !in p.accepted;
      assert p'.accepted[|p.accepted|] == c;
    }
  }

  lemma StepQueue(p: Pool, s: Step)
    requires QueueOk(p) && Enabled(p, s)
    ensures QueueOk(Take(p, s))
  {
    hide WorkerMove, CallMove;
    match s
    case Work(i) => QueueWorker(p, i);
    case Proceed(c) => QueueCall(p, c);
    case _ =>
  }

  ghost predicate SameTasks(workers: seq<Worker>, workers': seq<Worker>) {
    && |workers| == |workers'|
    && forall i :: 0 <= i < |workers| ==>
         HasTask(workers[i]) == HasTask(workers'[i]) &&
         (HasTask(workers[i]) ==> workers[i].task == workers'[i].task)
  }

  lemma FatesKept(p: Pool, p': Pool)
    requires FatesOk(p) && SameTasks(p.workers, p'.workers) && p.taken == p'.taken && p.returned == p'.returned
    ensures FatesOk(p')
  {
  }

  lemma FatesTake(p: Pool, i: nat)
    requires QueueOk(p) && FatesOk(p) && i < |p.workers| && p.workers[i].Taking? && WorkerCan(p, i)
    ensures FatesOk(WorkerMove(p, i))
  {
    var p', t := WorkerMove(p, i), p.queue[0];
    assert p.accepted[|p.taken|] == t;
    assert forall k :: 0 <= k < |p.taken| ==> p.taken[k] == p.accepted[k];
    assert t !in p.taken;
    forall u | u in p'.taken && u !in p'.returned ensures OnWorker(p'.workers, u) {
      var j := i;
      if u != t {
        j :| 0 <= j < |p.workers| && HasTask(p.workers[j]) && p.workers[j].task == u;
      }
      assert HasTask(p'.workers[j]) && p'.workers[j].task == u;
    }
  }

  lemma FatesReturn(p: Pool, i: nat)
    requires FatesOk(p) && i < |p.workers| && p.workers[i].Running?
    ensures FatesOk(WorkerMove(p, i))
  {
    var p', t := WorkerMove(p, i), p.workers[i].task;
    assert p'.returned[|p.returned|] == t;
    forall u | u in p'.taken && u !in p'.returned ensures OnWorker(p'.workers, u) {
      var j :| 0 <= j < |p.workers| && HasTask(p.workers[j]) && p.workers[j].task == u;
      assert j != i && HasTask(p'.workers[j]) && p'.workers[j].task == u;
    }
  }

  lemma StepFates(p: Pool, s: Step)
    requires QueueOk(p) && FatesOk(p) && Enabled(p, s)
    ensures FatesOk(Take(p, s))
  {
    hide FatesOk, QueueOk;
    if s.Work? && p.workers[s.i].Taking? {
      FatesTake(p, s.i);
    } else if s.Work? && p.workers[s.i].Running? {
      FatesReturn(p, s.i);
    } else {
      FatesKept(p, Take(p, s));
    }
  }

  lemma AwakeByWorker(p: Pool, i: nat)
    requires i < |p.workers| && Active(p.workers[i])
    ensures Awake(p)
  {
  }

  lemma AwakeByCall(p: Pool, c: nat)
    requires c < |p.calls| && (p.calls[c].Releasing? || p.calls[c].Notifying?)
    ensures Awake(p)
  {
  }

  lemma ReliesOn(p: Pool, i: nat)
    requires WorkersOk(p) && i < |p.workers|
    ensures WorkerOk(p.workers[i], p.queue, p.stop)
  {
  }

  /** A worker that moves and leaves tasks behind stays awake itself. */
  lemma AwakeWorker(p: Pool, i: nat)
    requires i < |p.workers| && WorkerCan(p, i) && WorkerOk(p.workers[i], p.queue, p.stop)
    ensures WorkerMove(p, i).queue != [] ==> Awake(WorkerMove(p, i))
  {
    var p' := WorkerMove(p, i);
    if p'.queue != [] {
      AwakeByWorker(p', i);
    }
  }

  lemma AwakeCall(p: Pool, c: nat)
    requires (p.queue != [] ==> Awake(p)) && c < |p.calls| && CallCan(p, c)
    ensures CallMove(p, c).queue != [] ==> Awake(CallMove(p, c))
  {
    var p' := CallMove(p, c);
    if p.calls[c].Emplacing? || p.calls[c].Releasing? {
      AwakeByCall(p', c);
    } else if p'.queue != [] {
      StillAwake(p, p');
    }
  }

  /** Who is awake stays so if no active worker and no call yet to notify moves. */
  lemma StillAwake(p: Pool, p': Pool)
    requires Awake(p) && |p.workers| == |p'.workers| && |p.calls| <= |p'.calls|
    requires forall i :: 0 <= i < |p.workers| && Active(p.workers[i]) ==> Active(p'.workers[i])
    requires forall c :: 0 <= c < |p.calls| && (p.calls[c].Releasing? || p.calls[c].Notifying?) ==>
               p'.calls[c] == p.calls[c]
    ensures Awake(p')
  {
    if i :| 0 <= i < |p.workers| && Active(p.workers[i]) {
      AwakeByWorker(p', i);
    } else {
      var c :| 0 <= c < |p.calls| && (p.calls[c].Releasing? || p.calls[c].Notifying?);
      AwakeByCall(p', c);
    }
  }

  lemma StepAwake(p: Pool, s: Step)
    requires |p.workers| >= 1 && WorkersOk(p) && (p.queue != [] ==> Awake(p)) && Enabled(p, s)
    ensures Take(p, s).queue != [] ==> Awake(Take(p, s))
  {
    hide WorkersOk, Awake, WorkerMove, CallMove;
    var p' := Take(p, s);
    match s
    case Work(i) =>
      ReliesOn(p, i);
      AwakeWorker(p, i);
    case Spurious(i) => AwakeByWorker(p', i);
    case Proceed(c) => AwakeCall(p, c);
    case Notify(c, i) => AwakeByWorker(p', i);
    case NotifyNobody(c) =>
      ReliesOn(p, 0);
      if p'.queue != [] {
        AwakeByWorker(p', 0);
      }
    case _ =>
      if p'.queue != [] {
        StillAwake(p, p');
      }
  }

  lemma StepInv(p: Pool, s: Step)
    requires Inv(p) && Enabled(p, s)
    ensures Inv(Take(p, s))
  {
    assert |p.workers| >= 1;
    hide MutexOk, JoinedOk, QueueOk, FatesOk, Awake, Take, Enabled;
    StepMutex(p, s);
    StepWorkers(p, s);
    StepJoined(p, s);
    StepQueue(p, s);
    StepFates(p, s);
    StepAwake(p, s);
  }

  lemma {:induction false} RunInv(p: Pool, steps: seq<Step>)
    requires Inv(p) && Legal(p, steps)
    ensures Inv(Run(p, steps))
    decreases |steps|
  {
    hide Inv, Take, Enabled;
    if steps != [] {
      StepInv(p, steps[0]);
      RunInv(Take(p, steps[0]), steps[1..]);
    }
  }

  lemma InitInv(threadCount: nat)
    ensures Inv(Init(threadCount))
  {
  }

  /** The invariant holds in every state any interleaving leads to. */
  lemma {:induction false} ReachableInv(p: Pool)
    requires Reachable(p)
    ensures Inv(p)
  {
    hide Inv, Init, Take, Enabled;
    var threadCount: nat, steps :| Legal(Init(threadCount), steps) && Run(Init(threadCount), steps) == p;
    InitInv(threadCount);
    RunInv(Init(threadCount), steps);
  }

  lemma {:induction false} RunConcat(p: Pool, steps: seq<Step>, more: seq<Step>)
    requires Legal(p, steps) && Legal(Run(p, steps), more)
    ensures Legal(p, steps + more) && Run(p, steps + more) == Run(Run(p, steps), more)
    decreases |steps|
  {
    hide Take, Enabled;
    if steps == [] {
      assert steps + more == more;
    } else {
      RunConcat(Take(p, steps[0]), steps[1..], more);
      assert (steps + more)[1..] == steps[1..] + more;
    }
  }

  lemma {:induction false} StillReachable(p: Pool, steps: seq<Step>)
    requires Reachable(p) && Legal(p, steps)
    ensures Reachable(Run(p, steps))
  {
    hide Init, Take, Enabled;
    var threadCount: nat, before :| Legal(Init(threadCount), before) && Run(Init(threadCount), before) == p;
    RunConcat(Init(threadCount), before, steps);
  }

  lemma {:induction false} StepReachable(p: Pool, s: Step)
    requires Reachable(p) && Enabled(p, s)
    ensures Reachable(Take(p, s))
  {
    hide Reachable, Enabled, Take;
    assert [s][1..] == [];
    StillReachable(p, [s]);
  }

  // ----- Draining -----

  /** Once a worker has exited the queue is empty and stays so: no task is accepted any more. */
  lemma {:induction false} DrainedForGood(p: Pool, i: nat, steps: seq<Step>)
    requires Reachable(p) && i < |p.workers| && p.workers[i].Exited? && Legal(p, steps)
    ensures var p' := Run(p, steps);
            && p.queue == [] && p'.queue == [] && p'.accepted == p.accepted
            && i < |p'.workers| && p'.workers[i].Exited?
  {
    ReachableInv(p);
    StaysDrained(p, i, steps);
  }

  lemma {:induction false} StaysDrained(p: Pool, i: nat, steps: seq<Step>)
    requires Inv(p) && i < |p.workers| && p.workers[i].Exited? && Legal(p, steps)
    ensures var p' := Run(p, steps);
            && p.queue == [] && p'.queue == [] && p'.accepted == p.accepted
            && i < |p'.workers| && p'.workers[i].Exited?
    decreases |steps|
  {
    hide MutexOk, JoinedOk, QueueOk, FatesOk, Awake;
    assert WorkerOk(p.workers[i], p.queue, p.stop);
    if steps != [] {
      StepInv(p, steps[0]);
      var p1 := Take(p, steps[0]);
      assert p1.accepted == p.accepted && i < |p1.workers| && p1.workers[i].Exited?;
      StaysDrained(p1, i, steps[1..]);
    }
  }

  /** Every accepted task has run to its end, exactly once, and no other task has run. */
  ghost predicate AllHaveRun(p: Pool) {
    && p.queue == [] && p.taken == p.accepted
    && NoRepeats(p.returned)
    && (forall t :: t in p.returned <==> t in p.accepted)
    && (forall c :: 0 <= c < |p.calls| && HasEmplaced(p.calls[c]) ==> c in p.returned)
  }

  lemma AllHaveRunWhen(p: Pool)
    requires Inv(p) && p.queue == [] && forall i :: 0 <= i < |p.workers| ==> !HasTask(p.workers[i])
    ensures AllHaveRun(p)
  {
  }

  /** When all workers have exited each accepted task has run exactly once. */
  lemma EveryAcceptedTaskRanOnce(p: Pool)
    requires Reachable(p) && forall i :: 0 <= i < |p.workers| ==> p.workers[i].Exited?
    ensures AllHaveRun(p)
  {
    ReachableInv(p);
    assert WorkerOk(p.workers[0], p.queue, p.stop);
    AllHaveRunWhen(p);
  }

  /** In particular this is so when the destructor has returned. */
  lemma DestructorLeavesNothingBehind(p: Pool)
    requires Reachable(p) && p.destructor.Done?
    ensures AllHaveRun(p)
  {
    ReachableInv(p);
    EveryAcceptedTaskRanOnce(p);
  }

  /** A call throws only after the destructor has begun, and then its task is never accepted. */
  lemma RejectedMeansStopped(p: Pool, c: nat)
    requires Reachable(p) && c < |p.calls| && p.calls[c].Rejected?
    ensures p.stop && c !in p.accepted && c !in p.returned
  {
    ReachableInv(p);
  }

  /** Tasks are taken in the order in which they were accepted, and none gets lost on the way. */
  lemma TakenInOrder(p: Pool)
    requires Reachable(p)
    ensures p.accepted == p.taken + p.queue && NoRepeats(p.accepted)
    ensures forall t :: t in p.taken <==> t in p.returned || OnWorker(p.workers, t)
    ensures forall t :: !(t in p.returned && OnWorker(p.workers, t))
    ensures forall i, j :: 0 <= i < j < |p.workers| && HasTask(p.workers[i]) && HasTask(p.workers[j]) ==>
              p.workers[i].task != p.workers[j].task
  {
    ReachableInv(p);
  }

  // ----- First in, first out -----

  /** A call that emplaces adds itself at the end; a worker that takes removes the front of the queue. */
  lemma StepAppends(p: Pool, s: Step)
    requires QueueOk(p) && Enabled(p, s)
    ensures Take(p, s).accepted == p.accepted + if s.Proceed? && p.calls[s.c].Emplacing? then [s.c] else []
    ensures Take(p, s).taken == p.taken + if s.Work? && p.workers[s.i].Taking? then [p.accepted[|p.taken|]] else []
  {
  }

  lemma {:induction false} RunAppends(p: Pool, steps: seq<Step>)
    requires Inv(p) && Legal(p, steps)
    ensures p.accepted <= Run(p, steps).accepted && p.taken <= Run(p, steps).taken
    decreases |steps|
  {
    hide MutexOk, WorkersOk, JoinedOk, QueueOk, FatesOk, Awake, Take, Enabled;
    if steps != [] {
      StepInv(p, steps[0]);
      StepAppends(p, steps[0]);
      RunAppends(Take(p, steps[0]), steps[1..]);
    }
  }

  /** The task of call `c` is taken before that of call `d`. */
  ghost predicate TakenBefore(p: Pool, c: nat, d: nat) {
    exists j, k :: 0 <= j < k < |p.taken| && p.taken[j] == c && p.taken[k] == d
  }

  /** A call that emplaces before another has its task taken before the other's. */
  lemma {:induction false} FirstInFirstOut(p: Pool, c: nat, d: nat, steps: seq<Step>)
    requires Reachable(p) && c < |p.calls| && HasEmplaced(p.calls[c])
    requires d < |p.calls| ==> !HasEmplaced(p.calls[d])
    requires Legal(p, steps) && d in Run(p, steps).taken
    ensures TakenBefore(Run(p, steps), c, d)
  {
    var q := Run(p, steps);
    ReachableInv(p);
    StillReachable(p, steps);
    ReachableInv(q);
    RunAppends(p, steps);
    var j :| 0 <= j < |p.accepted| && p.accepted[j] == c;
    var k :| 0 <= k < |q.taken| && q.taken[k] == d;
    assert q.accepted[j] == c && q.accepted[k] == d;
    assert d !in p.accepted;
    assert q.taken[j] == c;
  }

  // ----- The workers -----

  /** There are as many workers as asked for, at least one, at all times. */
  lemma {:induction false} WorkersNeverChange(threadCount: nat, steps: seq<Step>)
    requires Legal(Init(threadCount), steps)
    ensures |Run(Init(threadCount), steps).workers| == if threadCount == 0 then 1 else threadCount
  {
    SameWorkers(Init(threadCount), steps);
  }

  lemma {:induction false} SameWorkers(p: Pool, steps: seq<Step>)
    requires Legal(p, steps)
    ensures |Run(p, steps).workers| == |p.workers|
    decreases |steps|
  {
    if steps != [] {
      SameWorkers(Take(p, steps[0]), steps[1..]);
    }
  }
}
