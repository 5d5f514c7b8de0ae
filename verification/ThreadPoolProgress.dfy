/**
 How the thread pool comes to rest: it never locks itself up, left to itself it stops after
 boundedly many actions, and exactly when its destructor can be left waiting for ever.
 */
module ThreadPoolProgress {
  import opened ThreadPoolSpec
  import opened ThreadPoolTheorems

  // ----- Coming to a stop -----

  /** With tasks in the queue some worker is on its way to them, or some call is yet to notify. */
  lemma NoStrandedTask(p: Pool)
    requires Reachable(p) && p.queue != []
    ensures Awake(p)
  {
    ReachableInv(p);
  }

  /** No thread of the pool can move: only a spurious wake-up, a new call or the destructor could. */
  ghost predicate Quiet(p: Pool) {
    forall s :: Enabled(p, s) ==> s.Spurious? || s.NewCall? || s.Destroy?
  }

  ghost predicate AllAtRest(p: Pool) {
    && (forall i :: 0 <= i < |p.workers| ==> p.workers[i].Waiting? || p.workers[i].Exited?)
    && (forall c :: 0 <= c < |p.calls| ==> p.calls[c].Accepted? || p.calls[c].Rejected?)
  }

  /** Whoever holds the mutex can move, so it is given back. */
  lemma HolderCanMove(p: Pool) returns (s: Step)
    requires Inv(p) && !p.mutex.Free?
    ensures Enabled(p, s) && (s.Work? || s.Proceed?)
  {
    if p.mutex.ByWorker? {
      s := Work(p.mutex.i);
      assert WorkerOk(p.workers[s.i], p.queue, p.stop);
    } else {
      s := Proceed(p.mutex.c);
    }
  }

  lemma NotifierCanMove(p: Pool, c: nat) returns (s: Step)
    requires c < |p.calls| && p.calls[c].Notifying?
    ensures Enabled(p, s) && (s.Notify? || s.NotifyNobody?)
  {
    if i: nat :| i < |p.workers| && p.workers[i].Waiting? {
      s := Notify(c, i);
    } else {
      s := NotifyNobody(c);
    }
  }

  lemma QuietIsAtRest(p: Pool)
    requires Inv(p) && Quiet(p)
    ensures AllAtRest(p)
  {
    if !p.mutex.Free? {
      var s := HolderCanMove(p);
    }
    forall i | 0 <= i < |p.workers| ensures p.workers[i].Waiting? || p.workers[i].Exited? {
      assert !Enabled(p, Work(i));
      assert !Holds(p.workers[i]);
    }
    forall c | 0 <= c < |p.calls| ensures p.calls[c].Accepted? || p.calls[c].Rejected? {
      assert !Enabled(p, Proceed(c));
      if p.calls[c].Notifying? {
        var s := NotifierCanMove(p, c);
      }
    }
  }

  /**
   The pool never locks itself up: it comes to a stop only when every call has returned and
   every worker waits or has exited, and then every accepted task has been run.
   */
  lemma QuietExactlyAtRest(p: Pool)
    requires Reachable(p)
    ensures Quiet(p) <==> AllAtRest(p)
    ensures Quiet(p) ==> AllHaveRun(p)
  {
    ReachableInv(p);
    if Quiet(p) {
      QuietIsAtRest(p);
      AllHaveRunWhen(p);
    }
  }

  lemma {:induction false} CallsStay(p: Pool, steps: seq<Step>)
    requires Legal(p, steps)
    ensures |p.calls| <= |Run(p, steps).calls|
    decreases |steps|
  {
    if steps != [] {
      CallsStay(Take(p, steps[0]), steps[1..]);
    }
  }

  /** Every new call is answered: once the pool is at a stop, its task has run, or it was refused by a stopped pool. */
  lemma EveryCallIsAnswered(p: Pool, steps: seq<Step>)
    requires Reachable(p) && Legal(Take(p, NewCall), steps) && Quiet(Run(Take(p, NewCall), steps))
    ensures var q := Run(Take(p, NewCall), steps);
            |p.calls| < |q.calls| && (|p.calls| in q.returned || (q.calls[|p.calls|].Rejected? && q.stop))
  {
    var q := Run(Take(p, NewCall), steps);
    CallsStay(Take(p, NewCall), steps);
    StepReachable(p, NewCall);
    StillReachable(Take(p, NewCall), steps);
    QuietExactlyAtRest(q);
    if q.calls[|p.calls|].Rejected? {
      RejectedMeansStopped(q, |p.calls|);
    }
  }

  // ----- Every run stops -----

  /** How many more actions a worker has before it waits or exits; those for further tasks come extra. */
  function Rank(w: Worker): nat {
    match w
    case Locking => 6
    case TestStop => 5
    case TestEmpty => 4
    case AfterWait => 3
    case CheckEmpty => 2
    case Taking => 1
    case Blocking => 1
    case Leaving => 1
    case Waiting => 0
    case Exited => 0
    case Unlocking(_) => 8
    case Running(_) => 7
  }

  /** A call brings its own actions, those its task makes for a worker, and a wake-up. */
  function CallRank(c: Call): nat {
    match c
    case Calling => 19
    case CheckStop => 18
    case Emplacing => 17
    case Releasing => 8
    case Notifying => 7
    case Throwing => 1
    case Accepted => 0
    case Rejected => 0
  }

  function DestructorRank(d: Destructor, workers: nat): nat {
    match d
    case Alive => 7 * workers + 3
    case Stopped => 7 * workers + 2
    case Joining(next) => if next < workers then workers - next + 1 else 1
    case Done => 0
  }

  function Ranks(workers: seq<Worker>): nat {
    if workers == [] then 0 else Rank(workers[0]) + Ranks(workers[1..])
  }

  function CallRanks(calls: seq<Call>): nat {
    if calls == [] then 0 else CallRank(calls[0]) + CallRanks(calls[1..])
  }

  /** How many actions the threads have left between them, at most, if nothing new comes in. */
  function ActionsLeft(p: Pool): nat {
    Ranks(p.workers) + 8 * |p.queue| + CallRanks(p.calls) + DestructorRank(p.destructor, |p.workers|)
  }

  lemma {:induction false} RanksUpdate(workers: seq<Worker>, i: nat, w: Worker)
    requires i < |workers|
    ensures Ranks(workers[i := w]) == Ranks(workers) - Rank(workers[i]) + Rank(w)
  {
    if i > 0 {
      RanksUpdate(workers[1..], i - 1, w);
      assert workers[i := w][1..] == workers[1..][i - 1 := w];
    }
  }

  lemma {:induction false} CallRanksUpdate(calls: seq<Call>, c: nat, k: Call)
    requires c < |calls|
    ensures CallRanks(calls[c := k]) == CallRanks(calls) - CallRank(calls[c]) + CallRank(k)
  {
    if c > 0 {
      CallRanksUpdate(calls[1..], c - 1, k);
      assert calls[c := k][1..] == calls[1..][c - 1 := k];
    }
  }

  lemma {:induction false} RanksWoken(workers: seq<Worker>)
    ensures Ranks(WokenAll(workers)) <= Ranks(workers) + 6 * |workers|
  {
    if workers != [] {
      RanksWoken(workers[1..]);
      assert WokenAll(workers)[1..] == WokenAll(workers[1..]);
    }
  }

  /** A step that some thread of the pool takes on its own account. */
  predicate OwnStep(s: Step) {
    !s.Spurious? && !s.NewCall?
  }

  ghost predicate OwnSteps(steps: seq<Step>) {
    forall k :: 0 <= k < |steps| ==> OwnStep(steps[k])
  }

  lemma WorkIsProgress(p: Pool, i: nat)
    requires i < |p.workers| && WorkerCan(p, i)
    ensures ActionsLeft(WorkerMove(p, i)) < ActionsLeft(p)
  {
    RanksUpdate(p.workers, i, WorkerMove(p, i).workers[i]);
  }

  lemma CallIsProgress(p: Pool, c: nat)
    requires c < |p.calls| && CallCan(p, c)
    ensures ActionsLeft(CallMove(p, c)) < ActionsLeft(p)
  {
    CallRanksUpdate(p.calls, c, CallMove(p, c).calls[c]);
  }

  lemma StepIsProgress(p: Pool, s: Step)
    requires Enabled(p, s) && OwnStep(s)
    ensures ActionsLeft(Take(p, s)) < ActionsLeft(p)
  {
    match s
    case Work(i) => WorkIsProgress(p, i);
    case Proceed(c) => CallIsProgress(p, c);
    case Notify(c, i) =>
      RanksUpdate(p.workers, i, Locking);
      CallRanksUpdate(p.calls, c, Accepted);
    case NotifyNobody(c) => CallRanksUpdate(p.calls, c, Accepted);
    case Destroy => RanksWoken(p.workers);
  }

  lemma {:induction false} RunIsProgress(p: Pool, steps: seq<Step>)
    requires Legal(p, steps) && OwnSteps(steps)
    ensures ActionsLeft(Run(p, steps)) + |steps| <= ActionsLeft(p)
    decreases |steps|
  {
    hide ActionsLeft, Take, Enabled, OwnStep;
    if steps != [] {
      StepIsProgress(p, steps[0]);
      RunIsProgress(Take(p, steps[0]), steps[1..]);
    }
  }

  /** Not even the destructor can move. */
  ghost predicate Settled(p: Pool) {
    forall s :: Enabled(p, s) ==> !OwnStep(s)
  }

  /**
   However it is scheduled, the pool left to itself settles after boundedly many actions, and
   whenever it has settled every accepted task has run.
   */
  lemma EveryRunSettles(p: Pool, steps: seq<Step>)
    requires Reachable(p) && Legal(p, steps) && OwnSteps(steps)
    ensures |steps| <= ActionsLeft(p)
    ensures Settled(Run(p, steps)) ==> AllHaveRun(Run(p, steps))
  {
    RunIsProgress(p, steps);
    StillReachable(p, steps);
    QuietExactlyAtRest(Run(p, steps));
  }

  /** A run can always be carried on until the pool has settled. */
  lemma {:induction false} CanSettle(p: Pool) returns (steps: seq<Step>)
    ensures Legal(p, steps) && OwnSteps(steps) && Settled(Run(p, steps))
    decreases ActionsLeft(p)
  {
    hide ActionsLeft, Take, Enabled, OwnStep;
    if Settled(p) {
      steps := [];
    } else {
      var s :| Enabled(p, s) && OwnStep(s);
      StepIsProgress(p, s);
      var more := CanSettle(Take(p, s));
      steps := [s] + more;
      assert steps[1..] == more;
    }
  }

  // ----- The destructor -----

  /** A worker that has found `stop` false and the queue empty, but does not sleep yet. */
  predicate AboutToSleep(w: Worker, queue: seq<nat>) {
    w.Blocking? || (w.TestEmpty? && queue == [])
  }

  ghost predicate SomeoneAboutToSleep(p: Pool) {
    exists i :: 0 <= i < |p.workers| && AboutToSleep(p.workers[i], p.queue)
  }

  /** The destructor is in a `join` that does not return, and no thread can move: only a spurious wake-up can help. */
  ghost predicate Stuck(p: Pool) {
    Quiet(p) && p.destructor.Joining? && !DestructorCan(p)
  }

  ghost predicate CanGetStuck(p: Pool) {
    exists steps :: Legal(p, steps) && Stuck(Run(p, steps))
  }

  /** The workers have been told: none sleeps, and none is about to. */
  ghost predicate AllTold(p: Pool) {
    p.stop && forall i :: 0 <= i < |p.workers| ==> !p.workers[i].Waiting? && !AboutToSleep(p.workers[i], p.queue)
  }

  lemma StepAllTold(p: Pool, s: Step)
    requires MutexOk(p) && AllTold(p) && Enabled(p, s)
    ensures AllTold(Take(p, s))
  {
    var p' := Take(p, s);
    if s.Work? {
      var i := s.i;
      assert !AboutToSleep(p.workers[i], p.queue);
      if p.workers[i].Taking? {
        OneHolder(p, i);
      }
    }
  }

  lemma {:induction false} StaysTold(p: Pool, steps: seq<Step>)
    requires Inv(p) && AllTold(p) && Legal(p, steps)
    ensures AllTold(Run(p, steps))
    decreases |steps|
  {
    hide AllTold, MutexOk, WorkersOk, JoinedOk, QueueOk, FatesOk, Awake, Take, Enabled;
    if steps != [] {
      StepAllTold(p, steps[0]);
      StepInv(p, steps[0]);
      StaysTold(Take(p, steps[0]), steps[1..]);
    }
  }

  /** Worker `i` sleeps, and nobody is left who would wake it: no call that has emplaced, no `notify_all`. */
  ghost predicate Forgotten(p: Pool, i: nat) {
    && i < |p.workers| && p.workers[i].Waiting?
    && p.stop && (p.destructor.Joining? || p.destructor.Done?)
    && (forall c :: 0 <= c < |p.calls| ==>
          !p.calls[c].Emplacing? && !p.calls[c].Releasing? && !p.calls[c].Notifying?)
  }

  lemma StepForgotten(p: Pool, i: nat, s: Step)
    requires Forgotten(p, i) && Enabled(p, s) && s != Spurious(i)
    ensures Forgotten(Take(p, s), i)
  {
  }

  lemma {:induction false} StaysForgotten(p: Pool, i: nat, steps: seq<Step>)
    requires Forgotten(p, i) && Legal(p, steps) && Spurious(i) !in steps
    ensures Forgotten(Run(p, steps), i)
    decreases |steps|
  {
    hide Forgotten, Take, Enabled;
    if steps != [] {
      StepForgotten(p, i, steps[0]);
      StaysForgotten(Take(p, steps[0]), i, steps[1..]);
    }
  }

  /** Behind the `notify_all`: nobody sleeps, but worker `i` is about to. */
  ghost predicate Missed(p: Pool, i: nat) {
    && i < |p.workers| && AboutToSleep(p.workers[i], p.queue) && p.stop && p.destructor.Joining?
    && forall j :: 0 <= j < |p.workers| ==> !p.workers[j].Waiting?
  }

  /** The notifications under way hit nobody, and then worker `i` falls asleep. */
  lemma {:induction false} FallsAsleep(p: Pool, i: nat) returns (steps: seq<Step>)
    requires Inv(p) && Missed(p, i)
    ensures Legal(p, steps) && Forgotten(Run(p, steps), i)
    decreases ActionsLeft(p)
  {
    if p.workers[i].Blocking? && forall c :: 0 <= c < |p.calls| ==> !p.calls[c].Notifying? {
      OneHolder(p, i);
      steps := [Work(i)];
      assert steps[1..] == [];
    } else {
      var s := NextMissed(p, i);
      StepInv(p, s);
      StepIsProgress(p, s);
      var more := FallsAsleep(Take(p, s), i);
      steps := [s] + more;
      assert steps[1..] == more;
    }
  }

  lemma NextMissed(p: Pool, i: nat) returns (s: Step)
    requires Inv(p) && Missed(p, i)
    requires p.workers[i].TestEmpty? || exists c :: 0 <= c < |p.calls| && p.calls[c].Notifying?
    ensures Enabled(p, s) && OwnStep(s) && Missed(Take(p, s), i)
  {
    if c :| 0 <= c < |p.calls| && p.calls[c].Notifying? {
      s := NotifyNobody(c);
    } else {
      s := Work(i);
    }
  }

  lemma ForgottenIsStuck(p: Pool, i: nat)
    requires Inv(p) && Forgotten(p, i) && Settled(p)
    ensures Stuck(p)
  {
    hide MutexOk, WorkersOk, QueueOk, FatesOk, Awake;
    assert !Enabled(p, Destroy);
  }

  lemma NotSpurious(steps: seq<Step>, i: nat)
    requires OwnSteps(steps)
    ensures Spurious(i) !in steps
  {
  }

  lemma GetsStuck(p: Pool, i: nat)
    requires Inv(p) && Missed(p, i)
    ensures CanGetStuck(p)
  {
    hide Inv, Missed, Forgotten, Settled, Stuck, Take, Enabled, OwnStep, Run, Legal;
    var steps := FallsAsleep(p, i);
    RunInv(p, steps);
    var more := CanSettle(Run(p, steps));
    NotSpurious(more, i);
    StaysForgotten(Run(p, steps), i, more);
    RunInv(Run(p, steps), more);
    RunConcat(p, steps, more);
    ForgottenIsStuck(Run(p, steps + more), i);
  }

  /**
   When the threads have come to a stop, the destructor is held up exactly if the worker it
   joins sleeps.  Even then every accepted task has run.
   */
  lemma DestructorWaitsExactlyForASleeper(p: Pool)
    requires Reachable(p) && Quiet(p) && p.destructor.Joining?
    ensures Stuck(p) <==>
              p.destructor.next < |p.workers| && p.workers[p.destructor.next].Waiting?
    ensures AllHaveRun(p)
  {
    ReachableInv(p);
    QuietExactlyAtRest(p);
  }

  /** Only a spurious wake-up of that worker can help: whatever else happens, the destructor does not return. */
  lemma StuckForGood(p: Pool, steps: seq<Step>)
    requires Reachable(p) && Stuck(p) && Legal(p, steps) && Spurious(p.destructor.next) !in steps
    ensures !Run(p, steps).destructor.Done?
  {
    ReachableInv(p);
    QuietExactlyAtRest(p);
    var i := p.destructor.next;
    assert Forgotten(p, i);
    StaysForgotten(p, i, steps);
    StillReachable(p, steps);
    SleeperHoldsUp(Run(p, steps), i);
  }

  lemma SleeperHoldsUp(p: Pool, i: nat)
    requires Reachable(p) && Forgotten(p, i)
    ensures !p.destructor.Done?
  {
    ReachableInv(p);
  }

  lemma ToldIsNeverStuck(p: Pool, steps: seq<Step>)
    requires Reachable(p) && AllTold(p) && Legal(p, steps)
    ensures !Stuck(Run(p, steps))
    ensures forall i :: 0 <= i < |Run(p, steps).workers| ==> !Run(p, steps).workers[i].Waiting?
  {
    hide Inv, Take, Enabled, DestructorCan;
    ReachableInv(p);
    StaysTold(p, steps);
    StillReachable(p, steps);
    if Stuck(Run(p, steps)) {
      DestructorWaitsExactlyForASleeper(Run(p, steps));
    }
  }

  lemma AllAreTold(p: Pool)
    requires Reachable(p) && p.destructor.Stopped? && !SomeoneAboutToSleep(p)
    ensures Reachable(Take(p, Destroy)) && AllTold(Take(p, Destroy))
  {
    ReachableInv(p);
    StepReachable(p, Destroy);
  }

  /**
   `stop` is set without the mutex, so the `notify_all` of the destructor can come too early.
   The destructor can be left waiting for ever exactly when, at that moment, some worker has
   already found nothing to do and is about to sleep.
   */
  lemma NotifyAllMissesExactly(p: Pool)
    requires Reachable(p) && p.destructor.Stopped?
    ensures CanGetStuck(Take(p, Destroy)) <==> SomeoneAboutToSleep(p)
  {
    var q := Take(p, Destroy);
    if i :| 0 <= i < |p.workers| && AboutToSleep(p.workers[i], p.queue) {
      ReachableInv(p);
      StepInv(p, Destroy);
      GetsStuck(q, i);
    } else {
      AllAreTold(p);
      if steps :| Legal(q, steps) && Stuck(Run(q, steps)) {
        ToldIsNeverStuck(q, steps);
      }
    }
  }

  /** If nobody was about to, then no worker ever sleeps again, and the destructor gets to its end. */
  lemma NobodyMissedMeansDone(p: Pool, steps: seq<Step>)
    requires Reachable(p) && p.destructor.Stopped? && !SomeoneAboutToSleep(p)
    requires Legal(Take(p, Destroy), steps)
    ensures var q := Run(Take(p, Destroy), steps);
            && (forall i :: 0 <= i < |q.workers| ==> !q.workers[i].Waiting?)
            && (Settled(q) ==> q.destructor.Done?)
  {
    var q := Take(p, Destroy);
    AllAreTold(p);
    ToldIsNeverStuck(q, steps);
    StillReachable(q, steps);
    if Settled(Run(q, steps)) {
      NeverStuckMeansDone(Run(q, steps));
    }
  }

  lemma NeverStuckMeansDone(p: Pool)
    requires Settled(p) && !Stuck(p)
    ensures p.destructor.Done?
  {
    assert !Enabled(p, Destroy);
  }

  /** It does happen: the one worker is about to sleep when the destructor sets `stop`. */
  lemma NotifyAllCanMiss() returns (p: Pool)
    ensures Reachable(p) && p.destructor.Stopped? && CanGetStuck(Take(p, Destroy))
  {
    hide Inv, CanGetStuck, Legal, Run;
    EmptyRun(1);
    p := Init(1);
    StepReachable(p, Work(0));
    p := Take(p, Work(0));
    assert p.workers[0].TestStop?;
    StepReachable(p, Work(0));
    p := Take(p, Work(0));
    assert p.workers[0].TestEmpty?;
    StepReachable(p, Work(0));
    p := Take(p, Work(0));
    assert p.workers[0].Blocking?;
    StepReachable(p, Destroy);
    p := Take(p, Destroy);
    assert AboutToSleep(p.workers[0], p.queue);
    NotifyAllMissesExactly(p);
  }

  lemma EmptyRun(threadCount: nat)
    ensures Reachable(Init(threadCount))
  {
    var none: seq<Step> := [];
    assert Legal(Init(threadCount), none) && Run(Init(threadCount), none) == Init(threadCount);
  }
}
