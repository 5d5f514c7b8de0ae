/** Round-robin fairness and the life cycle of the children, over every sequence of events. */
module ProcessPoolTheorems {
  import opened ModArith
  import opened ProcessPoolSpec
  import opened Sequences

  // ----- Turns -----

  /** Dealing `until` turns from 0 gives `c` one for every full round, and one more if the last round gets to it. */
  lemma {:induction false} HitsFromZero(until: nat, c: nat, n: nat)
    requires c < n
    ensures Hits(0, until, c, n) == until / n + if c < until % n then 1 else 0
    decreases until
  {
    if until == 0 {
      DivModUnique(0, 0, 0, n);
    } else {
      HitsFromZero(until - 1, c, n);
      ModSuccessor(until - 1, n);
    }
  }

  lemma {:induction false} HitsSplit(from: nat, mid: nat, until: nat, c: nat, n: nat)
    requires from <= mid <= until && c < n
    ensures Hits(from, until, c, n) == Hits(from, mid, c, n) + Hits(mid, until, c, n)
    decreases until - mid
  {
    if mid < until {
      HitsSplit(from, mid, until - 1, c, n);
    }
  }

  /** However many turns are dealt, from wherever: no two children are apart by more than one. */
  lemma HitsAreFair(from: nat, until: nat, c: nat, d: nat, n: nat)
    requires from <= until && c < n && d < n
    ensures -1 <= Hits(from, until, c, n) - Hits(from, until, d, n) <= 1
  {
    HitsSplit(0, from, until, c, n);
    HitsSplit(0, from, until, d, n);
    HitsFromZero(from, c, n);
    HitsFromZero(from, d, n);
    HitsFromZero(until, c, n);
    HitsFromZero(until, d, n);
  }

  /** From one turn of `c` to just after its next, every child has one turn. */
  lemma HitsOneRound(from: nat, until: nat, c: nat, d: nat, n: nat)
    requires from <= until && c < n && d < n
    requires Turn(from, n) == Turn(c + 1, n) && Turn(until, n) == Turn(c + 1, n) && Hits(from, until, c, n) == 1
    ensures Hits(from, until, d, n) == 1
  {
    HitsSplit(0, from, until, c, n);
    HitsSplit(0, from, until, d, n);
    HitsFromZero(from, c, n);
    HitsFromZero(from, d, n);
    HitsFromZero(until, c, n);
    HitsFromZero(until, d, n);
  }

  lemma {:induction false} HitsPassing(from: nat, until: nat, c: nat, n: nat)
    requires from <= until && c < n && forall x :: from <= x < until ==> Turn(x, n) != c
    ensures Hits(from, until, c, n) == 0
    decreases until - from
  {
    if from < until {
      HitsPassing(from, until - 1, c, n);
    }
  }

  // ----- Dispatches are turns -----

  /** Since `p`, `turns` turns have been dealt, among all the children. */
  ghost predicate Dealt(p: Pool, p': Pool, turns: nat)
    requires WellFormed(p)
  {
    && WellFormed(p') && |p'.pids| == |p.pids| && p.sent <= p'.sent
    && forall u: nat :: Turn(u, |p.pids|) == p.counter ==>
         Turn(u + turns, |p.pids|) == p'.counter &&
         forall c :: 0 <= c < |p.pids| && Lives(p'.pids, c) ==>
           Lives(p.pids, c) && Count(p'.sent[|p.sent|..], c) == Hits(u, u + turns, c, |p.pids|)
  }

  lemma {:induction false} CountConcat(s: seq<nat>, t: seq<nat>, c: nat)
    ensures Count(s + t, c) == Count(s, c) + Count(t, c)
    decreases |t|
  {
    if t == [] {
      assert s + t == s;
    } else {
      var k := |t| - 1;
      CountConcat(s, t[..k], c);
      assert (s + t)[..|s + t| - 1] == s + t[..k];
    }
  }

  lemma TurnBelow(u: nat, n: nat)
    requires u < n
    ensures Turn(u, n) == u
  {
  }

  lemma DealtNothing(p: Pool)
    requires WellFormed(p)
    ensures Dealt(p, p, 0)
  {
  }

  lemma DealtThen(p: Pool, q: Pool, r: Pool, a: nat, b: nat)
    requires WellFormed(p) && Dealt(p, q, a) && Dealt(q, r, b)
    ensures Dealt(p, r, a + b)
  {
    hide Turn, Lives;
    var n := |p.pids|;
    assert r.sent[|p.sent|..] == q.sent[|p.sent|..] + r.sent[|q.sent|..];
    forall u: nat | Turn(u, n) == p.counter
      ensures Turn(u + (a + b), n) == r.counter
      ensures forall c :: 0 <= c < n && Lives(r.pids, c) ==>
                Lives(p.pids, c) && Count(r.sent[|p.sent|..], c) == Hits(u, u + (a + b), c, n)
    {
      assert Turn(u + a, n) == q.counter;
      assert Turn(u + a + b, n) == r.counter;
      forall c | 0 <= c < n && Lives(r.pids, c)
        ensures Lives(p.pids, c) && Count(r.sent[|p.sent|..], c) == Hits(u, u + (a + b), c, n)
      {
        CountConcat(q.sent[|p.sent|..], r.sent[|q.sent|..], c);
        HitsSplit(u, u + a, u + a + b, c, n);
      }
    }
  }

  /** Nobody is passed over but the dead, and everybody is only if nobody lives. */
  lemma SkipsAllExactly(p: Pool)
    requires WellFormed(p)
    ensures Skip(p.pids, p.counter, 0) == |p.pids| <==> AllReaped(p.pids)
  {
    var n := |p.pids|;
    if Skip(p.pids, p.counter, 0) == n {
      forall i | 0 <= i < n ensures p.pids[i] == REAPED {
        var k := if i >= p.counter then i - p.counter else i - p.counter + n;
        ModSum(p.counter, k, n);
        assert !LivesAfter(p.pids, p.counter, k);
      }
    } else {
      assert LivesAfter(p.pids, p.counter, Skip(p.pids, p.counter, 0));
    }
  }

  lemma SameTurn(from: nat, u: nat, j: nat, n: nat)
    requires 1 <= n && Turn(u, n) == from
    ensures Turn(u + j, n) == Turn(from + j, n)
  {
    ModShift(j, u, n);
  }

  lemma NextTurn(from: nat, u: nat, k: nat, n: nat)
    requires 1 <= n && Turn(u, n) == from
    ensures Turn(u + (k + 1), n) == Turn(Turn(from + k, n) + 1, n)
  {
    SameTurn(from, u, k, n);
    SameTurn(Turn(u + k, n), u + k, 1, n);
  }

  lemma HitsDispatch(pids: seq<int>, from: nat, u: nat, c: nat)
    requires from < |pids| && Turn(u, |pids|) == from && Lives(pids, c) && Skip(pids, from, 0) < |pids|
    ensures var k := Skip(pids, from, 0);
            Hits(u, u + (k + 1), c, |pids|) == if Turn(from + k, |pids|) == c then 1 else 0
  {
    hide Turn;
    var n, k := |pids|, Skip(pids, from, 0);
    forall x | u <= x < u + k ensures Turn(x, n) != c {
      SameTurn(from, u, x - u, n);
      assert !LivesAfter(pids, from, x - u);
    }
    HitsPassing(u, u + k, c, n);
    SameTurn(from, u, k, n);
    assert u + (k + 1) - 1 == u + k;
  }

  lemma DealtDispatch(p: Pool) returns (turns: nat)
    requires WellFormed(p)
    ensures Dealt(p, Dispatch(p), turns)
  {
    hide Turn, Lives, Skip;
    var n, k, p' := |p.pids|, Skip(p.pids, p.counter, 0), Dispatch(p);
    turns := if k == n then 0 else k + 1;
    if k < n {
      assert p'.sent[|p.sent|..] == [Turn(p.counter + k, n)];
      forall u: nat | Turn(u, n) == p.counter
        ensures Turn(u + turns, n) == p'.counter
        ensures forall c :: 0 <= c < n && Lives(p'.pids, c) ==>
                  Count(p'.sent[|p.sent|..], c) == Hits(u, u + turns, c, n)
      {
        NextTurn(p.counter, u, k, n);
        forall c | 0 <= c < n && Lives(p'.pids, c)
          ensures Count(p'.sent[|p.sent|..], c) == Hits(u, u + turns, c, n)
        {
          HitsDispatch(p.pids, p.counter, u, c);
        }
      }
    }
  }

  lemma {:induction false} ReapAllKeeps(p: Pool, waited: seq<int>)
    ensures forall i :: 0 <= i < |p.pids| && p.pids[i] == REAPED ==> ReapAll(p, waited).pids[i] == REAPED
    decreases |waited|
  {
    if waited != [] && waited[0] > 0 {
      ReapAllKeeps(Reap(p, waited[0]), waited[1..]);
    }
  }

  lemma {:induction false} ReceiveAllKeeps(p: Pool, signals: seq<Signal>)
    ensures forall i :: 0 <= i < |p.pids| && p.pids[i] == REAPED ==> ReceiveAll(p, signals).pids[i] == REAPED
    decreases |signals|
  {
    if signals != [] {
      if signals[0].Child? {
        ReapAllKeeps(p, signals[0].waited);
      }
      ReceiveAllKeeps(Receive(p, signals[0]), signals[1..]);
    }
  }

  lemma DealtEvent(p: Pool, e: Event) returns (turns: nat)
    requires WellFormed(p)
    ensures Dealt(p, Handle(p, e), turns)
  {
    turns := 0;
    match e
    case Connection => turns := DealtDispatch(p);
    case Signals(signals) => ReceiveAllKeeps(p, signals);
    case Other =>
  }

  /** Whatever happens, the connections have been dealt in turns among all children. */
  lemma {:induction false} DealtAll(p: Pool, es: seq<Event>) returns (turns: nat)
    requires WellFormed(p)
    ensures Dealt(p, HandleAll(p, es), turns)
    decreases |es|
  {
    hide Turn, Hits, Count, Dealt, Handle;
    turns := 0;
    DealtNothing(p);
    if es != [] {
      var q := Handle(p, es[0]);
      turns := DealtEvent(p, es[0]);
      if !Breaks(p, es[0]) {
        var more := DealtAll(q, es[1..]);
        DealtThen(p, q, HandleAll(q, es[1..]), turns, more);
        turns := turns + more;
      }
    }
  }

  /**
   Round-robin is fair: over any events, whatever children die meanwhile, those that live
   throughout have been sent equally many connections, give or take one.
   */
  lemma RoundRobinIsFair(p: Pool, es: seq<Event>, c: nat, d: nat)
    requires WellFormed(p)
    requires var p' := HandleAll(p, es); Lives(p'.pids, c) && Lives(p'.pids, d)
    ensures var latest := HandleAll(p, es).sent[|p.sent|..]; -1 <= Count(latest, c) - Count(latest, d) <= 1
  {
    hide Turn, Hits, Count, HandleAll;
    var turns := DealtAll(p, es);
    TurnBelow(p.counter, |p.pids|);
    HitsAreFair(p.counter, p.counter + turns, c, d, |p.pids|);
  }

  /** The counter stands behind the child last sent to. */
  ghost predicate CounterFollows(p: Pool) {
    WellFormed(p) && (p.sent != [] ==> p.counter == Turn(p.sent[|p.sent| - 1] + 1, |p.pids|))
  }

  lemma {:induction false} CounterFollowsAll(p: Pool, es: seq<Event>)
    requires CounterFollows(p)
    ensures CounterFollows(HandleAll(p, es))
    decreases |es|
  {
    if es != [] && !Breaks(p, es[0]) {
      CounterFollowsAll(Handle(p, es[0]), es[1..]);
    }
  }

  /**
   Between two dispatches to the same child, with none to it in between, every child that
   lives throughout is sent exactly one connection.
   */
  lemma OneEachPerRound(p: Pool, es: seq<Event>, c: nat, d: nat)
    requires CounterFollows(p) && p.sent != [] && p.sent[|p.sent| - 1] == c
    requires var p' := HandleAll(p, es); Lives(p'.pids, c) && Lives(p'.pids, d)
    requires var p' := HandleAll(p, es);
             Count(p'.sent[|p.sent|..], c) == 1 && p'.sent[|p'.sent| - 1] == c
    ensures Count(HandleAll(p, es).sent[|p.sent|..], d) == 1
  {
    hide Turn, Hits, Count, HandleAll;
    var turns := DealtAll(p, es);
    CounterFollowsAll(p, es);
    TurnBelow(p.counter, |p.pids|);
    HitsOneRound(p.counter, p.counter + turns, c, d, |p.pids|);
  }

  // ----- The life of the children -----

  /** The pool as the constructor leaves it: every child is a process of its own. */
  function Start(pids: seq<int>): Pool {
    Pool(pids, 0, false, [], [], [])
  }

  /** The parent's end of a pipe has been closed, once, just if its child has been reaped. */
  ghost predicate LifeOk(p: Pool) {
    && WellFormed(p)
    && (forall i :: 0 <= i < |p.pids| ==> p.pids[i] == REAPED || p.pids[i] > 0)
    && (forall i, j :: 0 <= i < j < |p.pids| && p.pids[i] != REAPED ==> p.pids[i] != p.pids[j])
    && NoRepeats(p.closed)
    && (forall i :: i in p.closed ==> i < |p.pids|)
    && (forall i :: 0 <= i < |p.pids| ==> (i in p.closed) == (p.pids[i] == REAPED))
    && (p.stop ==> AllReaped(p.pids))
  }

  /** The invariants hold from the start, when the first child is the first to be sent to. */
  lemma StartOk(pids: seq<int>)
    requires |pids| >= 1 && NoRepeats(pids) && forall i :: 0 <= i < |pids| ==> pids[i] > 0
    ensures LifeOk(Start(pids)) && CounterFollows(Start(pids)) && StopExact(Start(pids))
    ensures Handle(Start(pids), Connection).sent == [0]
  {
    assert pids[0] > 0;
    TurnBelow(0, |pids|);
    assert LivesAfter(pids, 0, 0);
  }

  /** One turn of the SIGCHLD loop: just the child of that process, if there is one, is cleared and closed. */
  lemma LifeReap(p: Pool, pid: int)
    requires LifeOk(p) && pid > 0
    ensures LifeOk(Reap(p, pid))
    ensures forall i :: 0 <= i < |p.pids| ==>
              Reap(p, pid).pids[i] == if p.pids[i] == pid then REAPED else p.pids[i]
    ensures forall i :: 0 <= i < |p.pids| && p.pids[i] == pid ==> Reap(p, pid).closed == p.closed + [i]
    ensures pid !in p.pids ==> Reap(p, pid) == p
  {
  }

  lemma {:induction false} LifeReapAll(p: Pool, waited: seq<int>)
    requires LifeOk(p)
    ensures LifeOk(ReapAll(p, waited))
    decreases |waited|
  {
    if waited != [] && waited[0] > 0 {
      LifeReap(p, waited[0]);
      LifeReapAll(Reap(p, waited[0]), waited[1..]);
    }
  }

  /** Of all processes that `waitpid` reports, and only of these, the children are reaped. */
  lemma {:induction false} ReapAllExactly(p: Pool, waited: seq<int>)
    requires LifeOk(p) && forall j :: 0 <= j < |waited| ==> waited[j] > 0
    ensures forall i :: 0 <= i < |p.pids| ==>
              ReapAll(p, waited).pids[i] == if p.pids[i] in waited then REAPED else p.pids[i]
    decreases |waited|
  {
    if waited != [] {
      LifeReap(p, waited[0]);
      ReapAllExactly(Reap(p, waited[0]), waited[1..]);
    }
  }

  /** The parent is told to stop exactly when its last child has been reaped. */
  ghost predicate StopExact(p: Pool) {
    p.stop <==> AllReaped(p.pids)
  }

  lemma {:induction false} StopExactSignals(p: Pool, signals: seq<Signal>)
    requires StopExact(p)
    ensures StopExact(ReceiveAll(p, signals))
    decreases |signals|
  {
    if signals != [] {
      StopExactSignals(Receive(p, signals[0]), signals[1..]);
    }
  }

  lemma {:induction false} StopsExactly(p: Pool, es: seq<Event>)
    requires WellFormed(p) && StopExact(p)
    ensures StopExact(HandleAll(p, es))
    decreases |es|
  {
    if es != [] {
      match es[0] {
        case Connection => SkipsAllExactly(p);
        case Signals(signals) => StopExactSignals(p, signals);
        case Other =>
      }
      if !Breaks(p, es[0]) {
        StopsExactly(Handle(p, es[0]), es[1..]);
      }
    }
  }

  lemma {:induction false} LifeReceiveAll(p: Pool, signals: seq<Signal>)
    requires LifeOk(p)
    ensures LifeOk(ReceiveAll(p, signals))
    decreases |signals|
  {
    if signals != [] {
      if signals[0].Child? {
        LifeReapAll(p, signals[0].waited);
      }
      LifeReceiveAll(Receive(p, signals[0]), signals[1..]);
    }
  }

  /**
   Over every sequence of events: the pool stops only when all children have been reaped, a
   pipe end is closed once and with its child, and a child reaped is never sent to again.
   */
  lemma {:induction false} LifeCycle(p: Pool, es: seq<Event>)
    requires LifeOk(p)
    ensures var p' := HandleAll(p, es);
            && LifeOk(p')
            && forall c :: 0 <= c < |p.pids| && p.pids[c] == REAPED ==>
                 p'.pids[c] == REAPED && Count(p'.sent[|p.sent|..], c) == 0
    decreases |es|
  {
    var p' := HandleAll(p, es);
    if es == [] {
      assert p'.sent[|p.sent|..] == [];
    } else {
      var q := Handle(p, es[0]);
      LifeEvent(p, es[0]);
      if !Breaks(p, es[0]) {
        LifeCycle(q, es[1..]);
        assert p'.sent[|p.sent|..] == q.sent[|p.sent|..] + p'.sent[|q.sent|..];
        forall c | 0 <= c < |p.pids| && p.pids[c] == REAPED ensures Count(p'.sent[|p.sent|..], c) == 0 {
          CountConcat(q.sent[|p.sent|..], p'.sent[|q.sent|..], c);
        }
      }
    }
  }

  lemma LifeEvent(p: Pool, e: Event)
    requires LifeOk(p)
    ensures LifeOk(Handle(p, e))
    ensures forall c :: 0 <= c < |p.pids| && p.pids[c] == REAPED ==>
              Handle(p, e).pids[c] == REAPED && Count(Handle(p, e).sent[|p.sent|..], c) == 0
  {
    match e
    case Connection =>
      SkipsAllExactly(p);
      var k := Skip(p.pids, p.counter, 0);
      assert k < |p.pids| ==> LivesAfter(p.pids, p.counter, k);
      assert k < |p.pids| ==> Dispatch(p).sent[|p.sent|..] == [Turn(p.counter + k, |p.pids|)];
    case Signals(signals) =>
      LifeReceiveAll(p, signals);
      ReceiveAllKeeps(p, signals);
    case Other =>
  }

  /** SIGTERM goes to every living child, once each, and to nobody else. */
  lemma {:induction false} LivingExactly(pids: seq<int>)
    requires forall i, j :: 0 <= i < j < |pids| && pids[i] != REAPED ==> pids[i] != pids[j]
    ensures forall pid :: pid in Living(pids) <==> pid in pids && pid != REAPED
    ensures NoRepeats(Living(pids))
    decreases |pids|
  {
    if pids != [] {
      var k := |pids| - 1;
      var before := Living(pids[..k]);
      LivingExactly(pids[..k]);
      assert pids == pids[..k] + [pids[k]];
      forall pid ensures pid in Living(pids) <==> pid in pids && pid != REAPED {
        assert pid in Living(pids) <==> pid in before || (pids[k] != REAPED && pid == pids[k]);
      }
      if pids[k] != REAPED {
        forall j | 0 <= j < k ensures pids[j] != pids[k] {
          assert pids[j] != REAPED ==> pids[j] != pids[k];
        }
        assert pids[k] !in pids[..k] && pids[k] !in before;
        assert Living(pids) == before + [pids[k]];
      }
    }
  }

  // ----- What each event does -----

  predicate ReapedBehind(pids: seq<int>, from: nat, j: nat)
    requires |pids| >= 1
  {
    pids[(from + j) % |pids|] == -1
  }

  /** A connection is sent to the nearest living child from the counter on, which moves on behind it. */
  lemma ConnectionIsSent(p: Pool) returns (k: nat)
    requires WellFormed(p) && !AllReaped(p.pids)
    ensures k < |p.pids| && !ReapedBehind(p.pids, p.counter, k)
    ensures forall j :: 0 <= j < k ==> ReapedBehind(p.pids, p.counter, j)
    ensures var i := (p.counter + k) % |p.pids|;
            Handle(p, Connection) == p.(sent := p.sent + [i], counter := (i + 1) % |p.pids|)
  {
    hide Turn, LivesAfter, ReapedBehind, AllReaped;
    var n := |p.pids|;
    k := Skip(p.pids, p.counter, 0);
    SkipsAllExactly(p);
    forall j | 0 <= j <= k && j < n ensures ReapedBehind(p.pids, p.counter, j) == !LivesAfter(p.pids, p.counter, j) {
      ReapedOrLiving(p.pids, p.counter, j);
    }
    TurnIs(p.counter + k, n);
    TurnIs(Turn(p.counter + k, n) + 1, n);
  }

  lemma TurnIs(u: nat, n: nat)
    requires n >= 1
    ensures Turn(u, n) == u % n
  {
  }

  lemma ReapedOrLiving(pids: seq<int>, from: nat, j: nat)
    requires |pids| >= 1
    ensures ReapedBehind(pids, from, j) == !LivesAfter(pids, from, j)
  {
  }

  /** With no child left a connection is dropped, and the pool stops. */
  lemma ConnectionStops(p: Pool)
    requires WellFormed(p) && AllReaped(p.pids)
    ensures Breaks(p, Connection) && Handle(p, Connection) == p.(stop := true)
  {
    SkipsAllExactly(p);
  }

  /** The connections that come in while a child lives, up to the first that finds none. */
  function Served(p: Pool, es: seq<Event>): nat
    requires WellFormed(p)
    decreases |es|
  {
    if es == [] || (es[0].Connection? && AllReaped(p.pids)) then 0
    else (if es[0].Connection? then 1 else 0) + Served(Handle(p, es[0]), es[1..])
  }

  /** Each of them is sent to one child, and nothing else is sent. */
  lemma {:induction false} EveryConnectionIsSent(p: Pool, es: seq<Event>)
    requires WellFormed(p)
    ensures |HandleAll(p, es).sent| == |p.sent| + Served(p, es)
    decreases |es|
  {
    if es != [] {
      if es[0].Connection? && AllReaped(p.pids) {
        ConnectionStops(p);
      } else {
        if es[0].Connection? {
          var k := ConnectionIsSent(p);
        }
        EveryConnectionIsSent(Handle(p, es[0]), es[1..]);
      }
    }
  }

  /** The processes that the calls of `waitpid` report, before one that is not positive. */
  function Reported(waited: seq<int>): (r: seq<int>)
    ensures forall j :: 0 <= j < |r| ==> r[j] > 0
  {
    if waited == [] || waited[0] <= 0 then [] else [waited[0]] + Reported(waited[1..])
  }

  lemma {:induction false} ReapAllReported(p: Pool, waited: seq<int>)
    requires LifeOk(p)
    ensures ReapAll(p, waited) == ReapAll(p, Reported(waited))
    ensures p.closed <= ReapAll(p, waited).closed
    ensures ReapAll(p, waited).killed == p.killed && ReapAll(p, waited).stop == p.stop
    decreases |waited|
  {
    if waited != [] && waited[0] > 0 {
      LifeReap(p, waited[0]);
      ReapAllReported(Reap(p, waited[0]), waited[1..]);
    }
  }

  lemma OneSignal(p: Pool, signal: Signal)
    requires WellFormed(p)
    ensures Handle(p, Signals([signal])) == Receive(p, signal)
  {
    var none: seq<Signal> := [];
    assert [signal][1..] == none && ReceiveAll(Receive(p, signal), none) == Receive(p, signal);
  }

  lemma ReceiveReaps(p: Pool, signal: Signal)
    requires LifeOk(p)
    ensures LifeOk(Receive(p, signal))
    ensures forall i :: 0 <= i < |p.pids| ==>
              Receive(p, signal).pids[i] ==
              if signal.Child? && p.pids[i] in Reported(signal.waited) then -1 else p.pids[i]
  {
    if signal.Child? {
      ReapAllReported(p, signal.waited);
      ReapAllExactly(p, Reported(signal.waited));
      LifeReapAll(p, signal.waited);
    }
  }

  /** SIGCHLD reaps just the children reported, and sets the pool to stop exactly if none is left. */
  lemma ChildSignalReaps(p: Pool, waited: seq<int>)
    requires LifeOk(p)
    ensures var p' := Handle(p, Signals([Child(waited)]));
            && (forall i :: 0 <= i < |p.pids| ==>
                  p'.pids[i] == if p.pids[i] in Reported(waited) then -1 else p.pids[i])
            && p'.stop == (forall i :: 0 <= i < |p.pids| ==> p'.pids[i] == -1)
            && LifeOk(p') && p.closed <= p'.closed
            && p'.counter == p.counter && p'.sent == p.sent && p'.killed == p.killed
  {
    hide ReapAll;
    OneSignal(p, Child(waited));
    ReceiveReaps(p, Child(waited));
    ReapAllReported(p, waited);
  }

  /** SIGTERM and SIGINT are passed on to the living children, once each, and change nothing else. */
  lemma TerminateKillsTheLiving(p: Pool)
    requires LifeOk(p)
    ensures var p' := Handle(p, Signals([Terminate]));
            && p'.killed == p.killed + p'.killed[|p.killed|..]
            && p' == p.(killed := p'.killed)
            && NoRepeats(p'.killed[|p.killed|..])
            && forall pid :: pid in p'.killed[|p.killed|..] <==> pid in p.pids && pid != -1
  {
    OneSignal(p, Terminate);
    LivingExactly(p.pids);
    assert (p.killed + Living(p.pids))[|p.killed|..] == Living(p.pids);
  }

  /** Signals read in one go are handled one after the other. */
  lemma {:induction false} SignalsOneByOne(p: Pool, signals: seq<Signal>, signal: Signal)
    ensures ReceiveAll(p, signals + [signal]) == ReceiveAll(ReceiveAll(p, signals), [signal])
    decreases |signals|
  {
    if signals == [] {
      assert signals + [signal] == [signal];
    } else {
      assert (signals + [signal])[1..] == signals[1..] + [signal];
      SignalsOneByOne(Receive(p, signals[0]), signals[1..], signal);
    }
  }

  lemma OtherwiseNothing(p: Pool)
    requires WellFormed(p)
    ensures Handle(p, Other) == Handle(p, Signals([])) == Handle(p, Signals([Ignored])) == p
  {
    OneSignal(p, Ignored);
  }

  /** Some connection has found no child left, so the loop over the events has been left. */
  ghost predicate HasLeft(p: Pool, es: seq<Event>)
    requires WellFormed(p)
    decreases |es|
  {
    es != [] && ((es[0].Connection? && AllReaped(p.pids)) || HasLeft(Handle(p, es[0]), es[1..]))
  }

  /** So are events, until a connection finds no child left; those behind it are not handled. */
  lemma {:induction false} EventsOneByOne(p: Pool, es: seq<Event>, e: Event)
    requires WellFormed(p)
    ensures HandleAll(p, es + [e]) == if HasLeft(p, es) then HandleAll(p, es) else Handle(HandleAll(p, es), e)
    decreases |es|
  {
    if es == [] {
      assert es + [e] == [e];
      assert [e][1..] == [];
    } else {
      assert (es + [e])[1..] == es[1..] + [e];
      EventsOneByOne(Handle(p, es[0]), es[1..], e);
    }
  }

  function ReportedToSignals(signals: seq<Signal>): seq<int> {
    if signals == [] then []
    else (if signals[0].Child? then Reported(signals[0].waited) else []) + ReportedToSignals(signals[1..])
  }

  function ReportedTo(p: Pool, es: seq<Event>): seq<int>
    requires WellFormed(p)
    decreases |es|
  {
    if es == [] || (es[0].Connection? && AllReaped(p.pids)) then []
    else
      (if es[0].Signals? then ReportedToSignals(es[0].signals) else []) + ReportedTo(Handle(p, es[0]), es[1..])
  }

  lemma {:induction false} SignalsReap(p: Pool, signals: seq<Signal>)
    requires LifeOk(p)
    ensures forall i :: 0 <= i < |p.pids| ==>
              ReceiveAll(p, signals).pids[i] ==
              if p.pids[i] in ReportedToSignals(signals) && p.pids[i] > 0 then -1 else p.pids[i]
    decreases |signals|
  {
    if signals != [] {
      ReceiveReaps(p, signals[0]);
      SignalsReap(Receive(p, signals[0]), signals[1..]);
    }
  }

  /** Over every sequence of events a child is reaped exactly if it was before, or its process was reported. */
  lemma {:induction false} ReapedExactlyWhenReported(p: Pool, es: seq<Event>)
    requires LifeOk(p)
    ensures forall i :: 0 <= i < |p.pids| ==>
              (HandleAll(p, es).pids[i] == -1 <==> p.pids[i] == -1 || p.pids[i] in ReportedTo(p, es))
    ensures forall i :: 0 <= i < |p.pids| ==>
              HandleAll(p, es).pids[i] == -1 || HandleAll(p, es).pids[i] == p.pids[i]
    decreases |es|
  {
    if es != [] && !(es[0].Connection? && AllReaped(p.pids)) {
      LifeEvent(p, es[0]);
      if es[0].Signals? {
        SignalsReap(p, es[0].signals);
      } else if es[0].Connection? {
        var k := ConnectionIsSent(p);
      }
      ReapedExactlyWhenReported(Handle(p, es[0]), es[1..]);
    }
  }
}
