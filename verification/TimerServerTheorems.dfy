/** The timer list is the connections by last activity, and ticks close just the idle ones. */
module TimerServerTheorems {
  import opened SortedList
  import opened TimerServerSpec

  /** The list holds the connections in order of last activity, each due three slots after it. */
  ghost predicate Matches(order: seq<Item<int>>, seen: seq<Seen>) {
    |order| == |seen| &&
    forall i :: 0 <= i < |order| ==> order[i] == Item(seen[i].fd, seen[i].last + 3 * TIMESLOT)
  }

  /** No connection was active after `clock`. */
  ghost predicate NotAfter(order: seq<Item<int>>, clock: int) {
    forall i :: 0 <= i < |order| ==> order[i].expire <= clock + 3 * TIMESLOT
  }

  ghost predicate InOrder(s: Server, seen: seq<Seen>, clock: int) {
    Matches(s.order, seen) && Sorted(Keys(s.order)) && Distinct(s.order) && NotAfter(s.order, clock)
  }

  lemma {:induction false} ForgetNobody(seen: seq<Seen>, fd: int)
    requires forall i :: 0 <= i < |seen| ==> seen[i].fd != fd
    ensures Forget(seen, fd) == seen
  {
    if seen != [] {
      ForgetNobody(seen[1..], fd);
    }
  }

  lemma {:induction false} ForgetOne(seen: seq<Seen>, k: nat)
    requires k < |seen| && forall i :: 0 <= i < |seen| && i != k ==> seen[i].fd != seen[k].fd
    ensures Forget(seen, seen[k].fd) == Without(seen, k)
  {
    if k == 0 {
      ForgetNobody(seen[1..], seen[k].fd);
    } else {
      ForgetOne(seen[1..], k - 1);
      assert Without(seen, k) == [seen[0]] + Without(seen[1..], k - 1);
    }
  }

  /** Taking the connection out of the list forgets it, and nothing else. */
  lemma {:induction false} ForgetIsWithout(seen: seq<Seen>, order: seq<Item<int>>, fd: int)
    requires Matches(order, seen) && Distinct(order)
    ensures var k := Position(order, fd);
            if k < |order| then Matches(Without(order, k), Forget(seen, fd)) else Forget(seen, fd) == seen
  {
    var k := Position(order, fd);
    if k < |order| {
      forall i | 0 <= i < |seen| && i != k ensures seen[i].fd != seen[k].fd {
        assert order[i].who != order[k].who;
      }
      ForgetOne(seen, k);
    } else {
      ForgetNobody(seen, fd);
    }
  }

  // ----- One step -----

  lemma AdjustToBack(order: seq<Item<int>>, k: nat, e: int)
    requires k < |order| && forall i :: 0 <= i < |order| ==> order[i].expire <= e
    ensures Adjust(order, k, e) == Without(order, k) + [Item(order[k].who, e)]
  {
  }

  lemma AppendKeepsOrder(order: seq<Item<int>>, seen: seq<Seen>, fd: int, now: int)
    requires Matches(order, seen) && Sorted(Keys(order)) && Distinct(order) && NotAfter(order, now)
    requires forall i :: 0 <= i < |order| ==> order[i].who != fd
    ensures var order' := order + [Item(fd, now + 3 * TIMESLOT)];
            Matches(order', seen + [Seen(fd, now)]) && Sorted(Keys(order')) && Distinct(order') && NotAfter(order', now)
  {
  }

  lemma WithoutKeepsOrder(order: seq<Item<int>>, k: nat, now: int)
    requires Sorted(Keys(order)) && Distinct(order) && NotAfter(order, now) && k < |order|
    ensures var order' := Without(order, k);
            Sorted(Keys(order')) && Distinct(order') && NotAfter(order', now)
  {
  }

  lemma AcceptKeepsOrder(s: Server, seen: seq<Seen>, fd: int, now: int)
    requires InOrder(s, seen, now) && !Open(s, fd)
    ensures InOrder(Accept(s, fd, now), seen + [Seen(fd, now)], now)
  {
  }

  lemma {:induction false} HangupKeepsOrder(s: Server, seen: seq<Seen>, fd: int, now: int)
    requires InOrder(s, seen, now) && Open(s, fd)
    ensures InOrder(Hangup(s, fd), Forget(seen, fd), now)
  {
    ForgetIsWithout(seen, s.order, fd);
    WithoutKeepsOrder(s.order, Position(s.order, fd), now);
  }

  lemma {:induction false} RefreshKeepsOrder(s: Server, seen: seq<Seen>, fd: int, now: int)
    requires InOrder(s, seen, now) && Open(s, fd)
    ensures InOrder(Refresh(s, fd, now), Forget(seen, fd) + [Seen(fd, now)], now)
  {
    var k := Position(s.order, fd);
    var rest := Without(s.order, k);
    HangupKeepsOrder(s, seen, fd, now);
    AdjustToBack(s.order, k, now + 3 * TIMESLOT);
    WithoutDistinct(s.order, k);
    AppendKeepsOrder(rest, Forget(seen, fd), fd, now);
  }

  /** Handling an event does to the list what it does to the connections by last activity. */
  lemma {:induction false} HandleKeepsOrder(s: Server, seen: seq<Seen>, e: Event, clock: int)
    requires InOrder(s, seen, clock) && Allowed(s, e) && clock <= e.now
    ensures InOrder(Handle(s, e), LruHandle(s, seen, e), e.now)
  {
    assert InOrder(s, seen, e.now);
    if e.sockfd == s.listenfd {
      AcceptKeepsOrder(s, seen, e.connfd, e.now);
    } else if e.epollin && e.sockfd != s.pipefd {
      if e.recv.Failed? || e.recv == Bytes(0) {
        HangupKeepsOrder(s, seen, e.sockfd, e.now);
      } else if e.recv.Bytes? {
        RefreshKeepsOrder(s, seen, e.sockfd, e.now);
      }
    }
  }

  lemma {:induction false} RecentIsSelect(order: seq<Item<int>>, seen: seq<Seen>, now: int)
    requires Matches(order, seen)
    ensures Matches(Select(order, now, false), Recent(seen, now))
  {
    if order != [] {
      RecentIsSelect(order[1..], seen[1..], now);
    }
  }

  lemma {:induction false} FinishKeepsOrder(s: Server, seen: seq<Seen>, clock: int, now: int)
    requires InOrder(s, seen, clock) && clock <= now
    ensures InOrder(Finish(s, now), LruFinish(s, seen, now), now)
  {
    if s.timeout {
      EarlyStopIsFilter(s.order, now);
      RecentIsSelect(s.order, seen, now);
    }
  }

  /**
   A tick closes a connection exactly when its last activity is 15 seconds or more ago, and
   closes the connections it closes in order of last activity.
   */
  lemma {:induction false} TickClosesExactlyTheIdle(s: Server, seen: seq<Seen>, clock: int, now: int)
    requires InOrder(s, seen, clock) && s.timeout
    ensures var gone := Finish(s, now).closed[|s.closed|..];
            && s.closed + gone == Finish(s, now).closed
            && gone == Fds(Select(s.order, now, true))
            && (forall i :: 0 <= i < |seen| ==> (seen[i].fd in gone <==> seen[i].last <= now - 15))
            && (forall fd :: fd in gone ==> Open(s, fd) && !Open(Finish(s, now), fd))
  {
    EarlyStopIsFilter(s.order, now);
    AboveFromThere(Keys(s.order), now);
    var p, gone := FirstGreater(Keys(s.order), now), Fds(Due(s.order, now));
    assert Finish(s, now).closed[|s.closed|..] == gone;
    forall i | 0 <= i < |seen| ensures seen[i].fd in gone <==> i < p {
      if i < p {
        assert gone[i] == seen[i].fd;
      } else {
        assert forall j :: 0 <= j < p ==> gone[j] == s.order[j].who && s.order[j].who != s.order[i].who;
      }
    }
  }

  // ----- Whole runs -----

  lemma {:induction false} AllKeepOrder(s: Server, seen: seq<Seen>, es: seq<Event>, clock: int, end: int)
    requires InOrder(s, seen, clock) && AllAllowed(s, es) && Forwards(clock, es, end)
    ensures InOrder(HandleAll(s, es), LruHandleAll(s, seen, es), end)
    decreases |es|
  {
    if es != [] {
      HandleKeepsOrder(s, seen, es[0], clock);
      AllKeepOrder(Handle(s, es[0]), LruHandle(s, seen, es[0]), es[1..], es[0].now, end);
    }
  }

  /** The time at which the last round of a run ended. */
  ghost function EndOf(s: Server, bs: seq<Batch>, clock: int): int
    decreases |bs|
  {
    if s.stop || bs == [] || bs[0].EpollFailed? then clock
    else EndOf(Finish(HandleAll(s, bs[0].events), bs[0].now), bs[1..], bs[0].now)
  }

  /** In every run the timer list is exactly the open connections, least recently active first. */
  lemma {:induction false} ListIsLeastRecentlyActiveFirst(s: Server, seen: seq<Seen>, bs: seq<Batch>, clock: int)
    requires InOrder(s, seen, clock) && LegalBatches(s, bs) && ClockRunsForwards(clock, bs)
    ensures InOrder(Serve(s, bs), LruServe(s, seen, bs), EndOf(s, bs, clock))
    decreases |bs|
  {
    if !s.stop && bs != [] && !bs[0].EpollFailed? {
      var es, now := bs[0].events, bs[0].now;
      AllKeepOrder(s, seen, es, clock, now);
      var s1, seen1 := HandleAll(s, es), LruHandleAll(s, seen, es);
      FinishKeepsOrder(s1, seen1, now, now);
      ListIsLeastRecentlyActiveFirst(Finish(s1, now), LruFinish(s1, seen1, now), bs[1..], now);
    }
  }

  // ----- How long a connection can stay idle -----

  /** Every connection was active within three slots of the last tick. */
  ghost predicate ActiveAround(seen: seq<Seen>, lastTick: int) {
    forall i :: 0 <= i < |seen| ==> seen[i].last > lastTick - 3 * TIMESLOT
  }

  ghost function NextTick(s: Server, now: int, lastTick: int): int {
    if s.timeout then now else lastTick
  }

  /** The time of the last tick of a run. */
  ghost function LastTick(s: Server, bs: seq<Batch>, lastTick: int): int
    decreases |bs|
  {
    if s.stop || bs == [] || bs[0].EpollFailed? then lastTick
    else
      var s1 := HandleAll(s, bs[0].events);
      LastTick(Finish(s1, bs[0].now), bs[1..], NextTick(s1, bs[0].now, lastTick))
  }

  lemma {:induction false} ForgetKeeps(seen: seq<Seen>, fd: int, lastTick: int)
    requires ActiveAround(seen, lastTick)
    ensures ActiveAround(Forget(seen, fd), lastTick)
  {
    if seen != [] {
      ForgetKeeps(seen[1..], fd, lastTick);
    }
  }

  lemma {:induction false} RecentKeeps(seen: seq<Seen>, now: int)
    ensures ActiveAround(Recent(seen, now), now)
  {
    if seen != [] {
      RecentKeeps(seen[1..], now);
    }
  }

  lemma {:induction false} EventsKeepActive(s: Server, seen: seq<Seen>, es: seq<Event>,
                                            clock: int, end: int, lastTick: int)
    requires ActiveAround(seen, lastTick) && lastTick <= clock && Forwards(clock, es, end)
    ensures ActiveAround(LruHandleAll(s, seen, es), lastTick) && clock <= end
    decreases |es|
  {
    if es != [] {
      ForgetKeeps(seen, es[0].sockfd, lastTick);
      EventsKeepActive(Handle(s, es[0]), LruHandle(s, seen, es[0]), es[1..], es[0].now, end, lastTick);
    }
  }

  lemma {:induction false} RunsKeepActive(s: Server, seen: seq<Seen>, bs: seq<Batch>, clock: int, lastTick: int)
    requires ActiveAround(seen, lastTick) && lastTick <= clock && ClockRunsForwards(clock, bs)
    ensures ActiveAround(LruServe(s, seen, bs), LastTick(s, bs, lastTick))
    ensures LastTick(s, bs, lastTick) <= EndOf(s, bs, clock)
    decreases |bs|
  {
    if !s.stop && bs != [] && !bs[0].EpollFailed? {
      var es, now := bs[0].events, bs[0].now;
      EventsKeepActive(s, seen, es, clock, now, lastTick);
      var s1, seen1 := HandleAll(s, es), LruHandleAll(s, seen, es);
      RecentKeeps(seen1, now);
      RunsKeepActive(Finish(s1, now), LruFinish(s1, seen1, now), bs[1..], now, NextTick(s1, now, lastTick));
    }
  }

  /**
   As long as the last tick is at most `d` ago no connection is idle for 15 seconds and `d` or
   longer: not after any number of rounds `bs`, nor at any moment `now` of the round under way.
   */
  lemma {:induction false} NoConnectionStaysIdle(s: Server, bs: seq<Batch>, es: seq<Event>,
                                                 start: int, now: int, d: int)
    requires s.order == [] && LegalBatches(s, bs) && ClockRunsForwards(start, bs)
    requires AllAllowed(Serve(s, bs), es) && Forwards(EndOf(s, bs, start), es, now)
    requires now <= LastTick(s, bs, start) + d
    ensures var s', seen := HandleAll(Serve(s, bs), es), LruHandleAll(Serve(s, bs), LruServe(s, [], bs), es);
            && Matches(s'.order, seen)
            && forall i :: 0 <= i < |seen| ==> now - seen[i].last < 15 + d
  {
    ListIsLeastRecentlyActiveFirst(s, [], bs, start);
    RunsKeepActive(s, [], bs, start, start);
    var s1, seen1, clock := Serve(s, bs), LruServe(s, [], bs), EndOf(s, bs, start);
    AllKeepOrder(s1, seen1, es, clock, now);
    EventsKeepActive(s1, seen1, es, clock, now, LastTick(s, bs, start));
  }

  // ----- Signals and closed connections -----

  /** The event has the loop read `signal` from the signal pipe; SIGALRM is 14 and SIGTERM 15. */
  ghost predicate Brings(s: Server, e: Event, signal: int) {
    e.sockfd != s.listenfd && e.sockfd == s.pipefd && e.epollin && signal in e.signals
  }

  /** The event finds a client gone. */
  ghost predicate HangsUp(s: Server, e: Event) {
    e.sockfd != s.listenfd && e.sockfd != s.pipefd && e.epollin && (e.recv.Failed? || e.recv == Bytes(0))
  }

  /** SIGALRM asks for a tick, SIGTERM for an end, and a client that is gone is closed; nothing else does. */
  lemma EventEffects(s: Server, e: Event)
    ensures Handle(s, e).timeout == (s.timeout || Brings(s, e, 14))
    ensures Handle(s, e).stop == (s.stop || Brings(s, e, 15))
    ensures Handle(s, e).closed == s.closed + if HangsUp(s, e) then [e.sockfd] else []
    ensures Handle(s, e).listenfd == s.listenfd && Handle(s, e).pipefd == s.pipefd
  {
  }

  ghost predicate SomeBrings(s: Server, es: seq<Event>, signal: int) {
    exists k :: 0 <= k < |es| && Brings(s, es[k], signal)
  }

  lemma {:induction false} EventsEffects(s: Server, es: seq<Event>)
    ensures HandleAll(s, es).timeout == (s.timeout || SomeBrings(s, es, 14))
    ensures HandleAll(s, es).stop == (s.stop || SomeBrings(s, es, 15))
    ensures HandleAll(s, es).listenfd == s.listenfd && HandleAll(s, es).pipefd == s.pipefd
    decreases |es|
  {
    if es != [] {
      var s1 := Handle(s, es[0]);
      hide Handle;
      EventEffects(s, es[0]);
      EventsEffects(s1, es[1..]);
      FirstOrLater(s, s1, es, 14);
      FirstOrLater(s, s1, es, 15);
    }
  }

  lemma FirstOrLater(s: Server, s1: Server, es: seq<Event>, signal: int)
    requires es != [] && s1.listenfd == s.listenfd && s1.pipefd == s.pipefd
    ensures SomeBrings(s, es, signal) <==> Brings(s, es[0], signal) || SomeBrings(s1, es[1..], signal)
  {
    if k :| 0 < k < |es| && Brings(s, es[k], signal) {
      assert Brings(s1, es[1..][k - 1], signal);
    }
    if k :| 0 <= k < |es[1..]| && Brings(s1, es[1..][k], signal) {
      assert Brings(s, es[k + 1], signal);
    }
  }

  /** Without a SIGALRM the end of a round does nothing; with one it answers it. */
  lemma FinishEffects(s: Server, now: int)
    ensures !s.timeout ==> Finish(s, now) == s
    ensures !Finish(s, now).timeout && Finish(s, now).stop == s.stop
    ensures Finish(s, now).listenfd == s.listenfd && Finish(s, now).pipefd == s.pipefd
  {
  }

  /** How many rounds the loop makes: up to the first in which a SIGTERM comes in, or until epoll fails. */
  ghost function Rounds(s: Server, bs: seq<Batch>): (k: nat)
    ensures k <= |bs| && forall j :: 0 <= j < k ==> bs[j].Batch?
    ensures forall j :: 0 <= j < k - 1 ==> !SomeBrings(s, bs[j].events, 15)
    ensures k < |bs| ==> bs[k].EpollFailed? || (k > 0 && SomeBrings(s, bs[k - 1].events, 15))
  {
    if bs == [] || bs[0].EpollFailed? then 0
    else if SomeBrings(s, bs[0].events, 15) then 1
    else 1 + Rounds(s, bs[1..])
  }

  function AllRounds(s: Server, bs: seq<Batch>): Server
    requires forall j :: 0 <= j < |bs| ==> bs[j].Batch?
    decreases |bs|
  {
    if bs == [] then s else AllRounds(Finish(HandleAll(s, bs[0].events), bs[0].now), bs[1..])
  }

  lemma {:induction false} RoundsOf(s: Server, s1: Server, bs: seq<Batch>)
    requires s1.listenfd == s.listenfd && s1.pipefd == s.pipefd
    ensures Rounds(s, bs) == Rounds(s1, bs)
    ensures forall es, signal :: SomeBrings(s, es, signal) == SomeBrings(s1, es, signal)
    decreases |bs|
  {
    forall es, signal ensures SomeBrings(s, es, signal) == SomeBrings(s1, es, signal) {
      assert forall k :: 0 <= k < |es| ==> Brings(s, es[k], signal) == Brings(s1, es[k], signal);
    }
    if bs != [] {
      RoundsOf(s, s1, bs[1..]);
    }
  }

  /** The loop makes just these rounds, and is told to stop exactly by a SIGTERM in the last of them. */
  lemma {:induction false} LoopEndsExactly(s: Server, bs: seq<Batch>)
    requires !s.stop
    ensures var k := Rounds(s, bs);
            && Serve(s, bs) == AllRounds(s, bs[..k])
            && (Serve(s, bs).stop <==> k > 0 && SomeBrings(s, bs[k - 1].events, 15))
    decreases |bs|
  {
    if bs != [] && bs[0].Batch? {
      var s1 := AfterRound(s, bs[0]);
      if !SomeBrings(s, bs[0].events, 15) {
        LoopEndsExactly(s1, bs[1..]);
        RoundsOf(s, s1, bs[1..]);
        assert bs[..1 + Rounds(s, bs[1..])][1..] == bs[1..][..Rounds(s, bs[1..])];
      } else {
        assert bs[..1] == [bs[0]];
      }
    }
  }

  lemma AfterRound(s: Server, b: Batch) returns (s1: Server)
    requires b.Batch?
    ensures s1 == Finish(HandleAll(s, b.events), b.now) && !s1.timeout
    ensures s1.stop == (s.stop || SomeBrings(s, b.events, 15))
    ensures s1.listenfd == s.listenfd && s1.pipefd == s.pipefd
    ensures HandleAll(s, b.events).timeout == (s.timeout || SomeBrings(s, b.events, 14))
  {
    s1 := Finish(HandleAll(s, b.events), b.now);
    EventsEffects(s, b.events);
    FinishEffects(HandleAll(s, b.events), b.now);
  }

  /** The times of the ticks of a run. */
  function TickTimes(s: Server, bs: seq<Batch>): seq<int>
    decreases |bs|
  {
    if s.stop || bs == [] || bs[0].EpollFailed? then []
    else
      var s1 := HandleAll(s, bs[0].events);
      (if s1.timeout then [bs[0].now] else []) + TickTimes(Finish(s1, bs[0].now), bs[1..])
  }

  /** The times of the rounds in which a SIGALRM has come in. */
  ghost function AlarmTimes(s: Server, bs: seq<Batch>): seq<int>
    requires forall j :: 0 <= j < |bs| ==> bs[j].Batch?
  {
    if bs == [] then []
    else (if SomeBrings(s, bs[0].events, 14) then [bs[0].now] else []) + AlarmTimes(s, bs[1..])
  }

  lemma {:induction false} AlarmTimesOf(s: Server, s1: Server, bs: seq<Batch>)
    requires s1.listenfd == s.listenfd && s1.pipefd == s.pipefd && forall j :: 0 <= j < |bs| ==> bs[j].Batch?
    ensures AlarmTimes(s, bs) == AlarmTimes(s1, bs)
  {
    if bs != [] {
      RoundsOf(s, s1, bs);
      AlarmTimesOf(s, s1, bs[1..]);
    }
  }

  /** The ticks are exactly the rounds in which a SIGALRM has come in, each at the end of its round. */
  lemma {:induction false} TicksExactlyOnAlarm(s: Server, bs: seq<Batch>)
    requires !s.stop && !s.timeout
    ensures TickTimes(s, bs) == AlarmTimes(s, bs[..Rounds(s, bs)])
    decreases |bs|
  {
    if bs != [] && bs[0].Batch? {
      var s1 := AfterRound(s, bs[0]);
      var rest := bs[1..];
      if !SomeBrings(s, bs[0].events, 15) {
        TicksExactlyOnAlarm(s1, rest);
        RoundsOf(s, s1, rest);
        AlarmTimesOf(s, s1, rest[..Rounds(s, rest)]);
        assert bs[..1 + Rounds(s, rest)][1..] == rest[..Rounds(s, rest)];
      } else {
        assert bs[..1][1..] == [];
      }
    }
  }

  /** `LastTick` is the last of them. */
  lemma {:induction false} LastTickIsLast(s: Server, bs: seq<Batch>, lastTick: int)
    ensures var ts := TickTimes(s, bs);
            LastTick(s, bs, lastTick) == if ts == [] then lastTick else ts[|ts| - 1]
    decreases |bs|
  {
    if !s.stop && bs != [] && !bs[0].EpollFailed? {
      var s1 := HandleAll(s, bs[0].events);
      LastTickIsLast(Finish(s1, bs[0].now), bs[1..], NextTick(s1, bs[0].now, lastTick));
    }
  }
}
