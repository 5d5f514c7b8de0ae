/**
 The event loop of the idle-connection server over the heap: the `users` table, the timers
 it points at, the timer list and the open descriptors.

 `Valid` holds the bijection between open connections and timers.  It says nothing about the
 table entries of closed descriptors, whose `timer` fields keep pointing at freed timers.
 */
module TimerServers {
  import opened SortedList
  import opened SortTimerLists
  import opened TimerServerSpec
  import opened TimerServerTheorems

  /** Timer `t` and the table entry of descriptor `x.who` belong together. */
  ghost predicate Pair(t: UtilTimer, x: Item<int>, users: seq<ClientData>)
    reads t`expire, users`sockfd, users`timer
  {
    && 0 <= x.who < |users| && x.expire == t.expire
    && t.userData == users[x.who] && users[x.who].sockfd == x.who && users[x.who].timer == t
  }

  ghost predicate Paired(l: seq<UtilTimer>, order: seq<Item<int>>, users: seq<ClientData>)
    reads l`expire, users`sockfd, users`timer
  {
    |l| == |order| && forall i :: 0 <= i < |l| ==> Pair(l[i], order[i], users)
  }

  lemma PairedSplice(l: seq<UtilTimer>, order: seq<Item<int>>, users: seq<ClientData>,
                     p: nat, t: UtilTimer, x: Item<int>)
    requires Paired(l, order, users) && p <= |l| && Pair(t, x, users)
    ensures Paired(Splice(l, p, t), Splice(order, p, x), users)
  {
  }

  lemma PairedWithout(l: seq<UtilTimer>, order: seq<Item<int>>, users: seq<ClientData>, k: nat)
    requires Paired(l, order, users) && k < |l|
    ensures Paired(Without(l, k), Without(order, k), users)
  {
  }

  /** Where a changed timer goes depends on the timers behind it alone. */
  lemma SamePlace(ks: seq<int>, order: seq<Item<int>>, k: nat, e: int)
    requires k < |ks| == |order| && forall i :: k < i < |ks| ==> ks[i] == order[i].expire
    ensures NewPlace(ks, k, e) == NewPlace(Keys(order), k, e)
  {
  }

  /** The connections in the order are the open descriptors. */
  ghost predicate Lists(order: seq<Item<int>>, open: set<int>) {
    && (forall i :: 0 <= i < |order| ==> order[i].who in open)
    && (forall fd :: fd in open ==> Position(order, fd) < |order|)
  }

  lemma PositionOf(order: seq<Item<int>>, k: nat)
    requires k < |order|
    ensures Position(order, order[k].who) < |order|
  {
  }

  lemma ListsSplice(order: seq<Item<int>>, open: set<int>, p: nat, x: Item<int>)
    requires Lists(order, open) && p <= |order|
    ensures Lists(Splice(order, p, x), open + {x.who})
  {
    var order' := Splice(order, p, x);
    forall fd | fd in open + {x.who} ensures Position(order', fd) < |order'| {
      if fd == x.who {
        assert order'[p] == x;
        PositionOf(order', p);
      } else {
        var k := Position(order, fd);
        var k' := if k < p then k else k + 1;
        assert order'[k'] == order[k];
        PositionOf(order', k');
      }
    }
  }

  lemma ListsWithout(order: seq<Item<int>>, open: set<int>, k: nat)
    requires Lists(order, open) && k < |order| && Distinct(order)
    ensures Lists(Without(order, k), open - {order[k].who})
  {
    var order' := Without(order, k);
    WithoutDistinct(order, k);
    forall fd | fd in open - {order[k].who} ensures Position(order', fd) < |order'| {
      var i := Position(order, fd);
      var i' := if i < k then i else i - 1;
      assert order'[i'] == order[i];
      PositionOf(order', i');
    }
  }

  lemma ListsInsert(order: seq<Item<int>>, open: set<int>, x: Item<int>)
    requires Lists(order, open - {x.who}) && x.who in open
    ensures Lists(Insert(order, x), open)
  {
    ListsSplice(order, open - {x.who}, FirstGreater(Keys(order), x.expire), x);
    assert open - {x.who} + {x.who} == open;
  }

  lemma ListsAdjust(order: seq<Item<int>>, open: set<int>, k: nat, e: int)
    requires Lists(order, open) && k < |order| && Distinct(order)
    ensures Lists(Adjust(order, k, e), open)
  {
    ListsWithout(order, open, k);
    ListsSplice(Without(order, k), open - {order[k].who}, NewPlace(Keys(order), k, e), Item(order[k].who, e));
    assert open - {order[k].who} + {order[k].who} == open;
  }

  lemma ListsDrop(order: seq<Item<int>>, open: set<int>, open': set<int>, n: nat)
    requires Lists(order, open) && n <= |order| && Distinct(order)
    requires forall fd :: fd in open' <==> fd in open && fd !in Fds(order)[..n]
    ensures Lists(order[n..], open')
  {
  }

  /** The table of clients; its entries are structs in place, so which entry is where never changes. */
  method NewUsers(n: nat) returns (users: seq<ClientData>)
    ensures |users| == n && forall i :: 0 <= i < n ==> fresh(users[i])
    ensures forall i, j :: 0 <= i < j < n ==> users[i] != users[j]
  {
    users := [];
    while |users| < n
      invariant |users| <= n
      invariant forall i :: 0 <= i < |users| ==> fresh(users[i])
      invariant forall i, j :: 0 <= i < j < |users| ==> users[i] != users[j]
    {
      var entry := new ClientData();
      users := users + [entry];
    }
  }

  class TimerServer {
    const listenfd: int
    const pipefd: int
    const users: seq<ClientData>
    const timerList: SortTimerList
    const fds: FdTable
    var timeout: bool
    var stopServer: bool

    ghost var s: Server

    /** The timer list is well, and its timers and the table entries of `s.order` belong together. */
    ghost predicate Core(s: Server)
      reads users`sockfd, users`timer, timerList`head, timerList`tail, timerList`nodes
      reads timerList.nodes`next, timerList.nodes`prev, timerList.nodes`live, timerList.nodes`expire
    {
      match s
      case Server(_, _, order, _, _, _) =>
        && |users| == FD_LIMIT && (forall i, j :: 0 <= i < j < |users| ==> users[i] != users[j])
        && timerList.Valid()
        && Paired(timerList.nodes, order, users)
    }

    /** The descriptors open are those of `s`, and so are the flags of the loop. */
    ghost predicate Rest(s: Server)
      reads `timeout, `stopServer, fds`open, fds`closed
    {
      && s.listenfd == listenfd && s.pipefd == pipefd
      && s.timeout == timeout && s.stop == stopServer && s.closed == fds.closed
      && Lists(s.order, fds.open)
      && listenfd !in fds.open && pipefd !in fds.open
    }

    ghost predicate Valid()
      reads this, users, timerList, timerList.nodes, fds
    {
      Core(s) && Rest(s)
    }

    constructor (listenfd: int, pipefd: int)
      ensures Valid() && s == Server(listenfd, pipefd, [], [], false, false)
      ensures fresh(timerList) && fresh(fds) && forall u :: u in users ==> fresh(u)
    {
      this.listenfd, this.pipefd := listenfd, pipefd;
      var table := NewUsers(FD_LIMIT);
      users := table;
      timerList := new SortTimerList();
      fds := new FdTable();
      timeout, stopServer := false, false;
      s := Server(listenfd, pipefd, [], [], false, false);
    }

    /** What `Valid` says of every open descriptor and of every timer. */
    lemma Bijection()
      requires Valid()
      ensures forall fd :: fd in fds.open ==>
                0 <= fd < |users| && users[fd].sockfd == fd && users[fd].timer != null &&
                users[fd].timer in timerList.nodes && users[fd].timer.live &&
                users[fd].timer.userData == users[fd]
      ensures forall t :: t in timerList.nodes ==>
                t.userData.sockfd in fds.open && t.userData.timer == t &&
                t.userData == users[t.userData.sockfd]
      ensures forall fd :: Open(s, fd) <==> fd in fds.open
    {
    }

    /** The state on values follows what has been done. */
    ghost method Become(s': Server)
      requires Core(s')
      requires s'.listenfd == listenfd && s'.pipefd == pipefd && listenfd !in fds.open && pipefd !in fds.open
      requires s'.timeout == timeout && s'.stop == stopServer && s'.closed == fds.closed && Lists(s'.order, fds.open)
      modifies `s
      ensures Valid() && s == s'
    {
      s := s';
    }

    lemma CoreKeys()
      requires Core(s)
      ensures timerList.Valid() && Paired(timerList.nodes, s.order, users)
      ensures |users| == FD_LIMIT && (forall i, j :: 0 <= i < j < |users| ==> users[i] != users[j])
      ensures timerList.Keys() == Keys(s.order) && Distinct(s.order) && |timerList.nodes| == |s.order|
    {
    }

    // ----- The list operations, seen from the table -----

    method Enlist(t: UtilTimer, ghost x: Item<int>, ghost s': Server)
      requires Core(s) && Pair(t, x, users) && s'.order == Insert(s.order, x)
      requires t !in timerList.nodes && t.live && t.next == null && t.prev == null
      modifies timerList, t`next, t`prev, timerList.nodes`next, timerList.nodes`prev
      ensures Core(s')
      ensures forall i :: 0 <= i < |timerList.nodes| ==>
                timerList.nodes[i] in old(timerList.nodes) || timerList.nodes[i] == t
    {
      hide Core, Paired, Insert, Splice, FirstGreater, SortTimerList.Valid;
      ghost var l := timerList.nodes;
      CoreKeys();
      timerList.AddTimer(t);
      AfterEnlist(l, t, x, s');
    }

    lemma AfterEnlist(l: seq<UtilTimer>, t: UtilTimer, x: Item<int>, s': Server)
      requires |users| == FD_LIMIT && (forall i, j :: 0 <= i < j < |users| ==> users[i] != users[j])
      requires timerList.Valid() && Paired(l, s.order, users) && Pair(t, x, users) && s'.order == Insert(s.order, x)
      requires timerList.nodes == Splice(l, FirstGreater(Keys(s.order), x.expire), t)
      ensures Core(s')
      ensures forall i :: 0 <= i < |timerList.nodes| ==> timerList.nodes[i] in l || timerList.nodes[i] == t
    {
      ghost var p := FirstGreater(Keys(s.order), x.expire);
      SpliceMembers(l, p, t);
      PairedSplice(l, s.order, users, p, t, x);
    }

    method Drop(t: UtilTimer, ghost k: nat, ghost s': Server)
      requires Core(s) && k < |s.order| && s'.order == Without(s.order, k)
      requires k < |timerList.nodes| && t == timerList.nodes[k]
      modifies timerList, timerList.nodes`next, timerList.nodes`prev, t`live
      ensures Core(s')
      ensures forall i :: 0 <= i < |timerList.nodes| ==> timerList.nodes[i] in old(timerList.nodes)
    {
      PairedWithout(timerList.nodes, s.order, users, k);
      WithoutMembers(timerList.nodes, k);
      timerList.DelTimer(t, k);
    }

    method PutOff(t: UtilTimer, e: int, ghost k: nat, ghost s': Server)
      requires Core(s) && k < |s.order| && s'.order == Adjust(s.order, k, e)
      requires k < |timerList.nodes| && t == timerList.nodes[k]
      modifies timerList, timerList.nodes`next, timerList.nodes`prev, t`expire
      ensures Core(s')
      ensures forall i :: 0 <= i < |timerList.nodes| ==> timerList.nodes[i] in old(timerList.nodes)
    {
      hide Core, Pair, Paired, Adjust, Splice, NewPlace, FirstGreater, SortTimerList.Valid;
      ghost var l := timerList.nodes;
      SetLater(t, e, k);
      timerList.AdjustTimer(t, k);
      AfterPutOff(l, t, e, k, s');
    }

    lemma AfterPutOff(l: seq<UtilTimer>, t: UtilTimer, e: int, k: nat, s': Server)
      requires |users| == FD_LIMIT && (forall i, j :: 0 <= i < j < |users| ==> users[i] != users[j])
      requires timerList.Valid() && k < |s.order| == |l| && l[k] == t && s'.order == Adjust(s.order, k, e)
      requires timerList.nodes == Splice(Without(l, k), NewPlace(Keys(s.order), k, e), t)
      requires Paired(Without(l, k), Without(s.order, k), users) && Pair(t, Item(s.order[k].who, e), users)
      ensures Core(s')
      ensures forall i :: 0 <= i < |timerList.nodes| ==> timerList.nodes[i] in l
    {
      ghost var p := NewPlace(Keys(s.order), k, e);
      WithoutMembers(l, k);
      SpliceMembers(Without(l, k), p, t);
      PairedSplice(Without(l, k), Without(s.order, k), users, p, t, Item(s.order[k].who, e));
    }

    /** The expiry of a listed timer is put off; the list is not told yet. */
    method SetLater(t: UtilTimer, e: int, ghost k: nat)
      requires Core(s) && k < |s.order|
      requires k < |timerList.nodes| && t == timerList.nodes[k]
      modifies t`expire
      ensures |users| == FD_LIMIT && (forall i, j :: 0 <= i < j < |users| ==> users[i] != users[j])
      ensures t.expire == e && timerList.Valid() && |s.order| == |timerList.nodes|
      ensures NewPlace(timerList.Keys(), k, e) == NewPlace(Keys(s.order), k, e)
      ensures Paired(Without(timerList.nodes, k), Without(s.order, k), users)
      ensures Pair(t, Item(s.order[k].who, e), users)
    {
      hide Core, Without, NewPlace, SortTimerList.Valid;
      CoreKeys();
      BeforeLater(t, k);
      t.SetExpire(e);
      SamePlace(timerList.Keys(), s.order, k, e);
    }

    lemma BeforeLater(t: UtilTimer, k: nat)
      requires Core(s) && k < |s.order| == |timerList.nodes| && t == timerList.nodes[k]
      ensures Paired(Without(timerList.nodes, k), Without(s.order, k), users)
      ensures t !in Without(timerList.nodes, k) && t.live && t.expire == s.order[k].expire
      ensures Pair(t, s.order[k], users)
      ensures forall i :: 0 <= i < |timerList.nodes| ==> timerList.nodes[i].expire == s.order[i].expire
      ensures forall i :: 0 <= i < |timerList.nodes| && i != k ==> timerList.nodes[i] != t
    {
    }

    /** The table entry of a new connection gets its descriptor and a new timer. */
    method NewTimer(connfd: int, now: int) returns (pTimer: UtilTimer)
      requires Core(s) && 0 <= connfd < FD_LIMIT
      requires |users| == FD_LIMIT && forall i :: 0 <= i < |s.order| ==> s.order[i].who != connfd
      modifies users[connfd]
      ensures fresh(pTimer) && pTimer.live && pTimer.next == null && pTimer.prev == null
      ensures Core(s) && Pair(pTimer, Item(connfd, now + 3 * TIMESLOT), users)
    {
      users[connfd].sockfd := connfd;
      pTimer := new UtilTimer(users[connfd]);
      pTimer.SetExpire(now + 3 * TIMESLOT);
      users[connfd].timer := pTimer;
      ghost var l, order := timerList.nodes, s.order;
      forall i | 0 <= i < |l| ensures Pair(l[i], order[i], users) {
        assert old(Pair(l[i], order[i], users)) && order[i].who != connfd;
      }
    }

    // ----- The branches of the event loop -----
    //
    // The branches hide all definitions and go by the facts that the lemmas beside them hand over.

    method HandleAccept(connfd: int, now: int)
      requires Valid()
      requires 0 <= connfd < |users| && connfd != listenfd && connfd != pipefd && connfd !in fds.open
      modifies this, users[connfd], timerList, timerList.nodes, fds
      ensures Valid() && s == Accept(old(s), connfd, now)
      ensures forall i :: 0 <= i < |timerList.nodes| ==>
                timerList.nodes[i] in old(timerList.nodes) || fresh(timerList.nodes[i])
    {
      hide *;
      AfterAccept(connfd, now);
      ghost var x, s' := Item(connfd, now + 3 * TIMESLOT), Accept(s, connfd, now);
      fds.Accepted(connfd);
      var pTimer := NewTimer(connfd, now);
      Enlist(pTimer, x, s');
      Become(s');
    }

    lemma AfterAccept(connfd: int, now: int)
      requires Valid() && connfd !in fds.open
      ensures Core(s) && |users| == FD_LIMIT
      ensures Accept(s, connfd, now) == s.(order := Insert(s.order, Item(connfd, now + 3 * TIMESLOT)))
      ensures Lists(Insert(s.order, Item(connfd, now + 3 * TIMESLOT)), fds.open + {connfd})
      ensures forall i :: 0 <= i < |s.order| ==> s.order[i].who != connfd
      ensures s.listenfd == listenfd && s.pipefd == pipefd && listenfd !in fds.open && pipefd !in fds.open
      ensures s.timeout == timeout && s.stop == stopServer && s.closed == fds.closed
    {
      assert fds.open + {connfd} - {connfd} == fds.open;
      ListsInsert(s.order, fds.open + {connfd}, Item(connfd, now + 3 * TIMESLOT));
    }

    /** The table entry of an open connection points at its timer. */
    lemma EntryOf(sockfd: int, k: nat)
      requires Valid() && sockfd in fds.open && k == Position(s.order, sockfd)
      ensures Core(s) && s.listenfd == listenfd && s.pipefd == pipefd && listenfd !in fds.open && pipefd !in fds.open
      ensures s.timeout == timeout && s.stop == stopServer && s.closed == fds.closed
      ensures k < |s.order| == |timerList.nodes| && s.order[k].who == sockfd && Distinct(s.order)
      ensures 0 <= sockfd < |users| && users[sockfd].timer == timerList.nodes[k] && users[sockfd].sockfd == sockfd
    {
    }

    lemma AfterHangup(sockfd: int, k: nat)
      requires Valid() && k == Position(s.order, sockfd) && k < |s.order|
      ensures Hangup(s, sockfd) == s.(order := Without(s.order, k), closed := s.closed + [sockfd])
      ensures Lists(Without(s.order, k), fds.open - {sockfd})
    {
      CoreKeys();
      ListsWithout(s.order, fds.open, k);
    }

    lemma AfterRefresh(sockfd: int, now: int, k: nat)
      requires Valid() && k == Position(s.order, sockfd) && k < |s.order|
      ensures Refresh(s, sockfd, now) == s.(order := Adjust(s.order, k, now + 3 * TIMESLOT))
      ensures Lists(Adjust(s.order, k, now + 3 * TIMESLOT), fds.open)
    {
      CoreKeys();
      ListsAdjust(s.order, fds.open, k, now + 3 * TIMESLOT);
    }

    /** `cb_func` and `del_timer`, as the error and the end-of-file branch run them. */
    method HandleHangup(sockfd: int)
      requires Valid() && sockfd in fds.open
      modifies this, timerList, timerList.nodes, fds
      ensures Valid() && s == Hangup(old(s), sockfd)
      ensures forall i :: 0 <= i < |timerList.nodes| ==> timerList.nodes[i] in old(timerList.nodes)
    {
      hide *;
      ghost var k, s' := Position(s.order, sockfd), Hangup(s, sockfd);
      EntryOf(sockfd, k);
      AfterHangup(sockfd, k);
      var timer := users[sockfd].timer;
      CbFunc(users[sockfd], fds);
      if timer != null {
        Drop(timer, k, s');
      }
      Become(s');
    }

    /** A client has sent something: its timer is put off. */
    method HandleData(sockfd: int, now: int)
      requires Valid() && sockfd in fds.open
      modifies this, timerList, timerList.nodes
      ensures Valid() && s == Refresh(old(s), sockfd, now)
      ensures forall i :: 0 <= i < |timerList.nodes| ==> timerList.nodes[i] in old(timerList.nodes)
    {
      hide *;
      ghost var k, s' := Position(s.order, sockfd), Refresh(s, sockfd, now);
      EntryOf(sockfd, k);
      AfterRefresh(sockfd, now, k);
      var timer := users[sockfd].timer;
      if timer != null {
        PutOff(timer, now + 3 * TIMESLOT, k, s');
      }
      Become(s');
    }

    /** The handler of the signal pipe: each byte is a signal number. */
    method HandleSignals(signals: seq<int>)
      requires Valid()
      modifies this
      ensures Valid() && s == Signal(old(s), signals)
    {
      hide Core, Lists;
      for i := 0 to |signals|
        invariant s == old(s) && Core(s) && Rest(s.(timeout := timeout, stop := stopServer))
        invariant timeout == (old(timeout) || SIGALRM in signals[..i])
        invariant stopServer == (old(stopServer) || SIGTERM in signals[..i])
      {
        assert signals[..i + 1] == signals[..i] + [signals[i]];
        if signals[i] == SIGALRM {
          timeout := true;
        } else if signals[i] == SIGTERM {
          stopServer := true;
        }
      }
      assert signals[..|signals|] == signals;
      SameOrder(s, Signal(s, signals));
      Become(Signal(s, signals));
    }

    lemma SameOrder(s: Server, s': Server)
      requires Core(s) && s.order == s'.order
      ensures Core(s')
    {
    }

    /** The body of the loop over the epoll result. */
    method HandleEvent(e: Event)
      requires Valid() && Allowed(s, e)
      modifies this, users, timerList, timerList.nodes, fds
      ensures Valid() && s == Handle(old(s), e)
      ensures forall i :: 0 <= i < |timerList.nodes| ==>
                timerList.nodes[i] in old(timerList.nodes) || fresh(timerList.nodes[i])
    {
      hide Core, Rest, Accept, Hangup, Refresh, Signal, Allowed;
      AllowedHere(e);
      if e.sockfd == listenfd {
        HandleAccept(e.connfd, e.now);
      } else if e.sockfd == pipefd && e.epollin {
        HandleSignals(e.signals);
      } else if e.epollin {
        match e.recv
        case Failed => HandleHangup(e.sockfd);
        case Again =>
        case Bytes(count) =>
          if count == 0 {
            HandleHangup(e.sockfd);
          } else {
            HandleData(e.sockfd, e.now);
          }
      }
    }

    lemma AllowedHere(e: Event)
      requires Valid() && Allowed(s, e)
      ensures s.listenfd == listenfd && s.pipefd == pipefd && |users| == FD_LIMIT
      ensures e.sockfd == listenfd ==>
                0 <= e.connfd < FD_LIMIT && e.connfd != listenfd && e.connfd != pipefd && e.connfd !in fds.open
      ensures e.sockfd != listenfd && e.sockfd != pipefd && e.epollin ==> e.sockfd in fds.open
    {
    }

    lemma BeforeTick(socks: seq<int>)
      requires Valid() && socks == Fds(s.order)
      ensures timerList.Valid() && Sockets(Owners(timerList.nodes), socks)
      ensures timerList.Keys() == Keys(s.order) && Paired(timerList.nodes, s.order, users) && Distinct(s.order)
      ensures |users| == FD_LIMIT && (forall i, j :: 0 <= i < j < |users| ==> users[i] != users[j])
      ensures s.listenfd == listenfd && s.pipefd == pipefd && s.timeout == timeout && s.stop == stopServer
      ensures s.closed == fds.closed && Lists(s.order, fds.open) && listenfd !in fds.open && pipefd !in fds.open
    {
    }

    lemma AfterTick(now: int, l: seq<UtilTimer>, open: set<int>, socks: seq<int>, n: nat)
      requires timerList.Valid() && Paired(l, s.order, users) && Distinct(s.order) && Lists(s.order, open)
      requires |users| == FD_LIMIT && (forall i, j :: 0 <= i < j < |users| ==> users[i] != users[j])
      requires s.listenfd == listenfd && s.pipefd == pipefd && s.timeout && s.stop == stopServer
      requires listenfd !in open && pipefd !in open && socks == Fds(s.order)
      requires n == FirstGreater(Keys(s.order), now) && n <= |l| && timerList.nodes == l[n..]
      requires Closes(open, s.closed, fds.open, fds.closed, socks, n)
      ensures Core(Finish(s, now)) && Lists(Finish(s, now).order, fds.open) && Finish(s, now).closed == fds.closed
      ensures listenfd !in fds.open && pipefd !in fds.open
      ensures Finish(s, now).listenfd == listenfd && Finish(s, now).pipefd == pipefd
      ensures !Finish(s, now).timeout && Finish(s, now).stop == stopServer
    {
      ListsDrop(s.order, open, fds.open, n);
      assert Fds(Due(s.order, now)) == socks[..n];
    }

    /** `timer_handler`, at the end of a round in which a SIGALRM came in. */
    method FinishRound(now: int)
      requires Valid()
      modifies this, timerList, timerList.nodes, fds
      ensures Valid() && s == Finish(old(s), now)
      ensures forall i :: 0 <= i < |timerList.nodes| ==> timerList.nodes[i] in old(timerList.nodes)
    {
      hide *;
      if timeout {
        ghost var l, open, socks := timerList.nodes, fds.open, Fds(s.order);
        BeforeTick(socks);
        ghost var n := timerList.Tick(now, fds, socks);
        AfterTick(now, l, open, socks, n);
        timeout := false;
        Become(Finish(s, now));
      } else {
        NotFinished(now);
      }
    }

    lemma NotFinished(now: int)
      requires Valid() && !timeout
      ensures s == Finish(s, now)
    {
    }

    /** One round of the event loop: everything epoll reported, and then the timers. */
    method Round(events: seq<Event>, now: int)
      requires Valid() && AllAllowed(s, events)
      modifies this, users, timerList, timerList.nodes, fds
      ensures Valid() && s == Finish(HandleAll(old(s), events), now)
      ensures forall i :: 0 <= i < |timerList.nodes| ==>
                timerList.nodes[i] in old(timerList.nodes) || fresh(timerList.nodes[i])
    {
      hide Valid, Handle, Allowed, Finish;
      for i := 0 to |events|
        invariant Valid() && AllAllowed(s, events[i..])
        invariant HandleAll(s, events[i..]) == HandleAll(old(s), events)
        invariant forall i :: 0 <= i < |timerList.nodes| ==>
                  timerList.nodes[i] in old(timerList.nodes) || fresh(timerList.nodes[i])
      {
        assert events[i..][1..] == events[i + 1..];
        HandleEvent(events[i]);
      }
      FinishRound(now);
    }

    /** The event loop, on what epoll returns in each round. */
    method Run(batches: seq<Batch>)
      requires Valid() && LegalBatches(s, batches)
      modifies this, users, timerList, timerList.nodes, fds
      ensures Valid() && s == Serve(old(s), batches)
    {
      hide Core, AllAllowed, HandleAll, Finish;
      var i := 0;
      while !stopServer && i < |batches|
        invariant Valid() && i <= |batches| && LegalBatches(s, batches[i..])
        invariant Serve(s, batches[i..]) == Serve(old(s), batches)
        invariant forall i :: 0 <= i < |timerList.nodes| ==>
                  timerList.nodes[i] in old(timerList.nodes) || fresh(timerList.nodes[i])
      {
        if batches[i].EpollFailed? {
          break;
        }
        assert batches[i..][1..] == batches[i + 1..];
        Round(batches[i].events, batches[i].now);
        i := i + 1;
      }
    }
  }
}
