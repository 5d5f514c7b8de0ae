/**
 The idle-connection server on values: the accepted connections in the order of the timer
 list, each with its expiry time, and the two flags of the event loop.

 What the system calls return is part of the events: `accept` gives a descriptor that is in
 range and not in use, and epoll reports only descriptors that are open.
 */
module TimerServerSpec {
  import opened SortedList

  const FD_LIMIT := 65535
  const TIMESLOT := 5
  const SIGALRM := 14
  const SIGTERM := 15

  /** What `recv` on a client returns: an error, EAGAIN, or a number of bytes (0 at end of file). */
  datatype Recv = Failed | Again | Bytes(count: nat)

  /**
   One entry of the epoll result, with what the calls made for it will return: `connfd` from
   `accept`, `recv` from a client's `recv`, `signals` from the signal pipe (empty when that fails).
   */
  datatype Event = Event(sockfd: int, epollin: bool, connfd: int, recv: Recv, signals: seq<int>, now: int)

  datatype Batch = EpollFailed | Batch(events: seq<Event>, now: int)

  datatype Server = Server(listenfd: int, pipefd: int, order: seq<Item<int>>, closed: seq<int>,
                           timeout: bool, stop: bool)

  function Fds(order: seq<Item<int>>): (fds: seq<int>)
    ensures |fds| == |order| && forall i :: 0 <= i < |order| ==> fds[i] == order[i].who
  {
    seq(|order|, i requires 0 <= i < |order| => order[i].who)
  }

  /** The place of a descriptor in the order, or the end. */
  function Position(order: seq<Item<int>>, fd: int): (k: nat)
    ensures k <= |order|
    ensures forall i :: 0 <= i < k ==> order[i].who != fd
    ensures k < |order| ==> order[k].who == fd
  {
    if order == [] || order[0].who == fd then 0 else 1 + Position(order[1..], fd)
  }

  ghost predicate Open(s: Server, fd: int) {
    exists k :: 0 <= k < |s.order| && s.order[k].who == fd
  }

  // ----- The event loop -----

  ghost predicate Allowed(s: Server, e: Event) {
    if e.sockfd == s.listenfd then
      0 <= e.connfd < FD_LIMIT && e.connfd != s.listenfd && e.connfd != s.pipefd && !Open(s, e.connfd)
    else
      e.epollin && e.sockfd != s.pipefd ==> Open(s, e.sockfd)
  }

  function Accept(s: Server, fd: int, now: int): Server {
    s.(order := Insert(s.order, Item(fd, now + 3 * TIMESLOT)))
  }

  function Hangup(s: Server, fd: int): Server {
    var k := Position(s.order, fd);
    s.(order := if k < |s.order| then Without(s.order, k) else s.order, closed := s.closed + [fd])
  }

  function Refresh(s: Server, fd: int, now: int): Server {
    var k := Position(s.order, fd);
    if k < |s.order| then s.(order := Adjust(s.order, k, now + 3 * TIMESLOT)) else s
  }

  function Signal(s: Server, signals: seq<int>): Server {
    s.(timeout := s.timeout || SIGALRM in signals, stop := s.stop || SIGTERM in signals)
  }

  function Handle(s: Server, e: Event): Server {
    if e.sockfd == s.listenfd then Accept(s, e.connfd, e.now)
    else if e.sockfd == s.pipefd && e.epollin then Signal(s, e.signals)
    else if e.epollin then
      match e.recv
      case Again => s
      case Failed => Hangup(s, e.sockfd)
      case Bytes(count) => if count == 0 then Hangup(s, e.sockfd) else Refresh(s, e.sockfd, e.now)
    else s
  }

  function HandleAll(s: Server, es: seq<Event>): Server
    decreases |es|
  {
    if es == [] then s else HandleAll(Handle(s, es[0]), es[1..])
  }

  /** The end of a round: `timer_handler` if a SIGALRM came in. */
  function Finish(s: Server, now: int): Server {
    if s.timeout then
      s.(order := NotDue(s.order, now), closed := s.closed + Fds(Due(s.order, now)), timeout := false)
    else s
  }

  function Serve(s: Server, bs: seq<Batch>): Server
    decreases |bs|
  {
    if s.stop || bs == [] || bs[0].EpollFailed? then s
    else Serve(Finish(HandleAll(s, bs[0].events), bs[0].now), bs[1..])
  }

  ghost predicate AllAllowed(s: Server, es: seq<Event>)
    decreases |es|
  {
    es == [] || (Allowed(s, es[0]) && AllAllowed(Handle(s, es[0]), es[1..]))
  }

  ghost predicate LegalBatches(s: Server, bs: seq<Batch>)
    decreases |bs|
  {
    if s.stop || bs == [] || bs[0].EpollFailed? then true
    else
      && AllAllowed(s, bs[0].events)
      && LegalBatches(Finish(HandleAll(s, bs[0].events), bs[0].now), bs[1..])
  }

  // ----- The reference: connections by last activity -----

  /** A connection and the time of its last activity: being accepted, or sending something. */
  datatype Seen = Seen(fd: int, last: int)

  function Forget(seen: seq<Seen>, fd: int): seq<Seen> {
    if seen == [] then []
    else (if seen[0].fd == fd then [] else [seen[0]]) + Forget(seen[1..], fd)
  }

  /** Connections that were active within the last three slots. */
  function Recent(seen: seq<Seen>, now: int): seq<Seen> {
    if seen == [] then []
    else (if seen[0].last > now - 3 * TIMESLOT then [seen[0]] else []) + Recent(seen[1..], now)
  }

  /** Activity moves a connection to the back; a closed one is forgotten. */
  function LruHandle(s: Server, seen: seq<Seen>, e: Event): seq<Seen> {
    if e.sockfd == s.listenfd then seen + [Seen(e.connfd, e.now)]
    else if e.sockfd == s.pipefd || !e.epollin || e.recv.Again? then seen
    else if e.recv.Failed? || e.recv.count == 0 then Forget(seen, e.sockfd)
    else Forget(seen, e.sockfd) + [Seen(e.sockfd, e.now)]
  }

  function LruHandleAll(s: Server, seen: seq<Seen>, es: seq<Event>): seq<Seen>
    decreases |es|
  {
    if es == [] then seen else LruHandleAll(Handle(s, es[0]), LruHandle(s, seen, es[0]), es[1..])
  }

  function LruFinish(s: Server, seen: seq<Seen>, now: int): seq<Seen> {
    if s.timeout then Recent(seen, now) else seen
  }

  function LruServe(s: Server, seen: seq<Seen>, bs: seq<Batch>): seq<Seen>
    decreases |bs|
  {
    if s.stop || bs == [] || bs[0].EpollFailed? then seen
    else
      var s1 := HandleAll(s, bs[0].events);
      LruServe(Finish(s1, bs[0].now), LruFinish(s1, LruHandleAll(s, seen, bs[0].events), bs[0].now), bs[1..])
  }

  // ----- Time -----

  /** The clock at the end of `es`, if it never runs backwards. */
  ghost predicate Forwards(clock: int, es: seq<Event>, end: int)
    decreases |es|
  {
    if es == [] then clock <= end else clock <= es[0].now && Forwards(es[0].now, es[1..], end)
  }

  ghost predicate ClockRunsForwards(clock: int, bs: seq<Batch>)
    decreases |bs|
  {
    bs == [] || bs[0].EpollFailed? ||
    (Forwards(clock, bs[0].events, bs[0].now) && ClockRunsForwards(bs[0].now, bs[1..]))
  }
}
