/**
 The parent of the process pool on values: which children live, whose turn it is, and what has
 been sent, closed and killed so far.

 The event handler is a step driven by an arbitrary sequence of events.  What the system calls
 return is part of the events: for SIGCHLD the results of `waitpid`, up to the first that is
 not positive.
 */
module ProcessPoolSpec {
  import opened ModArith

  const REAPED := -1

  datatype Signal = Child(waited: seq<int>) | Terminate | Ignored

  datatype Event = Connection | Signals(signals: seq<Signal>) | Other

  /**
   `pids[i]` is the process of child i, or -1; `sent` the children that were sent a connection,
   `closed` the children whose pipe the parent has closed, `killed` the processes sent SIGTERM.
   */
  datatype Pool = Pool(pids: seq<int>, counter: nat, stop: bool,
                       sent: seq<nat>, closed: seq<nat>, killed: seq<int>)

  predicate WellFormed(p: Pool) {
    p.counter < |p.pids|
  }

  /** The child whose turn comes as number `u`, going round among `n`. */
  function Turn(u: nat, n: nat): (r: nat)
    requires n >= 1
    ensures r < n
  {
    u % n
  }

  predicate Lives(pids: seq<int>, i: nat) {
    i < |pids| && pids[i] != REAPED
  }

  /** Whether the child `k` places after child `from`, going round, lives. */
  predicate LivesAfter(pids: seq<int>, from: nat, k: nat)
    requires |pids| >= 1
  {
    Lives(pids, Turn(from + k, |pids|))
  }

  /** How many children are passed over, from child `from + k` on; all of them if none lives. */
  function Skip(pids: seq<int>, from: nat, k: nat): (r: nat)
    requires k <= |pids| && |pids| >= 1
    ensures k <= r <= |pids|
    ensures forall j :: k <= j < r ==> !LivesAfter(pids, from, j)
    ensures r < |pids| ==> LivesAfter(pids, from, r)
    decreases |pids| - k
  {
    if k == |pids| || LivesAfter(pids, from, k) then k else Skip(pids, from, k + 1)
  }

  predicate AllReaped(pids: seq<int>) {
    forall i :: 0 <= i < |pids| ==> pids[i] == REAPED
  }

  /** A new connection goes to the next living child. */
  function Dispatch(p: Pool): (p': Pool)
    requires WellFormed(p)
    ensures WellFormed(p') && |p'.pids| == |p.pids| && p.sent <= p'.sent
  {
    var n := |p.pids|;
    var k := Skip(p.pids, p.counter, 0);
    if k == n then p.(stop := true)
    else
      var i := Turn(p.counter + k, n);
      p.(counter := Turn(i + 1, n), sent := p.sent + [i])
  }

  /** The child with this process, or the number of children. */
  function ChildOf(pids: seq<int>, pid: int): (i: nat)
    ensures i <= |pids|
    ensures forall j :: 0 <= j < i ==> pids[j] != pid
    ensures i < |pids| ==> pids[i] == pid
  {
    if pids == [] || pids[0] == pid then 0 else 1 + ChildOf(pids[1..], pid)
  }

  function Reap(p: Pool, pid: int): (p': Pool)
    ensures p'.counter == p.counter && |p'.pids| == |p.pids| && p'.sent == p.sent {
    var i := ChildOf(p.pids, pid);
    if i < |p.pids| then p.(pids := p.pids[i := REAPED], closed := p.closed + [i]) else p
  }

  function ReapAll(p: Pool, waited: seq<int>): (p': Pool)
    ensures p'.counter == p.counter && |p'.pids| == |p.pids| && p'.sent == p.sent
    decreases |waited|
  {
    if waited == [] || waited[0] <= 0 then p else ReapAll(Reap(p, waited[0]), waited[1..])
  }

  function Living(pids: seq<int>): seq<int> {
    if pids == [] then []
    else
      var k := |pids| - 1;
      Living(pids[..k]) + if pids[k] != REAPED then [pids[k]] else []
  }

  function Receive(p: Pool, signal: Signal): (p': Pool)
    ensures p'.counter == p.counter && |p'.pids| == |p.pids| && p'.sent == p.sent {
    match signal
    case Child(waited) => var p' := ReapAll(p, waited); p'.(stop := AllReaped(p'.pids))
    case Terminate => p.(killed := p.killed + Living(p.pids))
    case Ignored => p
  }

  function ReceiveAll(p: Pool, signals: seq<Signal>): (p': Pool)
    ensures p'.counter == p.counter && |p'.pids| == |p.pids| && p'.sent == p.sent
    decreases |signals|
  {
    if signals == [] then p else ReceiveAll(Receive(p, signals[0]), signals[1..])
  }

  function Handle(p: Pool, e: Event): (p': Pool)
    requires WellFormed(p)
    ensures WellFormed(p') && |p'.pids| == |p.pids| && p.sent <= p'.sent
  {
    match e
    case Connection => Dispatch(p)
    case Signals(signals) => ReceiveAll(p, signals)
    case Other => p
  }

  /** A connection for which no child is left ends the event loop. */
  predicate Breaks(p: Pool, e: Event) {
    e.Connection? && AllReaped(p.pids)
  }

  function HandleAll(p: Pool, es: seq<Event>): (p': Pool)
    requires WellFormed(p)
    ensures WellFormed(p') && |p'.pids| == |p.pids| && p.sent <= p'.sent
    decreases |es|
  {
    if es == [] then p
    else if Breaks(p, es[0]) then Handle(p, es[0])
    else HandleAll(Handle(p, es[0]), es[1..])
  }

  // ----- Counting -----

  function Count(s: seq<nat>, c: nat): nat {
    if s == [] then 0 else Count(s[..|s| - 1], c) + if s[|s| - 1] == c then 1 else 0
  }

  /** How often turns `from` up to `until`, dealt round and round among `n`, come to `c`. */
  function Hits(from: nat, until: nat, c: nat, n: nat): nat
    requires from <= until && c < n
    decreases until - from
  {
    if from == until then 0 else Hits(from, until - 1, c, n) + if Turn(until - 1, n) == c then 1 else 0
  }
}
