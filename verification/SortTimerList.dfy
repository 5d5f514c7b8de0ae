/**
 The doubly linked timer list with head and tail, as the source links it.

 `delete` clears a timer's ghost flag `live`; links and expiry are read and written only
 through members that require it.  A timer handed to `AddTimer` is fresh from its
 constructor, so its links are null.
 */
module SortTimerLists {
  import opened SortedList

  class ClientData {
    var sockfd: int
    var timer: UtilTimer?

    constructor ()
      ensures timer == null
    {
      sockfd, timer := 0, null;
    }
  }

  /** The descriptors of accepted clients: those open, and the `close` calls made so far. */
  class FdTable {
    var open: set<int>
    ghost var closed: seq<int>

    constructor ()
      ensures open == {} && closed == []
    {
      open, closed := {}, [];
    }

    /** `accept` has returned a new descriptor. */
    method Accepted(fd: int)
      modifies this
      ensures open == old(open) + {fd} && closed == old(closed)
    {
      open := open + {fd};
    }

    method Close(fd: int)
      modifies this
      ensures open == old(open) - {fd} && closed == old(closed) + [fd]
    {
      open, closed := open - {fd}, closed + [fd];
    }
  }

  class UtilTimer {
    var expire: int
    const userData: ClientData
    var prev: UtilTimer?
    var next: UtilTimer?
    ghost var live: bool

    constructor (userData: ClientData)
      ensures this.userData == userData && prev == null && next == null && live
    {
      expire, this.userData, prev, next, live := 0, userData, null, null, true;
    }

    function Expire(): int
      requires live
      reads this
    {
      expire
    }

    function UserData(): ClientData
      requires live
      reads this
    {
      userData
    }

    function Next(): UtilTimer?
      requires live
      reads this
    {
      next
    }

    function Prev(): UtilTimer?
      requires live
      reads this
    {
      prev
    }

    method SetExpire(e: int)
      requires live
      modifies this`expire
      ensures expire == e
    {
      expire := e;
    }

    method SetNext(t: UtilTimer?)
      requires live
      modifies this`next
      ensures next == t
    {
      next := t;
    }

    method SetPrev(t: UtilTimer?)
      requires live
      modifies this`prev
      ensures prev == t
    {
      prev := t;
    }

    /** `delete`. */
    ghost method Free()
      requires live
      modifies this`live
      ensures !live
    {
      live := false;
    }
  }

  /** The callback of every timer in the source: the client's descriptor is closed. */
  method CbFunc(userData: ClientData, fds: FdTable)
    modifies fds
    ensures fds.open == old(fds.open) - {userData.sockfd}
    ensures fds.closed == old(fds.closed) + [userData.sockfd]
  {
    fds.Close(userData.sockfd);
  }

  /** The timers `l`, in this order, are a doubly linked list of live timers. */
  ghost predicate Chain(l: seq<UtilTimer>)
    reads l`next, l`prev, l`live
  {
    && (forall j :: 0 <= j < |l| ==> l[j].live)
    && (forall j, k :: 0 <= j < k < |l| ==> l[j] != l[k])
    && (forall j, k :: 0 <= j < |l| && k == j + 1 < |l| ==> l[j].next == l[k] && l[k].prev == l[j])
    && (forall j :: 0 <= j < |l| ==> (j == 0 ==> l[j].prev == null) && (j == |l| - 1 ==> l[j].next == null))
  }

  ghost function Opt(t: UtilTimer?): set<UtilTimer> {
    if t == null then {} else {t}
  }

  ghost predicate HaveKeys(l: seq<UtilTimer>, ks: seq<int>)
    reads l`expire
  {
    |ks| == |l| && forall i :: 0 <= i < |l| ==> ks[i] == l[i].expire
  }

  /** The timers `l`, each with its expiry, as the list on values has them. */
  ghost predicate Listed(l: seq<UtilTimer>, items: seq<Item<UtilTimer>>)
    reads l`expire
  {
    |items| == |l| && forall i :: 0 <= i < |l| ==> items[i] == Item(l[i], l[i].expire)
  }

  lemma ListedOnce(l: seq<UtilTimer>, items: seq<Item<UtilTimer>>, items': seq<Item<UtilTimer>>)
    requires Listed(l, items) && Listed(l, items')
    ensures items == items'
  {
  }

  lemma ListedKeys(l: seq<UtilTimer>, items: seq<Item<UtilTimer>>, ks: seq<int>)
    requires Listed(l, items) && HaveKeys(l, ks)
    ensures ks == Keys(items)
  {
  }

  lemma ListedSplice(l: seq<UtilTimer>, items: seq<Item<UtilTimer>>, p: nat, t: UtilTimer)
    requires Listed(l, items) && p <= |l|
    ensures Listed(Splice(l, p, t), Splice(items, p, Item(t, t.expire)))
  {
  }

  lemma ListedWithout(l: seq<UtilTimer>, items: seq<Item<UtilTimer>>, k: nat)
    requires Listed(l, items) && k < |l|
    ensures Listed(Without(l, k), Without(items, k))
  {
  }

  /** Since `open` and `closed`, exactly the first `n` of `socks` have been closed, in this order. */
  ghost predicate Closes(open: set<int>, closed: seq<int>, open': set<int>, closed': seq<int>,
                         socks: seq<int>, n: nat)
  {
    && n <= |socks| && closed' == closed + socks[..n]
    && forall fd :: fd in open' <==> fd in open && fd !in socks[..n]
  }

  lemma ClosesNone(open: set<int>, closed: seq<int>, socks: seq<int>)
    ensures Closes(open, closed, open, closed, socks, 0)
  {
  }

  lemma ClosesMore(open: set<int>, closed: seq<int>, open': set<int>, closed': seq<int>, us: seq<ClientData>,
                   socks: seq<int>, n: nat)
    requires Closes(open, closed, open', closed', socks, n) && Sockets(us, socks) && n < |us|
    ensures var fd := us[n].sockfd; Closes(open, closed, open' - {fd}, closed' + [fd], socks, n + 1)
  {
  }

  /** The descriptors of the clients `us`. */
  ghost predicate Sockets(us: seq<ClientData>, socks: seq<int>)
    reads us`sockfd
  {
    |socks| == |us| && forall i :: 0 <= i < |us| ==> socks[i] == us[i].sockfd
  }

  ghost function Owners(l: seq<UtilTimer>): (us: seq<ClientData>)
    ensures |us| == |l| && forall i :: 0 <= i < |l| ==> us[i] == l[i].userData
  {
    seq(|l|, i requires 0 <= i < |l| => l[i].userData)
  }

  // ----- The search -----

  /** The loop of the two-argument `add_timer`, which starts behind the timer at position `j`. */
  method FindPlace(timer: UtilTimer, lstHead: UtilTimer, ghost l: seq<UtilTimer>, ghost ks: seq<int>, ghost j: nat)
    returns (prev: UtilTimer, tmp: UtilTimer?, ghost p: nat)
    requires Chain(l) && HaveKeys(l, ks) && j < |l| && lstHead == l[j] && timer.live
    ensures p == NewPlace(ks, j, timer.expire) + 1 && p <= |l|
    ensures prev == l[p - 1] && tmp == if p < |l| then l[p] else null
  {
    hide NewPlace, FirstGreater;
    prev := lstHead;
    tmp := prev.Next();
    p := j + 1;
    while tmp != null && !(timer.Expire() < tmp.Expire())
      invariant j < p <= |l| && prev == l[p - 1]
      invariant tmp == if p < |l| then l[p] else null
      invariant forall i :: j < i < p ==> ks[i] <= timer.expire
      decreases |l| - p
    {
      prev := tmp;
      tmp := tmp.Next();
      p := p + 1;
    }
    NewPlaceUnique(ks, j, timer.expire, p);
  }

  // ----- The linking steps -----

  /** The timer behind the first becomes the head and loses its predecessor, if there is one. */
  method DropFirst(t: UtilTimer, ghost l: seq<UtilTimer>) returns (head: UtilTimer?)
    requires Chain(l) && l != [] && t == l[0]
    modifies l`prev
    ensures Chain(Without(l, 0)) && head == if |l| > 1 then l[1] else null
    ensures t.live && t.prev == old(t.prev)
  {
    assert |l| > 1 ==> t.next == l[1];
    assert forall j :: 0 <= j < |l| - 1 ==> Without(l, 0)[j] == l[j + 1];
    head := t.Next();
    if head != null {
      head.SetPrev(null);
    }
  }

  /** The timer before the last becomes the tail and loses its successor. */
  method DropLast(t: UtilTimer, ghost l: seq<UtilTimer>) returns (tail: UtilTimer)
    requires Chain(l) && |l| > 1 && t == l[|l| - 1]
    modifies l`next
    ensures Chain(Without(l, |l| - 1)) && tail == l[|l| - 2]
  {
    assert t.prev == l[|l| - 2];
    assert forall j :: 0 <= j < |l| - 1 ==> Without(l, |l| - 1)[j] == l[j];
    tail := t.Prev();
    tail.SetNext(null);
  }

  /** The neighbours of an inner timer are linked past it. */
  method Bypass(t: UtilTimer, ghost l: seq<UtilTimer>, ghost k: nat)
    requires Chain(l) && 0 < k < |l| - 1 && t == l[k]
    modifies l`next, l`prev
    ensures Chain(Without(l, k))
    ensures t.next == old(t.next) && t.prev == old(t.prev)
  {
    assert t.prev == l[k - 1] && t.next == l[k + 1];
    t.Prev().SetNext(t.Next());
    t.Next().SetPrev(t.Prev());
  }

  /** A timer is linked in front of the head. */
  method LinkBefore(t: UtilTimer, head: UtilTimer, ghost l: seq<UtilTimer>)
    requires Chain(l) && l != [] && head == l[0] && t !in l && t.live && t.prev == null
    modifies t`next, l`prev
    ensures Chain([t] + l)
  {
    t.SetNext(head);
    head.SetPrev(t);
  }

  method LinkBetween(prev: UtilTimer, t: UtilTimer, tmp: UtilTimer, ghost l: seq<UtilTimer>, ghost p: nat)
    requires Chain(l) && 0 < p < |l| && prev == l[p - 1] && tmp == l[p] && t !in l && t.live
    modifies t`next, t`prev, l`next, l`prev
    ensures Chain(Splice(l, p, t))
  {
    ghost var l' := Splice(l, p, t);
    assert forall j :: 0 <= j < |l'| ==> l'[j] == if j < p then l[j] else if j == p then t else l[j - 1];
    hide Splice;
    prev.SetNext(t);
    t.SetPrev(prev);
    t.SetNext(tmp);
    tmp.SetPrev(t);
  }

  method LinkLast(prev: UtilTimer, t: UtilTimer, ghost l: seq<UtilTimer>)
    requires Chain(l) && l != [] && prev == l[|l| - 1] && t !in l && t.live
    modifies t`next, t`prev, l`next
    ensures Chain(Splice(l, |l|, t))
  {
    prev.SetNext(t);
    t.SetPrev(prev);
    t.SetNext(null);
  }

  /** `t` is linked in behind `prev`, before `tmp` or at the end. */
  method Link(prev: UtilTimer, t: UtilTimer, tmp: UtilTimer?, ghost l: seq<UtilTimer>, ghost p: nat)
    requires Chain(l) && 0 < p <= |l| && prev == l[p - 1] && t !in l && t.live
    requires tmp == if p < |l| then l[p] else null
    modifies t`next, t`prev, l`next, l`prev
    ensures Chain(Splice(l, p, t))
  {
    if tmp != null {
      LinkBetween(prev, t, tmp, l, p);
    } else {
      LinkLast(prev, t, l);
    }
  }

  lemma GoneFrom(l: seq<UtilTimer>, k: nat)
    requires Chain(l) && k < |l|
    ensures l[k] !in Without(l, k) && |Without(l, k)| == |l| - 1
    ensures |l| == 1 ==> Without(l, k) == []
    ensures forall t :: t in Without(l, k) ==> t in l
    ensures k < |l| - 1 ==> Without(l, k)[k] == l[k + 1]
    ensures |l| > 1 ==> Without(l, k)[0] == if k == 0 then l[1] else l[0]
    ensures |l| > 1 ==> Without(l, k)[|l| - 2] == if k == |l| - 1 then l[|l| - 2] else l[|l| - 1]
  {
  }

  lemma EndsOfSplice(l: seq<UtilTimer>, p: nat, t: UtilTimer)
    requires 0 < p <= |l|
    ensures |Splice(l, p, t)| == |l| + 1 && Splice(l, p, t)[0] == l[0]
    ensures Splice(l, p, t)[|l|] == if p == |l| then t else l[|l| - 1]
  {
  }

  lemma EmptyChain()
    ensures Chain([])
  {
  }

  lemma AtFront(t: UtilTimer, l: seq<UtilTimer>)
    requires t.live && t.next == null && t.prev == null
    ensures Chain([t]) && Splice(l, 0, t) == [t] + l
  {
  }

  lemma KeysWithout(l: seq<UtilTimer>, ks: seq<int>, k: nat)
    requires HaveKeys(l, ks) && k < |l|
    ensures HaveKeys(Without(l, k), Without(ks, k))
  {
  }

  class SortTimerList {
    var head: UtilTimer?
    var tail: UtilTimer?
    ghost var nodes: seq<UtilTimer>

    /**
     The class invariant.  `Tick` can empty the list and leave `tail` pointing at a freed timer,
     so `tail` means something only while the list is not empty.
     */
    ghost predicate Valid()
      reads `head, `tail, `nodes, nodes`next, nodes`prev, nodes`live
    {
      && Chain(nodes)
      && head == (if nodes == [] then null else nodes[0])
      && (nodes != [] ==> tail == nodes[|nodes| - 1])
    }

    ghost function Keys(): (ks: seq<int>)
      reads this, nodes
      ensures |ks| == |nodes| && forall i :: 0 <= i < |nodes| ==> ks[i] == nodes[i].expire
    {
      seq(|nodes|, i requires 0 <= i < |nodes| reads this, nodes => nodes[i].expire)
    }

    /** The list on values: what the list operations of module SortedList work on. */
    ghost function Items(): (items: seq<Item<UtilTimer>>)
      reads this, nodes
      ensures Listed(nodes, items)
    {
      seq(|nodes|, i requires 0 <= i < |nodes| reads this, nodes => Item(nodes[i], nodes[i].expire))
    }

    lemma ItemsKeys()
      ensures Keys() == SortedList.Keys(Items())
    {
      ListedKeys(nodes, Items(), Keys());
    }

    /** A timer is in its place behind all timers in front that are due no later. */
    lemma Added(l: seq<UtilTimer>, items: seq<Item<UtilTimer>>, t: UtilTimer)
      requires Listed(l, items) && nodes == Splice(l, FirstGreater(SortedList.Keys(items), t.expire), t)
      ensures Items() == Insert(items, Item(t, t.expire))
      ensures Sorted(SortedList.Keys(items)) ==> Sorted(Keys())
    {
      ListedSplice(l, items, FirstGreater(SortedList.Keys(items), t.expire), t);
      ListedOnce(nodes, Items(), Insert(items, Item(t, t.expire)));
      ItemsKeys();
      if Sorted(SortedList.Keys(items)) {
        InsertIsStable(items, Item(t, t.expire));
      }
    }

    lemma Adjusted(l: seq<UtilTimer>, items: seq<Item<UtilTimer>>, t: UtilTimer, k: nat)
      requires Listed(l, items) && k < |l| && l[k] == t
      requires forall i, j :: 0 <= i < j < |l| ==> l[i] != l[j]
      requires nodes == Splice(Without(l, k), NewPlace(SortedList.Keys(items), k, t.expire), t)
      ensures Items() == Adjust(items, k, t.expire)
      ensures SortedBut(SortedList.Keys(items), k) ==>
                (Sorted(Keys()) <==> k == 0 || items[k - 1].expire <= t.expire)
    {
      var p := NewPlace(SortedList.Keys(items), k, t.expire);
      ListedWithout(l, items, k);
      ListedSplice(Without(l, k), Without(items, k), p, t);
      ListedOnce(nodes, Items(), Adjust(items, k, t.expire));
      ItemsKeys();
      if SortedBut(SortedList.Keys(items), k) {
        AdjustIsReinsert(items, k, t.expire);
      }
    }

    lemma Removed(l: seq<UtilTimer>, items: seq<Item<UtilTimer>>, k: nat)
      requires Listed(l, items) && k < |l| && nodes == Without(l, k)
      ensures Items() == Without(items, k)
      ensures Sorted(SortedList.Keys(items)) ==> Sorted(Keys())
    {
      ListedWithout(l, items, k);
      ListedOnce(nodes, Items(), Without(items, k));
      ItemsKeys();
      if Sorted(SortedList.Keys(items)) {
        KeysOfWithout(items, k);
        WithoutSorted(SortedList.Keys(items), k);
      }
    }

    lemma Ticked(l: seq<UtilTimer>, items: seq<Item<UtilTimer>>, cur: int, n: nat)
      requires Listed(l, items) && n == FirstGreater(SortedList.Keys(items), cur) && n <= |l| && nodes == l[n..]
      ensures Items() == NotDue(items, cur) && items[..n] == Due(items, cur)
      ensures Sorted(SortedList.Keys(items)) ==>
                Sorted(Keys()) && Items() == Select(items, cur, false) && items[..n] == Select(items, cur, true)
    {
      ListedOnce(nodes, Items(), NotDue(items, cur));
      ItemsKeys();
      if Sorted(SortedList.Keys(items)) {
        EarlyStopIsFilter(items, cur);
      }
    }

    ghost method Settle(now: seq<UtilTimer>)
      requires Chain(now) && head == (if now == [] then null else now[0])
      requires now != [] ==> tail == now[|now| - 1]
      modifies this`nodes
      ensures Valid() && nodes == now
    {
      nodes := now;
    }

    lemma AtEnds(k: nat)
      requires Valid() && k < |nodes|
      ensures Chain(nodes) && head == nodes[0] && tail == nodes[|nodes| - 1]
      ensures nodes[k] == head <==> k == 0
      ensures nodes[k] == tail <==> k == |nodes| - 1
      ensures nodes[k].live && (k + 1 < |nodes| ==> nodes[k].next == nodes[k + 1])
    {
    }

    constructor ()
      ensures Valid() && nodes == []
    {
      head, tail, nodes := null, null, [];
    }

    method AddTimer(timer: UtilTimer?)
      requires Valid()
      requires timer != null ==> timer !in nodes && timer.live && timer.next == null && timer.prev == null
      modifies this, Opt(timer)`next, Opt(timer)`prev, nodes`next, nodes`prev
      ensures Valid()
      ensures timer == null ==> nodes == old(nodes)
      ensures timer != null ==> nodes == Splice<UtilTimer>(old(nodes), FirstGreater(old(Keys()), timer.expire), timer)
      ensures timer != null ==> Items() == Insert(old(Items()), Item(timer, timer.expire))
      ensures Sorted(old(Keys())) ==> Sorted(Keys())
    {
      hide Chain, Listed, Insert, Splice, Sorted, NewPlace, FirstGreater;
      if timer == null {
        return;
      }
      ghost var l, items, ks := nodes, Items(), Keys();
      ItemsKeys();
      AtFront(timer, nodes);
      InFront(ks, timer.expire);
      if head == null {
        head := timer;
        tail := timer;
        Settle([timer]);
      } else {
        AtEnds(0);
        if timer.Expire() < head.Expire() {
          PushFront(timer);
        } else {
          FirstGreaterFrom(ks, timer.expire, 0);
          AddAfter(timer, head, ks, 0);
        }
      }
      Added(l, items, timer);
    }

    method PushFront(timer: UtilTimer)
      requires Valid() && nodes != [] && timer !in nodes && timer.live && timer.prev == null
      modifies this, timer`next, nodes`prev
      ensures Valid() && nodes == [timer] + old(nodes)
    {
      hide Valid, Chain;
      AtEnds(0);
      LinkBefore(timer, head, nodes);
      head := timer;
      Settle([timer] + nodes);
    }

    /** The two-argument overload: the search starts behind `lstHead`, which stands at position `j`. */
    method AddAfter(timer: UtilTimer, lstHead: UtilTimer, ghost ks: seq<int>, ghost j: nat)
      requires Valid() && timer !in nodes && timer.live
      requires HaveKeys(nodes, ks)
      requires j < |nodes| && lstHead == nodes[j]
      modifies this, timer`next, timer`prev, nodes`next, nodes`prev
      ensures Valid() && head == old(head)
      ensures nodes == Splice(old(nodes), NewPlace(ks, j, timer.expire) + 1, timer)
    {
      hide Splice, NewPlace, Chain;
      var prev, tmp;
      ghost var p;
      prev, tmp, p := FindPlace(timer, lstHead, nodes, ks, j);
      LinkAt(prev, timer, tmp, p);
    }

    method LinkAt(prev: UtilTimer, timer: UtilTimer, tmp: UtilTimer?, ghost p: nat)
      requires Valid() && timer !in nodes && timer.live && 0 < p <= |nodes|
      requires prev == nodes[p - 1] && tmp == if p < |nodes| then nodes[p] else null
      modifies this, timer`next, timer`prev, nodes`next, nodes`prev
      ensures Valid() && head == old(head)
      ensures nodes == Splice(old(nodes), p, timer)
    {
      hide Splice, Chain;
      EndsOfSplice(nodes, p, timer);
      Link(prev, timer, tmp, nodes, p);
      if tmp == null {
        tail := timer;
      }
      Settle(Splice(nodes, p, timer));
    }

    // ----- Taking a timer out, without freeing it -----

    method DetachFirst(timer: UtilTimer)
      requires Valid() && nodes != [] && timer == nodes[0]
      modifies this, nodes`prev
      ensures Valid() && nodes == Without(old(nodes), 0) && tail == old(tail)
      ensures timer !in nodes && timer.live
    {
      hide Chain, Without;
      GoneFrom(nodes, 0);
      head := DropFirst(timer, nodes);
      Settle(Without(nodes, 0));
    }

    method DetachLast(timer: UtilTimer)
      requires Valid() && |nodes| > 1 && timer == nodes[|nodes| - 1]
      modifies this, nodes`next
      ensures Valid() && nodes == Without(old(nodes), |old(nodes)| - 1)
      ensures timer !in nodes && timer.live
    {
      hide Chain, Without;
      AtEnds(|nodes| - 1);
      GoneFrom(nodes, |nodes| - 1);
      tail := DropLast(timer, nodes);
      Settle(Without(nodes, |nodes| - 1));
    }

    method DetachInner(timer: UtilTimer, ghost k: nat)
      requires Valid() && 0 < k < |nodes| - 1 && timer == nodes[k]
      modifies this`nodes, nodes`next, nodes`prev
      ensures Valid() && nodes == Without(old(nodes), k)
      ensures timer !in nodes && timer.live && timer.next == old(timer.next)
    {
      hide Chain, Without;
      AtEnds(k);
      GoneFrom(nodes, k);
      Bypass(timer, nodes, k);
      Settle(Without(nodes, k));
    }

    /** `adjust_timer` takes a timer out from before its successor. */
    method TakeOut(timer: UtilTimer, ghost k: nat) returns (from: UtilTimer)
      requires Valid() && k < |nodes| - 1 && timer == nodes[k]
      modifies this, nodes`next, nodes`prev
      ensures Valid() && nodes == Without(old(nodes), k) && timer !in nodes && timer.live
      ensures forall t :: t in nodes ==> t in old(nodes)
      ensures |nodes| == |old(nodes)| - 1 && from == nodes[k]
    {
      hide Valid, Chain, Without;
      AtEnds(k);
      GoneFrom(nodes, k);
      if timer == head {
        DetachFirst(timer);
        HeadIs();
        from := head;
        timer.SetNext(null);
      } else {
        DetachInner(timer, k);
        from := timer.Next();
      }
    }

    lemma HeadIs()
      requires Valid()
      ensures nodes != [] ==> head == nodes[0]
    {
    }

    /**
     The timer at position `k` has had its expiry changed by its owner.  If the other timers are
     in order the list ends up so exactly when the timer in front is due no later.
     */
    method AdjustTimer(timer: UtilTimer?, ghost k: nat)
      requires Valid()
      requires timer != null ==> k < |nodes| && timer == nodes[k]
      modifies this, nodes`next, nodes`prev
      ensures Valid()
      ensures timer == null ==> nodes == old(nodes)
      ensures timer != null ==>
                nodes == Splice<UtilTimer>(Without(old(nodes), k), NewPlace(old(Keys()), k, timer.expire), timer)
      ensures timer != null ==> Items() == Adjust(old(Items()), k, timer.expire)
      ensures timer != null && SortedBut(old(Keys()), k) ==>
                (Sorted(Keys()) <==> k == 0 || old(Keys())[k - 1] <= timer.expire)
    {
      hide Listed, Adjust, Sorted, SortedBut;
      if timer == null {
        return;
      }
      ghost var l, items := nodes, Items();
      ItemsKeys();
      AtEnds(k);
      MoveBack(timer, k);
      Adjusted(l, items, timer, k);
    }

    /** The work of `adjust_timer`: the timer stays where it is, or moves on behind its successor. */
    method MoveBack(timer: UtilTimer, ghost k: nat)
      requires Valid() && k < |nodes| && timer == nodes[k]
      modifies this, nodes`next, nodes`prev
      ensures Valid()
      ensures nodes == Splice(Without(old(nodes), k), NewPlace(old(Keys()), k, timer.expire), timer)
    {
      ghost var ks, p := Keys(), NewPlace(Keys(), k, timer.expire);
      assert k + 1 < |nodes| ==> timer.next == nodes[k + 1];
      var tmp := timer.Next();
      if tmp == null || timer.Expire() < tmp.Expire() {
        if tmp != null {
          SkipSuccessor(ks, k, timer.expire);
        }
        assert p == k;
        SpliceBack(nodes, k);
        return;
      }
      SkipSuccessor(ks, k, timer.expire);
      assert p == NewPlace(Without(ks, k), k, timer.expire) + 1;
      MoveOn(timer, ks, k, p);
    }

    /** The moving half of `adjust_timer`: out, and in again behind the successor. */
    method MoveOn(timer: UtilTimer, ghost ks: seq<int>, ghost k: nat, ghost p: nat)
      requires Valid() && HaveKeys(nodes, ks) && k < |nodes| - 1 && timer == nodes[k]
      requires p == NewPlace(Without(ks, k), k, timer.expire) + 1
      modifies this, nodes`next, nodes`prev
      ensures Valid() && nodes == Splice(Without(old(nodes), k), p, timer)
    {
      hide NewPlace, FirstGreater, Splice, Chain;
      KeysWithout(nodes, ks, k);
      var from := TakeOut(timer, k);
      AddAfter(timer, from, Without(ks, k), k);
    }

    method DelTimer(timer: UtilTimer?, ghost k: nat)
      requires Valid()
      requires timer != null ==> k < |nodes| && timer == nodes[k]
      modifies this, nodes`next, nodes`prev, Opt(timer)`live
      ensures Valid()
      ensures timer == null ==> nodes == old(nodes)
      ensures timer != null ==> nodes == Without(old(nodes), k) && !timer.live
      ensures timer != null ==> Items() == Without(old(Items()), k)
      ensures Sorted(old(Keys())) ==> Sorted(Keys())
    {
      hide Valid, Chain, Listed, Without, Sorted;
      if timer == null {
        return;
      }
      ghost var l, items := nodes, Items();
      ItemsKeys();
      AtEnds(k);
      GoneFrom(nodes, k);
      if timer == head && timer == tail {
        EmptyChain();
        timer.Free();
        head := null;
        tail := null;
        Settle([]);
      } else if timer == head {
        DetachFirst(timer);
        timer.Free();
      } else if timer == tail {
        DetachLast(timer);
        timer.Free();
      } else {
        DetachInner(timer, k);
        timer.Free();
      }
      Removed(l, items, k);
    }

    /** The first timer is unlinked and freed. */
    method PopFirst(tmp: UtilTimer)
      requires Valid() && nodes != [] && tmp == nodes[0]
      modifies this, nodes`prev, tmp`live
      ensures Valid() && nodes == Without(old(nodes), 0) && tail == old(tail) && !tmp.live
    {
      hide Valid, Chain, Without;
      DetachFirst(tmp);
      tmp.Free();
    }

    /** `tick` has taken the first `n` timers off the list `l`, whose expiries are `ks`. */
    ghost predicate Ticking(l: seq<UtilTimer>, ks: seq<int>, cur: int, n: nat)
      reads this, nodes`next, nodes`prev, nodes`live, l`live, l`expire
    {
      && Valid()
      && n <= |l| == |ks| && nodes == l[n..]
      && (forall i :: 0 <= i < |l| ==> l[i].live == (n <= i) && l[i].expire == ks[i])
      && (forall i :: 0 <= i < n ==> ks[i] <= cur)
    }

    lemma BeforeTake(tmp: UtilTimer, cur: int, l: seq<UtilTimer>, ks: seq<int>, n: nat)
      requires Ticking(l, ks, cur, n) && nodes != [] && tmp == head
      ensures n < |l| && tmp == l[n] == nodes[0] && Without(nodes, 0) == l[n + 1..]
      ensures forall j :: 0 <= j < |l| && j != n ==> l[j] != tmp
    {
      forall j | 0 <= j < |l| && j != n ensures l[j] != tmp {
        assert j > n ==> l[j] == nodes[j - n];
      }
    }

    /** The second half of a round of `tick`: the first timer is unlinked and freed. */
    method TakeFirst(tmp: UtilTimer, cur: int, ghost l: seq<UtilTimer>, ghost ks: seq<int>, ghost n: nat)
      requires Ticking(l, ks, cur, n) && nodes != [] && tmp == head && tmp.expire <= cur
      modifies this, nodes`prev, tmp`live
      ensures n < |l| && Ticking(l, ks, cur, n + 1) && tail == old(tail)
    {
      hide Chain, Without;
      BeforeTake(tmp, cur, l, ks, n);
      PopFirst(tmp);
    }

    lemma TickStart(cur: int)
      requires Valid()
      ensures Ticking(nodes, Keys(), cur, 0)
      ensures nodes == [] ==> FirstGreater(Keys(), cur) == 0
    {
    }

    lemma TickGoesOn(l: seq<UtilTimer>, ks: seq<int>, cur: int, n: nat)
      requires Ticking(l, ks, cur, n)
      ensures n <= |l| && (forall j :: 0 <= j < |nodes| ==> nodes[j] in l)
      ensures head != null <==> nodes != []
      ensures head != null ==> n < |l| && head == nodes[0] == l[n] && head.live
    {
    }

    lemma TickEnd(l: seq<UtilTimer>, ks: seq<int>, cur: int, n: nat)
      requires Ticking(l, ks, cur, n)
      requires head != null ==> cur < head.expire
      ensures Valid() && n <= |l| == |ks| && n == FirstGreater(ks, cur) && nodes == l[n..]
      ensures forall i :: 0 <= i < |l| ==> l[i].live == (n <= i) && l[i].expire == ks[i]
    {
    }

    /** One round of `tick`: the callback runs on the first timer, which is unlinked and freed. */
    method FireFirst(tmp: UtilTimer, fds: FdTable, cur: int, ghost l: seq<UtilTimer>, ghost ks: seq<int>,
                     ghost us: seq<ClientData>, ghost socks: seq<int>, ghost n: nat,
                     ghost open: set<int>, ghost closed: seq<int>)
      requires Ticking(l, ks, cur, n) && tmp == head && tmp.expire <= cur
      requires us == Owners(l) && Sockets(us, socks) && Closes(open, closed, fds.open, fds.closed, socks, n)
      modifies this, l`prev, l`live, fds
      ensures n < |l| && Ticking(l, ks, cur, n + 1) && tail == old(tail)
      ensures Sockets(us, socks) && Closes(open, closed, fds.open, fds.closed, socks, n + 1)
    {
      hide Ticking, Valid, Closes, Sockets;
      TickGoesOn(l, ks, cur, n);
      ClosesMore(open, closed, fds.open, fds.closed, us, socks, n);
      CbFunc(tmp.UserData(), fds);
      TakeFirst(tmp, cur, l, ks, n);
    }

    /** The loop of `tick`; `socks` are the descriptors of the timers `l`. */
    method TickLoop(cur: int, fds: FdTable, ghost l: seq<UtilTimer>, ghost ks: seq<int>, ghost socks: seq<int>)
      returns (ghost n: nat)
      requires Ticking(l, ks, cur, 0) && Sockets(Owners(l), socks)
      modifies this, l`prev, l`live, fds
      ensures Ticking(l, ks, cur, n) && (head != null ==> cur < head.expire) && tail == old(tail)
      ensures Closes(old(fds.open), old(fds.closed), fds.open, fds.closed, socks, n)
    {
      hide Ticking, Valid, Closes, Sockets;
      ghost var open, closed, us := fds.open, fds.closed, Owners(l);
      n := 0;
      TickGoesOn(l, ks, cur, n);
      ClosesNone(open, closed, socks);
      var tmp := head;
      while tmp != null && !(cur < tmp.Expire())
        invariant n <= |l| && Ticking(l, ks, cur, n) && Sockets(us, socks)
        invariant tmp == head && tail == old(tail) && (tmp != null ==> tmp.live)
        invariant Closes(open, closed, fds.open, fds.closed, socks, n)
        decreases |l| - n
      {
        FireFirst(tmp, fds, cur, l, ks, us, socks, n, open, closed);
        n := n + 1;
        TickGoesOn(l, ks, cur, n);
        tmp := head;
      }
    }

    /**
     `tick` at time `cur`; `n` is the number of timers fired and `socks` the descriptors of all
     listed timers.  It stops at the first timer not yet due, and leaves `tail` alone even when it
     takes the last timer away.
     */
    method Tick(cur: int, fds: FdTable, ghost socks: seq<int>) returns (ghost n: nat)
      requires Valid() && Sockets(Owners(nodes), socks)
      modifies this, nodes`prev, nodes`live, fds
      ensures Valid() && tail == old(tail)
      ensures n == FirstGreater(old(Keys()), cur) && nodes == old(nodes)[n..]
      ensures forall i :: 0 <= i < |old(nodes)| ==> old(nodes)[i].live == (n <= i)
      ensures Closes(old(fds.open), old(fds.closed), fds.open, fds.closed, socks, n)
      ensures n <= |old(Items())| && (Items(), old(Items())[..n]) == Apply(old(Items()), Op.Tick(cur))
      ensures Sorted(old(Keys())) ==>
                && Sorted(Keys()) && Items() == Select(old(Items()), cur, false)
                && old(Items())[..n] == Select(old(Items()), cur, true)
    {
      hide Ticking, Chain, Listed, Sorted, Select, FirstGreater, Closes, Sockets;
      n := 0;
      ghost var ks, l, items := Keys(), nodes, Items();
      ItemsKeys();
      TickStart(cur);
      ClosesNone(fds.open, fds.closed, socks);
      if head != null {
        n := TickLoop(cur, fds, l, ks, socks);
        TickEnd(l, ks, cur, n);
      }
      Ticked(l, items, cur, n);
    }

    /** The destructor. */
    method Destroy()
      requires Valid()
      modifies this, nodes`live
      ensures forall t :: t in old(nodes) ==> !t.live
      ensures head == null
    {
      ghost var l, n := nodes, 0;
      var tmp := head;
      while tmp != null
        invariant n <= |l| && head == tmp == if n < |l| then l[n] else null
        invariant forall i :: 0 <= i < |l| ==> l[i].live == (n <= i)
        decreases |l| - n
      {
        head := tmp.Next();
        tmp.Free();
        tmp := head;
        n := n + 1;
      }
    }
  }
}
