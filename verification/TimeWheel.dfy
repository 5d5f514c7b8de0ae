/**
 The hashed time wheel as the source builds it: an array of slot heads and doubly linked
 lists of timers that are linked, unlinked and freed in place.

 The ghost field `w` is the wheel on values (module WheelSpec); `Valid` ties the heap to it.
 `delete` clears a timer's ghost flag `live`, and every access to a timer's fields goes
 through a member that requires the flag, so a timer is freed at most once and none of its
 fields is touched afterwards.
 */
module TimeWheels {
  import opened ModArith
  import opened WheelSpec
  import opened WheelTheorems

  class TwTimer {
    var rotation: int
    const timeSlot: int
    var next: TwTimer?
    var prev: TwTimer?
    ghost const id: nat
    ghost var live: bool

    constructor (rot: int, ts: int, ghost id: nat)
      ensures rotation == rot && timeSlot == ts && next == null && prev == null
      ensures this.id == id && live
    {
      rotation, timeSlot, next, prev := rot, ts, null, null;
      this.id, live := id, true;
    }

    function Rotation(): int
      requires live
      reads this
    {
      rotation
    }

    function Slot(): int
      requires live
      reads this
    {
      timeSlot
    }

    function Next(): TwTimer?
      requires live
      reads this
    {
      next
    }

    function Prev(): TwTimer?
      requires live
      reads this
    {
      prev
    }

    /** The run of the callback on this timer's user data, noted in the ghost log. */
    ghost function Fire(call: nat): Firing
      requires live
      reads this
    {
      Firing(id, call)
    }

    method SetRotation(r: int)
      requires live
      modifies this`rotation
      ensures rotation == r
    {
      rotation := r;
    }

    method SetNext(t: TwTimer?)
      requires live
      modifies this`next
      ensures next == t
    {
      next := t;
    }

    method SetPrev(t: TwTimer?)
      requires live
      modifies this`prev
      ensures prev == t
    {
      prev := t;
    }

    /** `delete`. */
    ghost method Free()
      requires live
      modifies this`live
      ensures !live
    {
      live := false;
    }
  }

  /** The timers `l`, in this order, are a doubly linked list of live timers that starts at `head`. */
  ghost predicate Linked(head: TwTimer?, l: seq<TwTimer>)
    reads l`next, l`prev, l`live
  {
    && head == (if l == [] then null else l[0])
    && (forall j :: 0 <= j < |l| ==> l[j].live)
    && (forall j, k :: 0 <= j < k < |l| ==> l[j] != l[k])
    && (forall j, k :: 0 <= j < |l| && k == j + 1 < |l| ==> l[j].next == l[k] && l[k].prev == l[j])
    && (forall j :: 0 <= j < |l| ==> (j == 0 ==> l[j].prev == null) && (j == |l| - 1 ==> l[j].next == null))
  }

  /** The timers `l` of slot `i` are the entries `es`. */
  ghost predicate Represents(l: seq<TwTimer>, es: seq<Entry>, i: int)
    reads l`rotation
  {
    && |l| == |es|
    && (forall j :: 0 <= j < |l| ==> l[j].timeSlot == i && l[j].id == es[j].id && l[j].rotation == es[j].rotation)
  }

  lemma RepresentsFront(l: seq<TwTimer>, es: seq<Entry>, i: int, t: TwTimer, e: Entry)
    requires Represents(l, es, i) && t.timeSlot == i && t.id == e.id && t.rotation == e.rotation
    ensures Represents([t] + l, [e] + es, i)
  {
  }

  /** The linking code of `add_timer`: `t` becomes the head of its slot. */
  method LinkFront(head: TwTimer?, t: TwTimer, ghost l: seq<TwTimer>)
    requires Linked(head, l) && t !in l && t.live && t.next == null && t.prev == null
    modifies t`next, l`prev
    ensures Linked(t, [t] + l)
  {
    if head != null {
      t.SetNext(head);
      head.SetPrev(t);
    }
  }

  lemma RepresentsWithout(l: seq<TwTimer>, es: seq<Entry>, slot: int, k: nat)
    requires Represents(l, es, slot) && k < |l|
    ensures Represents(l[..k] + l[k + 1..], es[..k] + es[k + 1..], slot)
  {
  }

  /** The unlinking code of `del_timer` and of `tick`: the timer at position `k` leaves and is freed. */
  method Unlink(head: TwTimer?, t: TwTimer, ghost l: seq<TwTimer>, ghost es: seq<Entry>, ghost slot: int, ghost k: nat)
    returns (head': TwTimer?)
    requires Linked(head, l) && Represents(l, es, slot) && k < |l| && t == l[k]
    modifies l`next, l`prev, t`live
    ensures Linked(head', l[..k] + l[k + 1..]) && !t.live
    ensures Represents(l[..k] + l[k + 1..], es[..k] + es[k + 1..], slot)
  {
    hide Represents;
    RepresentsWithout(l, es, slot, k);
    assert k == 0 <==> t == head;
    assert k + 1 < |l| ==> t.next == l[k + 1];
    assert 0 < k ==> t.prev == l[k - 1];
    head' := head;
    if t == head {
      head' := head.Next();
      if head' != null {
        head'.SetPrev(null);
      }
      t.Free();
    } else {
      t.Prev().SetNext(t.Next());
      if t.Next() != null {
        t.Next().SetPrev(t.Prev());
      }
      t.Free();
    }
  }

  lemma OthersStay(l: seq<TwTimer>, k: nat)
    requires k < |l|
    ensures forall t :: t in l && t != l[k] ==> t in l[..k] + l[k + 1..]
    ensures forall t :: t in l[..k] + l[k + 1..] ==> t in l
  {
  }

  /** The entries of a slot when the walk has done its first `n` timers. */
  ghost function Walked(es: seq<Entry>, n: nat): seq<Entry>
    requires n <= |es|
  {
    Survivors(es[..n]) + es[n..]
  }

  lemma WalkOneOn(es: seq<Entry>, n: nat)
    requires n < |es|
    ensures var k := |Survivors(es[..n])|;
            && k < |Walked(es, n)| && Walked(es, n)[k] == es[n]
            && (es[n].rotation > 0 ==>
                  && Walked(es, n + 1) == Walked(es, n)[k := Entry(es[n].id, es[n].rotation - 1)]
                  && |Survivors(es[..n + 1])| == k + 1)
            && (es[n].rotation == 0 ==>
                  && Walked(es, n + 1) == Walked(es, n)[..k] + Walked(es, n)[k + 1..]
                  && |Survivors(es[..n + 1])| == k)
  {
    assert es[..n + 1][..n] == es[..n];
  }

  /**
   The walk over the list `l` of slot `slot` has done `n` timers: the list is now `now`, and the
   timer at hand is the first one not yet visited.
   */
  ghost predicate Walking(head: TwTimer?, tmp: TwTimer?, l: seq<TwTimer>, now: seq<TwTimer>,
                          es: seq<Entry>, slot: int, n: nat)
    reads l`live, now`next, now`prev, now`live, now`rotation
  {
    && n <= |es|
    && Linked(head, now) && Represents(now, Walked(es, n), slot)
    && tmp == (if n < |es| then now[|Survivors(es[..n])|] else null)
    && (forall t :: t in now ==> t in l)
    && (forall t :: t in l && t.live ==> t in now)
  }

  lemma WalkStart(head: TwTimer?, l: seq<TwTimer>, es: seq<Entry>, slot: int)
    requires Linked(head, l) && Represents(l, es, slot)
    ensures Walking(head, head, l, l, es, slot, 0)
    ensures forall call :: Expired(es[..0], call) == []
  {
  }

  lemma WalkGoesOn(head: TwTimer?, tmp: TwTimer, l: seq<TwTimer>, now: seq<TwTimer>, es: seq<Entry>, slot: int, n: nat)
    requires Walking(head, tmp, l, now, es, slot, n)
    ensures n < |es| && tmp.live && tmp in l && forall j :: 0 <= j < |now| ==> now[j] in l
  {
  }

  lemma WalkEnd(head: TwTimer?, l: seq<TwTimer>, now: seq<TwTimer>, es: seq<Entry>, slot: int, n: nat)
    requires Walking(head, null, l, now, es, slot, n)
    ensures es[..n] == es && Linked(head, now) && Represents(now, Survivors(es), slot)
    ensures forall t :: t in now ==> t in l
    ensures forall t :: t in l && t.live ==> t in now
  {
  }

  /** A visited timer with rotations left: it stays, one rotation lower. */
  method CountDown(tmp: TwTimer, ghost head: TwTimer?, ghost l: seq<TwTimer>, ghost now: seq<TwTimer>,
                   ghost es: seq<Entry>, ghost slot: int, ghost n: nat, ghost call: nat)
    returns (tmp': TwTimer?)
    requires Walking(head, tmp, l, now, es, slot, n) && tmp.rotation > 0
    modifies tmp`rotation
    ensures n < |es| && Expired(es[..n + 1], call) == Expired(es[..n], call)
    ensures Walking(head, tmp', l, now, es, slot, n + 1)
  {
    WalkOneOn(es, n);
    assert es[..n + 1][..n] == es[..n];
    tmp.SetRotation(tmp.Rotation() - 1);
    tmp' := tmp.Next();
  }

  /** A visited timer without rotations left: its callback runs, and it is unlinked and freed. */
  method FireAndUnlink(tmp: TwTimer, head: TwTimer?, ghost l: seq<TwTimer>, ghost now: seq<TwTimer>,
                       ghost es: seq<Entry>, ghost slot: int, ghost n: nat, ghost call: nat)
    returns (head': TwTimer?, tmp': TwTimer?, ghost now': seq<TwTimer>, ghost firing: Firing)
    requires Walking(head, tmp, l, now, es, slot, n) && tmp.rotation <= 0
    modifies now`next, now`prev, tmp`live
    ensures n < |es| && Expired(es[..n + 1], call) == Expired(es[..n], call) + [firing]
    ensures forall t :: t in now' ==> t in now
    ensures Walking(head', tmp', l, now', es, slot, n + 1)
  {
    WalkOneOn(es, n);
    assert es[..n + 1][..n] == es[..n];
    ghost var k := |Survivors(es[..n])|;
    OthersStay(now, k);
    firing := tmp.Fire(call);
    tmp' := tmp.Next();
    head' := Unlink(head, tmp, now, Walked(es, n), slot, k);
    now' := now[..k] + now[k + 1..];
  }

  /**
   The loop of `tick`, over the list `l` of one slot.  Each round either counts the timer at
   hand down or fires and frees it; the list it walks changes under it.
   */
  method WalkSlot(head: TwTimer?, ghost l: seq<TwTimer>, ghost es: seq<Entry>, ghost slot: int, ghost call: nat)
    returns (head': TwTimer?, ghost now: seq<TwTimer>, ghost fired: seq<Firing>)
    requires Linked(head, l) && Represents(l, es, slot)
    modifies l
    ensures Linked(head', now) && Represents(now, Survivors(es), slot)
    ensures fired == Expired(es, call)
    ensures forall t :: t in now ==> t in l
    ensures forall t :: t in l && t.live ==> t in now
  {
    hide Walking, Linked, Represents, Survivors, Expired, Walked;
    head', now, fired := head, l, [];
    var tmp := head;
    ghost var n := 0;
    WalkStart(head, l, es, slot);
    while tmp != null
      invariant Walking(head', tmp, l, now, es, slot, n)
      invariant n <= |es| && fired == Expired(es[..n], call)
      decreases |es| - n
    {
      WalkGoesOn(head', tmp, l, now, es, slot, n);
      if tmp.Rotation() > 0 {
        tmp := CountDown(tmp, head', l, now, es, slot, n, call);
      } else {
        ghost var firing;
        head', tmp, now, firing := FireAndUnlink(tmp, head', l, now, es, slot, n, call);
        fired := fired + [firing];
      }
      n := n + 1;
    }
    WalkEnd(head', l, now, es, slot, n);
  }

  /** The inner loop of the destructor: every timer of one list is freed, in order. */
  method FreeList(head: TwTimer?, ghost l: seq<TwTimer>)
    requires Linked(head, l)
    modifies l`live
    ensures forall t :: t in l ==> !t.live
  {
    var tmp := head;
    ghost var n := 0;
    while tmp != null
      invariant n <= |l| && tmp == if n < |l| then l[n] else null
      invariant forall j :: 0 <= j < |l| ==> l[j].live == (n <= j)
      decreases |l| - n
    {
      var rest := tmp.Next();
      tmp.Free();
      tmp := rest;
      n := n + 1;
    }
  }

  class TimeWheel {
    const N: nat
    const SI: nat
    const slots: array<TwTimer?>
    var curSlot: int

    ghost var lists: seq<seq<TwTimer>>
    ghost var all: seq<TwTimer>
    ghost var w: Wheel

    ghost predicate Shape()
      reads this
    {
      && WellFormed(w) && w.n == N && w.si == SI && curSlot == w.cur
      && slots.Length == N && |lists| == N
      && |all| == w.nextId
      && (forall i, j :: 0 <= i < N && 0 <= j < |lists[i]| ==> lists[i][j] in all)
    }

    /** Every timer ever made is known by its serial number, and is live just while it is listed. */
    ghost predicate Census()
      requires Shape()
      reads this, all`live
    {
      && (forall k :: 0 <= k < |all| ==> all[k].id == k)
      && (forall t :: t in all && t.live ==> 0 <= t.timeSlot < N && t in lists[t.timeSlot])
    }

    ghost predicate SlotValid(i: int)
      requires Shape() && 0 <= i < N
      reads this, slots, all
    {
      Linked(slots[i], lists[i]) && Represents(lists[i], w.slots[i], i)
    }

    ghost predicate HeapOk()
      reads this, slots, all
    {
      && Shape()
      && Census()
      && (forall i :: 0 <= i < N ==> SlotValid(i))
    }

    /** The heap is well, and the wheel on values is one that some run leads to. */
    ghost predicate Valid()
      reads this, slots, all
    {
      HeapOk() && Reachable(w)
    }

    /** `HeapOk` but for the list of slot `ts`, which is being worked on. */
    ghost predicate ValidBut(ts: int)
      reads this, slots, all
    {
      && Shape()
      && (forall k :: 0 <= k < |all| ==> all[k].id == k)
      && (forall t :: t in all && t.live && t.timeSlot != ts ==> 0 <= t.timeSlot < N && t in lists[t.timeSlot])
      && (forall i :: 0 <= i < N && i != ts ==> SlotValid(i))
    }

    /** Work on the timers of one slot leaves all other slots as they were. */
    twostate lemma OthersKept(ts: int)
      requires old(HeapOk()) && unchanged(this) && unchanged(slots)
      requires forall t :: t in all && t.timeSlot != ts ==> unchanged(t)
      ensures ValidBut(ts)
    {
      forall i | 0 <= i < N && i != ts ensures SlotValid(i) {
        assert old(SlotValid(i));
        forall j | 0 <= j < |lists[i]| ensures unchanged(lists[i][j]) {
          assert lists[i][j] in all;
          assert lists[i][j].timeSlot == i;
        }
      }
    }

    /** The list of slot `ts` is put back with its new head, as `es` on values. */
    method PutBack(ts: nat, head: TwTimer?, ghost now: seq<TwTimer>, ghost w': Wheel, ghost made: seq<TwTimer>)
      requires ValidBut(ts) && ts < N
      requires Linked(head, now) && (forall t :: t in now ==> t in all + made)
      requires forall k :: 0 <= k < |made| ==> made[k].id == |all| + k && made[k].timeSlot == ts
      requires forall t :: t in all + made && t.live && t.timeSlot == ts ==> t in now
      requires WellFormed(w') && w'.n == w.n && w'.si == w.si && w'.cur == w.cur && w'.nextId == |all| + |made|
      requires forall i :: 0 <= i < N && i != ts ==> w'.slots[i] == w.slots[i]
      requires Represents(now, w'.slots[ts], ts)
      modifies this, slots
      ensures HeapOk() && w == w' && all == old(all) + made && lists == old(lists)[ts := now]
    {
      hide Linked, Represents;
      slots[ts] := head;
      lists, w, all := lists[ts := now], w', all + made;
      assert forall i, j :: 0 <= i < N && 0 <= j < |lists[i]| ==> lists[i][j] in all;
      assert SlotValid(ts);
      forall i | 0 <= i < N && i != ts ensures SlotValid(i) {
        assert old(SlotValid(i));
      }
    }

    constructor (n: nat, si: nat)
      requires 1 <= n && 1 <= si
      ensures Valid() && N == n && SI == si && w == Empty(n, si)
      ensures all == [] && fresh(slots)
    {
      N, SI, curSlot := n, si, 0;
      slots := new TwTimer?[n](i => null);
      lists, all, w := seq(n, i => []), [], Empty(n, si);
      EmptyReachable(n, si);
    }

    lemma InSlot(ts: nat)
      requires HeapOk() && ts < N
      ensures Linked(slots[ts], lists[ts]) && Represents(lists[ts], w.slots[ts], ts)
      ensures forall t :: t in lists[ts] ==> t.timeSlot == ts && t in all
      ensures forall t :: t in all && t.live && t.timeSlot == ts ==> t in lists[ts]
    {
      assert SlotValid(ts);
    }

    /**
     The place that `add_timer` computes for a timeout encodes one tick if it is shorter than a
     slot interval, and otherwise as many as full slot intervals go into it.
     */
    static method Locate(timeout: nat, SI: nat, N: nat, curSlot: nat) returns (rotation: nat, ts: nat)
      requires 1 <= SI && curSlot < N
      ensures ts < N
      ensures var countdown := CountdownOf(Entry(0, rotation), ts, curSlot, N);
              && (timeout < SI ==> countdown == 1)
              && (SI <= timeout ==> countdown * SI <= timeout < (countdown + 1) * SI)
    {
      hide CountdownOf, Distance;
      var ticks := 0;
      if timeout < SI {
        ticks := 1;
      } else {
        ticks := timeout / SI;
      }
      rotation := ticks / N;
      ts := (curSlot + ticks % N) % N;
      PlaceOfCountdown(ticks, curSlot, N);
      TicksCover(timeout, SI);
    }

    /** The linking half of `add_timer`: a new timer is put at the head of slot `ts`. */
    method Insert(rotation: nat, ts: nat) returns (timer: TwTimer)
      requires HeapOk() && ts < N
      modifies this, slots, all
      ensures HeapOk()
      ensures w == WithEntry(old(w), ts, Entry(old(w).nextId, rotation))
      ensures fresh(timer) && all == old(all) + [timer] && timer.id == old(w).nextId && timer.live
      ensures timer.timeSlot == ts && lists == old(lists)[ts := [timer] + old(lists)[ts]]
      ensures forall t :: t in old(all) ==> t.live == old(t.live)
    {
      hide Linked, Represents;
      InSlot(ts);
      timer := new TwTimer(rotation, ts, w.nextId);
      LinkFront(slots[ts], timer, lists[ts]);
      RepresentsFront(lists[ts], w.slots[ts], ts, timer, Entry(w.nextId, rotation));
      OthersKept(ts);
      PutBack(ts, timer, [timer] + lists[ts], WithEntry(w, ts, Entry(w.nextId, rotation)), [timer]);
    }

    method AddTimer(timeout: int) returns (timer: TwTimer?)
      requires Valid()
      modifies this, slots, all
      ensures Valid() && w == WheelSpec.AddTimer(old(w), timeout)
      ensures timer == null <==> timeout < 0
      ensures timer == null ==> all == old(all)
      ensures timer != null ==> fresh(timer) && all == old(all) + [timer] && timer.id == old(w.nextId) && timer.live
      ensures timer != null ==>
                && 0 <= timer.timeSlot < N == |old(lists)|
                && lists == old(lists)[timer.timeSlot := [timer] + old(lists)[timer.timeSlot]]
      ensures forall t :: t in old(all) ==> t.live == old(t.live)
    {
      if timeout < 0 {
        return null;
      }
      StepReachable(w, Add(timeout));
      var rotation, ts := Locate(timeout, SI, N, curSlot);
      CountdownOfPlace(Entry(0, rotation), ts, curSlot, N);
      TicksAre(timeout, SI, CountdownOf(Entry(0, rotation), ts, curSlot, N));
      PlaceOfCountdown(TicksOf(timeout, SI), curSlot, N);
      timer := Insert(rotation, ts);
    }

    ghost predicate IsPending(t: TwTimer)
      reads this, t
    {
      t in all && t.live
    }

    /** The unlinking half of `del_timer`: the timer at position `k` of slot `ts` leaves the wheel. */
    method Remove(ts: nat, timer: TwTimer, ghost k: nat)
      requires HeapOk() && ts < N && k < |lists[ts]| && timer == lists[ts][k] && k < |w.slots[ts]|
      modifies this, slots, all
      ensures HeapOk() && all == old(all)
      ensures w == WithoutEntry(old(w), ts, k)
      ensures forall t :: t in all ==> t.live == (old(t.live) && t != timer)
    {
      InSlot(ts);
      OthersStay(lists[ts], k);
      var head := Unlink(slots[ts], timer, lists[ts], w.slots[ts], ts, k);
      OthersKept(ts);
      PutBack(ts, head, lists[ts][..k] + lists[ts][k + 1..], WithoutEntry(w, ts, k), []);
    }

    method DelTimer(timer: TwTimer?)
      requires Valid()
      requires timer != null ==> IsPending(timer)
      modifies this, slots, all
      ensures Valid() && all == old(all)
      ensures timer == null ==> w == old(w)
      ensures timer != null ==> 0 <= timer.timeSlot < N && HasId(old(w).slots[timer.timeSlot], timer.id)
      ensures timer != null ==> w == WheelSpec.DelTimer(old(w), timer.id, timer.timeSlot)
      ensures forall t :: t in all ==> t.live == (old(t.live) && t != timer)
    {
      if timer == null {
        return;
      }
      var ts := timer.Slot();
      ghost var k :| 0 <= k < |lists[ts]| && lists[ts][k] == timer;
      FirstWithId(ts, k);
      StepReachable(w, Del(timer.id, ts));
      Remove(ts, timer, k);
    }

    lemma FirstWithId(ts: nat, k: nat)
      requires HeapOk() && ts < N && k < |lists[ts]|
      ensures k < |w.slots[ts]| && lists[ts][k].id == w.slots[ts][k].id
      ensures var es, id := w.slots[ts], lists[ts][k].id;
              HasId(es, id) && RemoveId(es, id) == es[..k] + es[k + 1..]
    {
      assert SlotValid(ts);
      var l, es := lists[ts], w.slots[ts];
      forall j | 0 <= j < k ensures es[j].id != es[k].id {
        assert l[j] in all && l[k] in all && l[j] != l[k];
      }
      RemoveIdAt(es, k);
    }

    /** The visit half of `tick`: the list of the current slot is walked. */
    method Visit()
      requires HeapOk()
      modifies this, slots, all
      ensures HeapOk() && w == WithVisit(old(w)) && all == old(all)
      ensures forall t :: t in all && t.live ==> old(t.live)
    {
      InSlot(curSlot);
      ghost var now, firings;
      var head;
      head, now, firings := WalkSlot(slots[curSlot], lists[curSlot], w.slots[curSlot], curSlot, w.calls + 1);
      OthersKept(curSlot);
      ghost var kept := w.slots[w.cur := Survivors(w.slots[w.cur])];
      PutBack(curSlot, head, now, w.(slots := kept, fired := w.fired + firings), []);
    }

    method Tick()
      requires Valid()
      modifies this, slots, all
      ensures Valid() && w == TickWheel(old(w)) && all == old(all)
      ensures forall t :: t in all && t.live ==> old(t.live)
    {
      hide Linked, Represents;
      StepReachable(w, Op.Tick);
      Visit();
      label visited:
      curSlot := (curSlot + 1) % N;
      w := w.(cur := curSlot, calls := w.calls + 1);
      forall i | 0 <= i < N ensures SlotValid(i) {
        assert old@visited(SlotValid(i));
      }
    }

    /**
     Every timer ever made has one fate, and it has not been freed just while it is pending.
     */
    lemma OneFate(t: TwTimer)
      requires Valid() && t in all
      ensures t.live <==> Pending(w, t.id)
      ensures t.live <==> !HasFired(w, t.id) && t.id !in w.deleted
      ensures !(HasFired(w, t.id) && t.id in w.deleted)
    {
      LiveIsPending(t);
      EveryTimerHasOneFate(w, t.id);
    }

    lemma LiveIsPending(t: TwTimer)
      requires HeapOk() && t in all
      ensures t.live <==> Pending(w, t.id)
    {
      if t.live {
        var i := t.timeSlot;
        InSlot(i);
        var j :| 0 <= j < |lists[i]| && lists[i][j] == t;
        assert w.slots[i][j].id == t.id && HasId(w.slots[i], t.id);
      }
      if Pending(w, t.id) {
        var i :| 0 <= i < |w.slots| && HasId(w.slots[i], t.id);
        InSlot(i);
        var j :| 0 <= j < |w.slots[i]| && w.slots[i][j].id == t.id;
        assert lists[i][j].id == t.id && lists[i][j] in all;
      }
    }

    /** The destructor: every timer not yet freed is freed, each once. */
    method Destroy()
      requires Valid()
      modifies slots, all`live
      ensures forall t :: t in all ==> !t.live
    {
      hide Linked, Represents;
      forall j | 0 <= j < N
        ensures Linked(slots[j], lists[j]) && forall t :: t in lists[j] ==> t.timeSlot == j
      {
        InSlot(j);
      }
      var i := 0;
      while i < N
        invariant 0 <= i <= N
        invariant forall j :: i <= j < N ==> Linked(slots[j], lists[j])
        invariant forall t :: t in all && t.live ==> i <= t.timeSlot < N && t in lists[t.timeSlot]
      {
        FreeList(slots[i], lists[i]);
        slots[i] := null;
        i := i + 1;
      }
    }
  }
}
