/**
 The hashed time wheel on values, next to the countdown table it stands for.

 `Wheel` keeps what the source keeps: N slot lists of timers, each with a number of
 remaining rotations, and the current slot; timers are named by the serial number of
 the `add_timer` call that made them.  `Countdowns` is the naive specification: every
 pending timer with the number of `tick` calls it still has to let pass, all of them
 lowered by every call.  `TimeWheel.dfy` proves the pointer structure equal to the first;
 this module proves the first equal to the second over every run.
 */
module WheelSpec {
  import opened Sequences

  datatype Entry = Entry(id: nat, rotation: nat)

  /** Timer `id` had its callback run during call number `call` (from 1) of `tick`. */
  datatype Firing = Firing(id: nat, call: nat)

  datatype Wheel = Wheel(n: nat, si: nat, cur: nat, slots: seq<seq<Entry>>,
                         nextId: nat, calls: nat, fired: seq<Firing>, deleted: seq<nat>)

  datatype Countdowns = Countdowns(left: map<nat, nat>, nextId: nat, calls: nat,
                                   fired: set<Firing>, deleted: set<nat>)

  /** A client holds a timer by pointer, and the timer remembers its slot. */
  datatype Op = Add(timeout: int) | Del(id: nat, slot: nat) | Tick

  // ----- The wheel -----

  ghost predicate WellFormed(w: Wheel) {
    1 <= w.n && 1 <= w.si && w.cur < w.n && |w.slots| == w.n
  }

  function Empty(n: nat, si: nat): Wheel {
    Wheel(n, si, 0, seq(n, i => []), 0, 0, [], [])
  }

  function TicksOf(timeout: nat, si: nat): nat
    requires 1 <= si
  {
    if timeout < si then 1 else timeout / si
  }

  function TargetSlot(cur: nat, ticks: nat, n: nat): nat
    requires 1 <= n
  {
    (cur + ticks % n) % n
  }

  function AddTimer(w: Wheel, timeout: int): Wheel
    requires WellFormed(w)
  {
    if timeout < 0 then w
    else
      var ticks := TicksOf(timeout, w.si);
      var ts := TargetSlot(w.cur, ticks, w.n);
      WithEntry(w, ts, Entry(w.nextId, ticks / w.n))
  }

  function WithEntry(w: Wheel, ts: nat, e: Entry): Wheel
    requires WellFormed(w) && ts < w.n
  {
    w.(slots := w.slots[ts := [e] + w.slots[ts]], nextId := w.nextId + 1)
  }

  ghost predicate HasId(es: seq<Entry>, id: nat) {
    exists j :: 0 <= j < |es| && es[j].id == id
  }

  function RemoveId(es: seq<Entry>, id: nat): seq<Entry> {
    if es == [] then [] else if es[0].id == id then es[1..] else [es[0]] + RemoveId(es[1..], id)
  }

  function DelTimer(w: Wheel, id: nat, slot: nat): Wheel
    requires WellFormed(w) && slot < w.n
  {
    w.(slots := w.slots[slot := RemoveId(w.slots[slot], id)], deleted := w.deleted + [id])
  }

  function WithoutEntry(w: Wheel, slot: nat, k: nat): Wheel
    requires WellFormed(w) && slot < w.n && k < |w.slots[slot]|
  {
    w.(slots := w.slots[slot := w.slots[slot][..k] + w.slots[slot][k + 1..]],
       deleted := w.deleted + [w.slots[slot][k].id])
  }

  /** The timers of a visited slot that stay, one rotation further on. */
  function Survivors(es: seq<Entry>): seq<Entry> {
    if es == [] then []
    else
      var k := |es| - 1;
      Survivors(es[..k]) + if es[k].rotation > 0 then [Entry(es[k].id, es[k].rotation - 1)] else []
  }

  /** The timers of a visited slot that fire, in the order the slot lists them. */
  function Expired(es: seq<Entry>, call: nat): seq<Firing> {
    if es == [] then []
    else
      var k := |es| - 1;
      Expired(es[..k], call) + if es[k].rotation > 0 then [] else [Firing(es[k].id, call)]
  }

  function WithVisit(w: Wheel): Wheel
    requires WellFormed(w)
  {
    w.(slots := w.slots[w.cur := Survivors(w.slots[w.cur])],
       fired := w.fired + Expired(w.slots[w.cur], w.calls + 1))
  }

  function TickWheel(w: Wheel): Wheel
    requires WellFormed(w)
  {
    WithVisit(w).(cur := (w.cur + 1) % w.n, calls := w.calls + 1)
  }

  /** `del_timer` may be given only a timer that is still in the wheel. */
  ghost predicate Enabled(w: Wheel, op: Op) {
    WellFormed(w) && (op.Del? ==> op.slot < w.n && HasId(w.slots[op.slot], op.id))
  }

  ghost function Step(w: Wheel, op: Op): (w': Wheel)
    requires Enabled(w, op)
    ensures WellFormed(w') && w'.n == w.n && w'.si == w.si
  {
    match op
    case Add(timeout) => AddTimer(w, timeout)
    case Del(id, slot) => DelTimer(w, id, slot)
    case Tick => TickWheel(w)
  }

  ghost predicate Legal(w: Wheel, ops: seq<Op>)
    decreases |ops|
  {
    ops == [] || (Enabled(w, ops[0]) && Legal(Step(w, ops[0]), ops[1..]))
  }

  ghost function Run(w: Wheel, ops: seq<Op>): Wheel
    requires Legal(w, ops)
    decreases |ops|
  {
    if ops == [] then w else Run(Step(w, ops[0]), ops[1..])
  }

  // ----- The countdown table -----

  function SpecAdd(c: Countdowns, ticks: nat): Countdowns {
    c.(left := c.left[c.nextId := ticks], nextId := c.nextId + 1)
  }

  function SpecDel(c: Countdowns, id: nat): Countdowns {
    c.(left := c.left - {id}, deleted := c.deleted + {id})
  }

  function SpecTick(c: Countdowns): Countdowns {
    c.(left := map id | id in c.left && c.left[id] > 0 :: c.left[id] - 1,
       fired := c.fired + set id | id in c.left && c.left[id] == 0 :: Firing(id, c.calls + 1),
       calls := c.calls + 1)
  }

  function SpecStep(c: Countdowns, op: Op, si: nat): Countdowns
    requires 1 <= si
  {
    match op
    case Add(timeout) => if timeout < 0 then c else SpecAdd(c, TicksOf(timeout, si))
    case Del(id, _) => SpecDel(c, id)
    case Tick => SpecTick(c)
  }

  function SpecRun(c: Countdowns, ops: seq<Op>, si: nat): Countdowns
    requires 1 <= si
    decreases |ops|
  {
    if ops == [] then c else SpecRun(SpecStep(c, ops[0], si), ops[1..], si)
  }

  // ----- The abstraction -----

  /** How many calls it takes the wheel standing at `cur` to come to `slot`. */
  function Distance(slot: int, cur: int, n: nat): nat
    requires 1 <= n
  {
    (slot - cur) % n
  }

  function CountdownOf(e: Entry, slot: nat, cur: nat, n: nat): nat
    requires 1 <= n
  {
    Distance(slot, cur, n) + n * e.rotation
  }

  ghost predicate DistinctIds(es: seq<Entry>) {
    forall j, k :: 0 <= j < k < |es| ==> es[j].id != es[k].id
  }

  ghost predicate FiredOnce(fs: seq<Firing>) {
    forall j, k :: 0 <= j < k < |fs| ==> fs[j].id != fs[k].id
  }

  /** Every timer in a slot is in the table with the countdown its place encodes. */
  ghost predicate SlotsInTable(w: Wheel, left: map<nat, nat>)
    requires WellFormed(w)
  {
    forall i, e :: 0 <= i < w.n && e in w.slots[i] ==>
                     e.id in left && left[e.id] == CountdownOf(e, i, w.cur, w.n)
  }

  /** Timer `id` is in the one place that encodes countdown `left`. */
  ghost predicate InPlace(w: Wheel, id: nat, left: nat)
    requires WellFormed(w)
  {
    Entry(id, left / w.n) in w.slots[(w.cur + left) % w.n]
  }

  ghost predicate TableInSlots(w: Wheel, left: map<nat, nat>)
    requires WellFormed(w)
  {
    forall id :: id in left ==> InPlace(w, id, left[id])
  }

  ghost predicate Refines(w: Wheel, c: Countdowns) {
    && WellFormed(w)
    && w.nextId == c.nextId && w.calls == c.calls
    && (forall i :: 0 <= i < w.n ==> DistinctIds(w.slots[i]))
    && SlotsInTable(w, c.left)
    && TableInSlots(w, c.left)
    && (set f | f in w.fired) == c.fired && FiredOnce(w.fired)
    && (set id | id in w.deleted) == c.deleted && NoRepeats(w.deleted)
  }

  /** Each serial number handed out so far belongs to exactly one of the three fates. */
  ghost predicate Conserved(c: Countdowns) {
    && (forall id :: id in c.left ==> id < c.nextId && id !in c.deleted)
    && (forall f :: f in c.fired ==> f.id < c.nextId && f.id !in c.left && f.id !in c.deleted)
    && (forall id :: id in c.deleted ==> id < c.nextId)
    && (forall id: nat :: id < c.nextId ==> id in c.left || id in c.deleted || Fired(c.fired, id))
    && (forall f, g :: f in c.fired && g in c.fired && f.id == g.id ==> f == g)
  }

  ghost predicate Fired(fs: set<Firing>, id: nat) {
    exists f :: f in fs && f.id == id
  }
}
