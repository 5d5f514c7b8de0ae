/** The wheel refines the countdown table; what that says about firing times and fates. */
module WheelTheorems {
  import opened ModArith
  import opened Sequences
  import opened WheelSpec

  /** The ticks of a timeout: one below a slot interval, else as many intervals as go into it. */
  lemma TicksCover(timeout: nat, si: nat)
    requires 1 <= si
    ensures timeout < si ==> TicksOf(timeout, si) == 1
    ensures si <= timeout ==> TicksOf(timeout, si) * si <= timeout < (TicksOf(timeout, si) + 1) * si
  {
    assert timeout == (timeout / si) * si + timeout % si;
  }

  lemma TicksAre(timeout: nat, si: nat, ticks: nat)
    requires 1 <= si
    requires timeout < si ==> ticks == 1
    requires si <= timeout ==> ticks * si <= timeout < (ticks + 1) * si
    ensures TicksOf(timeout, si) == ticks
  {
    if si <= timeout {
      DivModUnique(timeout, ticks, timeout - ticks * si, si);
    }
  }

  // ----- Where a countdown lives -----

  /** A countdown is stored in exactly one place: as one (slot, rotation) pair. */
  lemma {:induction false} PlaceOfCountdown(c: nat, cur: nat, n: nat)
    requires cur < n
    ensures CountdownOf(Entry(0, c / n), (cur + c) % n, cur, n) == c
    ensures TargetSlot(cur, c, n) == (cur + c) % n
  {
    ModShift(cur, c, n);
    ModSum(cur, c % n, n);
    ModDifference((cur + c) % n, cur, n);
  }

  lemma {:induction false} CountdownOfPlace(e: Entry, slot: nat, cur: nat, n: nat)
    requires cur < n && slot < n
    ensures CountdownOf(e, slot, cur, n) / n == e.rotation
    ensures (cur + CountdownOf(e, slot, cur, n)) % n == slot
  {
    var c, d := CountdownOf(e, slot, cur, n), Distance(slot, cur, n);
    ModDifference(slot, cur, n);
    assert c == e.rotation * n + d;
    DivModUnique(c, e.rotation, d, n);
    ModShift(cur, c, n);
    ModSum(cur, d, n);
  }

  /** Moving the wheel on brings every slot one call nearer, the visited one a turn away. */
  lemma {:induction false} DistanceAfterTick(slot: nat, cur: nat, n: nat)
    requires cur < n && slot < n
    ensures Distance(slot, (cur + 1) % n, n) ==
            if slot == cur then n - 1 else Distance(slot, cur, n) - 1
    ensures Distance(slot, cur, n) == 0 <==> slot == cur
    ensures Distance(slot, cur, n) < n
  {
    ModDifference(slot, cur, n);
    if cur + 1 < n {
      DivModUnique(cur + 1, 0, cur + 1, n);
      ModDifference(slot, cur + 1, n);
    } else {
      DivModUnique(cur + 1, 1, 0, n);
      ModDifference(slot, 0, n);
    }
  }

  // ----- One visit of a slot -----

  lemma {:induction false} SurvivorsExactly(es: seq<Entry>, e: Entry)
    ensures e in Survivors(es) <==> Entry(e.id, e.rotation + 1) in es
  {
    if es != [] {
      var k := |es| - 1;
      assert es == es[..k] + [es[k]];
      SurvivorsExactly(es[..k], e);
    }
  }

  lemma {:induction false} ExpiredExactly(es: seq<Entry>, call: nat, f: Firing)
    ensures f in Expired(es, call) <==> f.call == call && Entry(f.id, 0) in es
  {
    if es != [] {
      var k := |es| - 1;
      assert es == es[..k] + [es[k]];
      ExpiredExactly(es[..k], call, f);
    }
  }

  lemma {:induction false} VisitKeepsOrder(es: seq<Entry>, k: nat, call: nat)
    requires k < |es|
    ensures es[k].rotation > 0 ==> |Survivors(es[..k])| < |Survivors(es)|
    ensures es[k].rotation > 0 ==>
              Survivors(es)[|Survivors(es[..k])|] == Entry(es[k].id, es[k].rotation - 1)
    ensures es[k].rotation == 0 ==> |Expired(es[..k], call)| < |Expired(es, call)|
    ensures es[k].rotation == 0 ==>
              Expired(es, call)[|Expired(es[..k], call)|] == Firing(es[k].id, call)
    ensures |Survivors(es)| + |Expired(es, call)| == |es|
  {
    var l := |es| - 1;
    if k < l {
      assert es[..l][..k] == es[..k];
      VisitKeepsOrder(es[..l], k, call);
    } else if l > 0 {
      assert es[..l][..l - 1] == es[..l - 1];
      VisitKeepsOrder(es[..l], l - 1, call);
    }
  }

  lemma {:induction false} VisitKeepsDistinct(es: seq<Entry>, call: nat)
    requires DistinctIds(es)
    ensures DistinctIds(Survivors(es)) && FiredOnce(Expired(es, call))
  {
    if es != [] {
      var k := |es| - 1;
      VisitKeepsDistinct(es[..k], call);
      forall e | e in Survivors(es[..k]) ensures e.id != es[k].id {
        SurvivorsExactly(es[..k], e);
      }
      forall f | f in Expired(es[..k], call) ensures f.id != es[k].id {
        ExpiredExactly(es[..k], call, f);
      }
    }
  }

  // ----- Deleting -----

  lemma {:induction false} RemoveIdExactly(es: seq<Entry>, id: nat, e: Entry)
    requires DistinctIds(es)
    ensures e in RemoveId(es, id) <==> e in es && e.id != id
    ensures DistinctIds(RemoveId(es, id))
  {
    if es != [] {
      assert es == [es[0]] + es[1..];
      RemoveIdExactly(es[1..], id, e);
      if es[0].id != id {
        var rest := RemoveId(es[1..], id);
        forall k | 0 <= k < |rest| ensures rest[k].id != es[0].id {
          RemoveIdExactly(es[1..], id, rest[k]);
          assert rest[k] in es[1..];
        }
      }
    }
  }

  lemma {:induction false} RemoveIdAt(es: seq<Entry>, k: nat)
    requires k < |es| && forall j :: 0 <= j < k ==> es[j].id != es[k].id
    ensures RemoveId(es, es[k].id) == es[..k] + es[k + 1..]
  {
    if k > 0 {
      RemoveIdAt(es[1..], k - 1);
      assert es[1..][..k - 1] == es[1..k] && es[1..][k..] == es[k + 1..];
    }
  }

  // ----- One step -----

  lemma InitRefines(n: nat, si: nat)
    requires 1 <= n && 1 <= si
    ensures Refines(Empty(n, si), Countdowns(map[], 0, 0, {}, {}))
    ensures Conserved(Countdowns(map[], 0, 0, {}, {}))
  {
  }

  lemma {:induction false} AddSlots(w: Wheel, c: Countdowns, timeout: nat)
    requires Refines(w, c) && Conserved(c)
    ensures SlotsInTable(AddTimer(w, timeout), SpecAdd(c, TicksOf(timeout, w.si)).left)
    ensures forall i :: 0 <= i < w.n ==> DistinctIds(AddTimer(w, timeout).slots[i])
  {
    var ticks := TicksOf(timeout, w.si);
    var w', left' := AddTimer(w, timeout), SpecAdd(c, ticks).left;
    PlaceOfCountdown(ticks, w.cur, w.n);
    var ts, new_ := TargetSlot(w.cur, ticks, w.n), Entry(w.nextId, ticks / w.n);
    forall i, e | 0 <= i < w.n && e in w'.slots[i]
      ensures e.id in left' && left'[e.id] == CountdownOf(e, i, w.cur, w.n)
    {
      if i != ts || e != new_ {
        assert e in w.slots[i];
      }
    }
    forall j | 0 <= j < |w.slots[ts]| ensures w.slots[ts][j].id != w.nextId {
      assert w.slots[ts][j] in w.slots[ts];
    }
  }

  lemma {:induction false} AddTable(w: Wheel, c: Countdowns, timeout: nat)
    requires Refines(w, c) && Conserved(c)
    ensures TableInSlots(AddTimer(w, timeout), SpecAdd(c, TicksOf(timeout, w.si)).left)
  {
    var ticks := TicksOf(timeout, w.si);
    var w', left' := AddTimer(w, timeout), SpecAdd(c, ticks).left;
    PlaceOfCountdown(ticks, w.cur, w.n);
    var ts, new_ := TargetSlot(w.cur, ticks, w.n), Entry(w.nextId, ticks / w.n);
    forall id | id in left'
      ensures InPlace(w', id, left'[id])
    {
      if id == w.nextId {
        assert w'.slots[ts][0] == new_;
      } else {
        assert InPlace(w, id, c.left[id]);
        var e, i := Entry(id, c.left[id] / w.n), (w.cur + c.left[id]) % w.n;
        assert e in w'.slots[i] by {
          assert i == ts ==> w'.slots[i] == [new_] + w.slots[i];
        }
      }
    }
  }

  /** Taking one timer out of its slot takes exactly that timer out of the wheel. */
  lemma {:induction false} DelExactly(w: Wheel, c: Countdowns, id: nat, slot: nat, i: nat, e: Entry)
    requires Refines(w, c) && slot < w.n && HasId(w.slots[slot], id) && i < w.n
    ensures id in c.left
    ensures e in DelTimer(w, id, slot).slots[i] <==> e in w.slots[i] && e.id != id
  {
    var es := w.slots[slot];
    var j :| 0 <= j < |es| && es[j].id == id;
    assert es[j] in es;
    if i == slot {
      RemoveIdExactly(es, id, e);
    } else if e in w.slots[i] {
      CountdownOfPlace(es[j], slot, w.cur, w.n);
      CountdownOfPlace(e, i, w.cur, w.n);
    }
  }

  lemma {:induction false} DelInPlace(w: Wheel, c: Countdowns, id: nat, slot: nat, other: nat)
    requires Refines(w, c) && slot < w.n && HasId(w.slots[slot], id)
    requires other in c.left && other != id
    ensures InPlace(DelTimer(w, id, slot), other, c.left[other])
  {
    assert InPlace(w, other, c.left[other]);
    DelExactly(w, c, id, slot, (w.cur + c.left[other]) % w.n, Entry(other, c.left[other] / w.n));
  }

  lemma {:induction false} DelSlots(w: Wheel, c: Countdowns, id: nat, slot: nat)
    requires Refines(w, c) && Conserved(c)
    requires slot < w.n && HasId(w.slots[slot], id)
    ensures id in c.left
    ensures SlotsInTable(DelTimer(w, id, slot), SpecDel(c, id).left)
    ensures forall i :: 0 <= i < w.n ==> DistinctIds(DelTimer(w, id, slot).slots[i])
  {
    var w' := DelTimer(w, id, slot);
    forall i, e | 0 <= i < w.n && e in w'.slots[i]
      ensures e in w.slots[i] && e.id != id
    {
      DelExactly(w, c, id, slot, i, e);
    }
    DelExactly(w, c, id, slot, slot, Entry(id, 0));
    RemoveIdExactly(w.slots[slot], id, Entry(id, 0));
  }

  lemma {:induction false} DelRefines(w: Wheel, c: Countdowns, id: nat, slot: nat)
    requires Refines(w, c) && Conserved(c)
    requires slot < w.n && HasId(w.slots[slot], id)
    ensures id in c.left
    ensures Refines(DelTimer(w, id, slot), SpecDel(c, id))
  {
    DelSlots(w, c, id, slot);
    forall other | other in c.left && other != id
      ensures InPlace(DelTimer(w, id, slot), other, c.left[other])
    {
      DelInPlace(w, c, id, slot, other);
    }
  }

  /** Touching one slot lowers every countdown in every slot by exactly one. */
  lemma {:induction false} TickCountdown(e: Entry, slot: nat, cur: nat, n: nat)
    requires cur < n && slot < n
    ensures slot != cur ==>
              CountdownOf(e, slot, cur, n) == CountdownOf(e, slot, (cur + 1) % n, n) + 1
    ensures slot == cur && e.rotation > 0 ==>
              CountdownOf(e, slot, cur, n) ==
              CountdownOf(Entry(e.id, e.rotation - 1), slot, (cur + 1) % n, n) + 1
    ensures CountdownOf(e, slot, cur, n) == 0 <==> slot == cur && e.rotation == 0
  {
    DistanceAfterTick(slot, cur, n);
    assert n * e.rotation == 0 <==> e.rotation == 0;
    if e.rotation > 0 {
      assert n * e.rotation == n * (e.rotation - 1) + n;
    }
  }

  lemma {:induction false} TickSlots(w: Wheel, c: Countdowns)
    requires Refines(w, c) && Conserved(c)
    ensures SlotsInTable(TickWheel(w), SpecTick(c).left)
    ensures forall i :: 0 <= i < w.n ==> DistinctIds(TickWheel(w).slots[i])
  {
    var w', c' := TickWheel(w), SpecTick(c);
    VisitKeepsDistinct(w.slots[w.cur], 0);
    forall i, e | 0 <= i < w.n && e in w'.slots[i]
      ensures e.id in c'.left && c'.left[e.id] == CountdownOf(e, i, w'.cur, w.n)
    {
      var old_ := if i == w.cur then Entry(e.id, e.rotation + 1) else e;
      if i == w.cur {
        SurvivorsExactly(w.slots[i], e);
      }
      assert old_ in w.slots[i];
      TickCountdown(old_, i, w.cur, w.n);
    }
  }

  lemma {:induction false} TickTableEntry(w: Wheel, c: Countdowns, id: nat)
    requires Refines(w, c) && id in c.left && c.left[id] > 0
    ensures InPlace(TickWheel(w), id, c.left[id] - 1)
  {
    assert InPlace(w, id, c.left[id]);
    var i, e := (w.cur + c.left[id]) % w.n, Entry(id, c.left[id] / w.n);
    assert e in w.slots[i] && c.left[id] == CountdownOf(e, i, w.cur, w.n);
    TickCountdown(e, i, w.cur, w.n);
    var e' := if i == w.cur then Entry(id, e.rotation - 1) else e;
    CountdownOfPlace(e', i, TickWheel(w).cur, w.n);
    if i == w.cur {
      SurvivorsExactly(w.slots[i], e');
    }
  }

  lemma {:induction false} TickTable(w: Wheel, c: Countdowns)
    requires Refines(w, c) && Conserved(c)
    ensures TableInSlots(TickWheel(w), SpecTick(c).left)
  {
    forall id | id in SpecTick(c).left
      ensures InPlace(TickWheel(w), id, SpecTick(c).left[id])
    {
      TickTableEntry(w, c, id);
    }
  }

  lemma {:induction false} TickFires(w: Wheel, c: Countdowns)
    requires Refines(w, c) && Conserved(c)
    ensures (set f | f in TickWheel(w).fired) == SpecTick(c).fired
    ensures FiredOnce(TickWheel(w).fired)
  {
    var es, now := w.slots[w.cur], Expired(w.slots[w.cur], w.calls + 1);
    forall f ensures f in now <==> f.call == w.calls + 1 && f.id in c.left && c.left[f.id] == 0 {
      ExpiredExactly(es, w.calls + 1, f);
      if Entry(f.id, 0) in es {
        TickCountdown(Entry(f.id, 0), w.cur, w.cur, w.n);
      }
      if f.id in c.left && c.left[f.id] == 0 {
        assert InPlace(w, f.id, c.left[f.id]);
        var e, i := Entry(f.id, c.left[f.id] / w.n), (w.cur + c.left[f.id]) % w.n;
        TickCountdown(e, i, w.cur, w.n);
      }
    }
    VisitKeepsDistinct(es, w.calls + 1);
    forall f, g | f in w.fired && g in now ensures f.id != g.id {
      assert f in c.fired;
    }
    var all := w.fired + now;
    forall j, k | 0 <= j < k < |all| ensures all[j].id != all[k].id {
      if j < |w.fired| <= k {
        assert all[j] in w.fired && all[k] in now;
      }
    }
  }

  lemma {:induction false} StepRefines(w: Wheel, c: Countdowns, op: Op)
    requires Refines(w, c) && Conserved(c) && Enabled(w, op)
    ensures Refines(Step(w, op), SpecStep(c, op, w.si))
    ensures Conserved(SpecStep(c, op, w.si))
  {
    match op
    case Add(timeout) =>
      if timeout >= 0 {
        AddSlots(w, c, timeout);
        AddTable(w, c, timeout);
        var c' := SpecStep(c, op, w.si);
        assert forall id | id in c.left :: id in c'.left;
        assert c'.fired == c.fired;
      }
    case Del(id, slot) =>
      DelRefines(w, c, id, slot);
    case Tick =>
      TickSlots(w, c);
      TickTable(w, c);
      TickFires(w, c);
      TickConserves(c);
  }

  lemma TickConserves(c: Countdowns)
    requires Conserved(c)
    ensures Conserved(SpecTick(c))
  {
  }

  // ----- Whole runs -----

  /** After any sequence of calls the wheel equals the table that is lowered eagerly. */
  lemma {:induction false} RunRefines(w: Wheel, c: Countdowns, ops: seq<Op>)
    requires Refines(w, c) && Conserved(c) && Legal(w, ops)
    ensures Refines(Run(w, ops), SpecRun(c, ops, w.si))
    ensures Conserved(SpecRun(c, ops, w.si))
    decreases |ops|
  {
    if ops != [] {
      StepRefines(w, c, ops[0]);
      RunRefines(Step(w, ops[0]), SpecStep(c, ops[0], w.si), ops[1..]);
    }
  }

  ghost predicate Reachable(w: Wheel) {
    && WellFormed(w)
    && exists ops :: Legal(Empty(w.n, w.si), ops) && Run(Empty(w.n, w.si), ops) == w
  }

  lemma {:induction false} RunOneMore(w: Wheel, ops: seq<Op>, op: Op)
    requires Legal(w, ops) && Enabled(Run(w, ops), op)
    ensures Legal(w, ops + [op]) && Run(w, ops + [op]) == Step(Run(w, ops), op)
    decreases |ops|
  {
    if ops == [] {
      assert ops + [op] == [op];
      assert [op][1..] == [];
    } else {
      RunOneMore(Step(w, ops[0]), ops[1..], op);
      assert (ops + [op])[1..] == ops[1..] + [op];
    }
  }

  /** A wheel on values that starts empty and follows `Step` is always reachable. */
  lemma {:induction false} StepReachable(w: Wheel, op: Op)
    requires Reachable(w) && Enabled(w, op)
    ensures Reachable(Step(w, op))
  {
    var ops :| Legal(Empty(w.n, w.si), ops) && Run(Empty(w.n, w.si), ops) == w;
    RunOneMore(Empty(w.n, w.si), ops, op);
  }

  lemma EmptyReachable(n: nat, si: nat)
    requires 1 <= n && 1 <= si
    ensures Reachable(Empty(n, si))
  {
    var ops: seq<Op> := [];
    assert Legal(Empty(n, si), ops) && Run(Empty(n, si), ops) == Empty(n, si);
  }

  /** The table of a reachable wheel exists and keeps count of every timer ever added. */
  lemma {:induction false} ReachableRefines(w: Wheel) returns (c: Countdowns)
    requires Reachable(w)
    ensures Refines(w, c) && Conserved(c)
  {
    var ops :| Legal(Empty(w.n, w.si), ops) && Run(Empty(w.n, w.si), ops) == w;
    InitRefines(w.n, w.si);
    c := Countdowns(map[], 0, 0, {}, {});
    RunRefines(Empty(w.n, w.si), c, ops);
    c := SpecRun(c, ops, w.si);
  }

  ghost predicate Pending(w: Wheel, id: nat) {
    exists i :: 0 <= i < |w.slots| && HasId(w.slots[i], id)
  }

  ghost predicate HasFired(w: Wheel, id: nat) {
    exists k :: 0 <= k < |w.fired| && w.fired[k].id == id
  }

  /**
   Conservation: each timer ever added is pending, fired or deleted, only one of them, and
   no timer is fired twice or deleted twice.
   */
  lemma {:induction false} EveryTimerHasOneFate(w: Wheel, id: nat)
    requires Reachable(w)
    ensures Pending(w, id) || HasFired(w, id) || id in w.deleted <==> id < w.nextId
    ensures !(Pending(w, id) && HasFired(w, id))
    ensures !(Pending(w, id) && id in w.deleted)
    ensures !(HasFired(w, id) && id in w.deleted)
    ensures FiredOnce(w.fired) && NoRepeats(w.deleted)
  {
    var c := ReachableRefines(w);
    PendingIsInTable(w, c, id);
    assert HasFired(w, id) <==> Fired(c.fired, id) by {
      if HasFired(w, id) {
        var k :| 0 <= k < |w.fired| && w.fired[k].id == id;
        assert w.fired[k] in c.fired;
      }
      if Fired(c.fired, id) {
        var f :| f in c.fired && f.id == id;
        assert f in w.fired;
      }
    }
    assert id in w.deleted <==> id in c.deleted;
  }

  lemma PendingIsInTable(w: Wheel, c: Countdowns, id: nat)
    requires Refines(w, c)
    ensures Pending(w, id) <==> id in c.left
  {
  }

  // ----- Exact firing time -----

  /** Timer `id` is due in call number `due`: still counting down to it, or fired in it. */
  ghost predicate OnSchedule(c: Countdowns, id: nat, due: nat) {
    && id < c.nextId
    && (id in c.left <==> c.calls < due)
    && (id in c.left ==> c.left[id] + c.calls + 1 == due)
    && (c.calls >= due ==> Firing(id, due) in c.fired)
    && (forall f :: f in c.fired && f.id == id ==> f.call == due && due <= c.calls)
  }

  ghost predicate NeverDeletes(ops: seq<Op>, id: nat) {
    forall k :: 0 <= k < |ops| ==> !(ops[k].Del? && ops[k].id == id)
  }

  lemma {:induction false} StaysOnSchedule(c: Countdowns, ops: seq<Op>, si: nat, id: nat, due: nat)
    requires 1 <= si && OnSchedule(c, id, due) && NeverDeletes(ops, id)
    ensures OnSchedule(SpecRun(c, ops, si), id, due)
    decreases |ops|
  {
    if ops != [] {
      var c' := SpecStep(c, ops[0], si);
      assert OnSchedule(c', id, due) by {
        if ops[0].Tick? && c.calls + 1 == due {
          assert Firing(id, due) in c'.fired;
        }
      }
      assert forall k :: 0 <= k < |ops[1..]| ==> ops[1..][k] == ops[k + 1];
      StaysOnSchedule(c', ops[1..], si, id, due);
    }
  }

  function TicksIn(ops: seq<Op>): nat {
    if ops == [] then 0 else (if ops[0].Tick? then 1 else 0) + TicksIn(ops[1..])
  }

  lemma {:induction false} CallsAreTicks(w: Wheel, ops: seq<Op>)
    requires Legal(w, ops)
    ensures Run(w, ops).calls == w.calls + TicksIn(ops)
    decreases |ops|
  {
    if ops != [] {
      CallsAreTicks(Step(w, ops[0]), ops[1..]);
    }
  }

  /**
   A timer added with timeout `t` and never deleted has its callback run in one call of `tick`
   after the insertion: the second if `t` is shorter than a slot interval, else the one after
   `t / si` calls have passed.  It runs once and in no other call, whatever is added or deleted
   in between, and until then the timer is pending.
   */
  lemma {:induction false} FiresExactlyOnTime(w: Wheel, t: nat, ops: seq<Op>)
    requires Reachable(w)
    requires Legal(AddTimer(w, t), ops) && NeverDeletes(ops, w.nextId)
    ensures var w' := Run(AddTimer(w, t), ops);
            var call := (if t < w.si then 1 else t / w.si) + 1;
            && (TicksIn(ops) < call ==> Pending(w', w.nextId) && !HasFired(w', w.nextId))
            && (TicksIn(ops) >= call ==> Firing(w.nextId, w.calls + call) in w'.fired && !Pending(w', w.nextId))
            && (forall f :: f in w'.fired && f.id == w.nextId ==> f.call == w.calls + call)
            && FiredOnce(w'.fired)
  {
    CallsAreTicks(AddTimer(w, t), ops);
    FiresWhenDue(w, t, ops);
  }

  lemma {:induction false} FiresWhenDue(w: Wheel, t: nat, ops: seq<Op>)
    requires Reachable(w)
    requires Legal(AddTimer(w, t), ops) && NeverDeletes(ops, w.nextId)
    ensures var w' := Run(AddTimer(w, t), ops);
            var due := w.calls + TicksOf(t, w.si) + 1;
            && (w'.calls < due ==> Pending(w', w.nextId) && !HasFired(w', w.nextId))
            && (w'.calls >= due ==> Firing(w.nextId, due) in w'.fired && !Pending(w', w.nextId))
            && (forall f :: f in w'.fired && f.id == w.nextId ==> f.call == due)
            && FiredOnce(w'.fired)
  {
    var c := ReachableRefines(w);
    var id, due := w.nextId, w.calls + TicksOf(t, w.si) + 1;
    StepRefines(w, c, Add(t));
    var c1 := SpecStep(c, Add(t), w.si);
    RunRefines(AddTimer(w, t), c1, ops);
    assert OnSchedule(c1, id, due);
    StaysOnSchedule(c1, ops, w.si, id, due);
    var w', c' := Run(AddTimer(w, t), ops), SpecRun(c1, ops, w.si);
    PendingIsInTable(w', c', id);
    forall f | f in w'.fired && f.id == id ensures f.call == due && due <= w'.calls {
      assert f in c'.fired;
    }
    if w'.calls >= due {
      assert Firing(id, due) in c'.fired;
    }
  }
}
