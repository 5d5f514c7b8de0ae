/**
 A list ordered by expiry, on values.

 The first half says what the source's list operations do to any list, sorted or not: one
 search, `FirstGreater`, decides where a timer goes and how many a tick takes.  The second
 half compares them with the obvious operations on a sorted list: stable insertion, removal
 followed by stable insertion, and filtering.
 */
module SortedList {

  datatype Item<T> = Item(who: T, expire: int)

  function Keys<T>(s: seq<Item<T>>): (ks: seq<int>)
    ensures |ks| == |s| && forall i :: 0 <= i < |s| ==> ks[i] == s[i].expire
  {
    seq(|s|, i requires 0 <= i < |s| => s[i].expire)
  }

  ghost predicate Sorted(ks: seq<int>) {
    forall i, j :: 0 <= i < j < |ks| ==> ks[i] <= ks[j]
  }

  /** The position of the first key above `e`, or the end. */
  function FirstGreater(ks: seq<int>, e: int): (p: nat)
    ensures p <= |ks|
    ensures forall i :: 0 <= i < p ==> ks[i] <= e
    ensures p < |ks| ==> e < ks[p]
  {
    if ks == [] || e < ks[0] then 0 else 1 + FirstGreater(ks[1..], e)
  }

  function Splice<T>(s: seq<T>, p: nat, x: T): seq<T>
    requires p <= |s|
  {
    s[..p] + [x] + s[p..]
  }

  function Without<T>(s: seq<T>, k: nat): seq<T>
    requires k < |s|
  {
    s[..k] + s[k + 1..]
  }

  /** `add_timer`. */
  function Insert<T>(s: seq<Item<T>>, x: Item<T>): seq<Item<T>> {
    Splice(s, FirstGreater(Keys(s), x.expire), x)
  }

  /** Where `adjust_timer` puts the timer of position `k` when its expiry has become `e`. */
  function NewPlace(ks: seq<int>, k: nat, e: int): (p: nat)
    requires k < |ks|
    ensures k <= p < |ks|
  {
    k + FirstGreater(ks[k + 1..], e)
  }

  /** `adjust_timer`: the search starts at the successor and never looks back. */
  function Adjust<T>(s: seq<Item<T>>, k: nat, e: int): seq<Item<T>>
    requires k < |s|
  {
    Splice(Without(s, k), NewPlace(Keys(s), k, e), Item(s[k].who, e))
  }

  /** `tick`: what it takes off the front before it meets a timer not yet due. */
  function Due<T>(s: seq<Item<T>>, cur: int): seq<Item<T>> {
    s[..FirstGreater(Keys(s), cur)]
  }

  function NotDue<T>(s: seq<Item<T>>, cur: int): seq<Item<T>> {
    s[FirstGreater(Keys(s), cur)..]
  }

  // ----- Against the obvious operations -----

  /** A search that may skip the first `j + 1` keys, all known to be at most `e`. */
  lemma FirstGreaterFrom(ks: seq<int>, e: int, j: nat)
    requires j < |ks| && forall i :: 0 <= i <= j ==> ks[i] <= e
    ensures FirstGreater(ks, e) == NewPlace(ks, j, e) + 1
  {
  }

  lemma {:induction false} FirstGreaterConcat(front: seq<int>, back: seq<int>, e: int)
    requires forall i :: 0 <= i < |front| ==> front[i] <= e
    ensures FirstGreater(front + back, e) == |front| + FirstGreater(back, e)
  {
    if front == [] {
      assert front + back == back;
    } else {
      assert (front + back)[1..] == front[1..] + back;
      FirstGreaterConcat(front[1..], back, e);
    }
  }

  lemma InFront(ks: seq<int>, e: int)
    ensures ks == [] || e < ks[0] <==> FirstGreater(ks, e) == 0
  {
  }

  lemma NewPlaceUnique(ks: seq<int>, j: nat, e: int, p: nat)
    requires j < p <= |ks| && (forall i :: j < i < p ==> ks[i] <= e) && (p < |ks| ==> e < ks[p])
    ensures NewPlace(ks, j, e) + 1 == p
  {
  }

  /** When the successor is not above `e` either, the search may start behind it. */
  lemma {:induction false} SkipSuccessor(ks: seq<int>, k: nat, e: int)
    requires k + 1 < |ks|
    ensures ks[k + 1] > e ==> NewPlace(ks, k, e) == k
    ensures ks[k + 1] <= e ==> NewPlace(ks, k, e) == NewPlace(Without(ks, k), k, e) + 1
  {
    assert ks[k + 1..][1..] == Without(ks, k)[k + 1..];
  }

  lemma SpliceMembers<T>(s: seq<T>, p: nat, x: T)
    requires p <= |s|
    ensures forall y :: y in Splice(s, p, x) <==> y in s || y == x
  {
  }

  lemma WithoutMembers<T>(s: seq<T>, k: nat)
    requires k < |s|
    ensures forall y :: y in Without(s, k) ==> y in s
  {
  }

  lemma SpliceBack<T>(s: seq<T>, k: nat)
    requires k < |s|
    ensures Splice(Without(s, k), k, s[k]) == s
  {
  }

  lemma KeysOfParts<T>(s: seq<Item<T>>, p: nat)
    requires p <= |s|
    ensures Keys(s[..p]) == Keys(s)[..p] && Keys(s[p..]) == Keys(s)[p..]
  {
  }

  lemma KeysOfSplice<T>(s: seq<Item<T>>, p: nat, x: Item<T>)
    requires p <= |s|
    ensures Keys(Splice(s, p, x)) == Splice(Keys(s), p, x.expire)
  {
  }

  lemma KeysOfWithout<T>(s: seq<Item<T>>, k: nat)
    requires k < |s|
    ensures Keys(Without(s, k)) == Without(Keys(s), k)
  {
  }

  /** On a sorted list everything from the place found onwards is above `e`. */
  lemma AboveFromThere(ks: seq<int>, e: int)
    requires Sorted(ks)
    ensures forall i :: 0 <= i < |ks| ==> (ks[i] <= e <==> i < FirstGreater(ks, e))
  {
  }

  lemma SpliceSorted(ks: seq<int>, e: int)
    requires Sorted(ks)
    ensures Sorted(Splice(ks, FirstGreater(ks, e), e))
  {
  }

  /** Insertion keeps the order, and puts the new timer behind all timers due at the same time. */
  lemma {:induction false} InsertIsStable<T>(s: seq<Item<T>>, x: Item<T>)
    requires Sorted(Keys(s))
    ensures Sorted(Keys(Insert(s, x)))
    ensures var p := FirstGreater(Keys(s), x.expire);
            && Insert(s, x)[p] == x && Without(Insert(s, x), p) == s
            && (forall i :: 0 <= i < |s| ==> (s[i].expire <= x.expire <==> i < p))
  {
    hide FirstGreater, Sorted;
    var p := FirstGreater(Keys(s), x.expire);
    AboveFromThere(Keys(s), x.expire);
    SpliceSorted(Keys(s), x.expire);
    KeysOfSplice(s, p, x);
    assert Without(Insert(s, x), p) == s;
  }

  /** Removal followed by stable insertion, the textbook way to change an expiry. */
  function Reinsert<T>(s: seq<Item<T>>, k: nat, e: int): seq<Item<T>>
    requires k < |s|
  {
    Insert(Without(s, k), Item(s[k].who, e))
  }

  /** The other timers of the list are in order. */
  ghost predicate SortedBut(ks: seq<int>, k: nat)
    requires k < |ks|
  {
    Sorted(Without(ks, k))
  }

  ghost predicate Distinct<T>(s: seq<Item<T>>) {
    forall i, j :: 0 <= i < j < |s| ==> s[i].who != s[j].who
  }

  /** The keys of the list that `Adjust` makes, in terms of those of the other timers. */
  lemma AdjustKeys<T>(s: seq<Item<T>>, k: nat, e: int)
    requires k < |s|
    ensures Keys(Adjust(s, k, e)) == Splice(Without(Keys(s), k), NewPlace(Keys(s), k, e), e)
    ensures Keys(Without(s, k)) == Without(Keys(s), k)
  {
    KeysOfWithout(s, k);
    KeysOfSplice(Without(s, k), NewPlace(Keys(s), k, e), Item(s[k].who, e));
  }

  /** If the predecessor is not above `e`, the search from the successor finds the right place. */
  lemma {:induction false} NewPlaceIsRight(ks: seq<int>, k: nat, e: int)
    requires k < |ks| && SortedBut(ks, k) && (k == 0 || ks[k - 1] <= e)
    ensures NewPlace(ks, k, e) == FirstGreater(Without(ks, k), e)
  {
    var front, back := ks[..k], ks[k + 1..];
    forall i | 0 <= i < k ensures front[i] <= e {
      assert (front + back)[i] <= (front + back)[k - 1];
    }
    FirstGreaterConcat(front, back, e);
  }

  /** If it is above `e`, the timer belongs further to the front than the search looks. */
  lemma {:induction false} NewPlaceIsWrong(ks: seq<int>, k: nat, e: int)
    requires 0 < k < |ks| && ks[k - 1] > e
    ensures FirstGreater(Without(ks, k), e) < k
    ensures !Sorted(Splice(Without(ks, k), NewPlace(ks, k, e), e))
  {
    var others, p := Without(ks, k), NewPlace(ks, k, e);
    var ks' := Splice(others, p, e);
    assert others[k - 1] > e;
    assert ks'[k - 1] > e && ks'[p] == e;
  }

  /**
   `adjust_timer` does what removal and stable insertion would do exactly when the new expiry
   is not below that of the predecessor.
   */
  lemma {:induction false} AdjustIsReinsert<T>(s: seq<Item<T>>, k: nat, e: int)
    requires k < |s| && SortedBut(Keys(s), k) && Distinct(s)
    ensures Adjust(s, k, e) == Reinsert(s, k, e) <==> (k == 0 || s[k - 1].expire <= e)
    ensures Sorted(Keys(Adjust(s, k, e))) <==> (k == 0 || s[k - 1].expire <= e)
  {
    var ks, p := Keys(s), NewPlace(Keys(s), k, e);
    AdjustKeys(s, k, e);
    if k == 0 || s[k - 1].expire <= e {
      NewPlaceIsRight(ks, k, e);
      SpliceSorted(Without(ks, k), e);
    } else {
      NewPlaceIsWrong(ks, k, e);
      var q := FirstGreater(Without(ks, k), e);
      hide FirstGreater, Keys, Sorted;
      assert Adjust(s, k, e)[q].who == s[q].who;
      assert Reinsert(s, k, e)[q].who == s[k].who;
    }
  }

  /** It can go wrong: brought forward to 5, behind a timer due at 10, the second timer stays there. */
  lemma AdjustCanUnsort() returns (s: seq<Item<nat>>)
    ensures Sorted(Keys(s)) && Distinct(s) && |s| == 2
    ensures Keys(Adjust(s, 1, 5)) == [10, 5] && !Sorted(Keys(Adjust(s, 1, 5)))
    ensures Keys(Reinsert(s, 1, 5)) == [5, 10]
  {
    s := [Item(0, 10), Item(1, 20)];
    AdjustIsReinsert(s, 1, 5);
    AdjustKeys(s, 1, 5);
    assert Keys(s) == [10, 20] && Without(s, 1) == [Item(0, 10)];
    assert Keys([Item(0, 10)]) == [10];
    assert Reinsert(s, 1, 5) == [Item(1, 5), Item(0, 10)];
  }

  /** The timers of `s` that are due at `cur`, or those that are not, in list order. */
  function Select<T>(s: seq<Item<T>>, cur: int, due: bool): seq<Item<T>> {
    if s == [] then []
    else (if (s[0].expire <= cur) == due then [s[0]] else []) + Select(s[1..], cur, due)
  }

  lemma {:induction false} SelectUniform<T>(s: seq<Item<T>>, cur: int, due: bool, all: bool)
    requires forall i :: 0 <= i < |s| ==> (s[i].expire <= cur) == all
    ensures Select(s, cur, due) == if due == all then s else []
  {
    if s != [] {
      SelectUniform(s[1..], cur, due, all);
    }
  }

  lemma ConcatAssociates<T>(a: seq<T>, b: seq<T>, c: seq<T>)
    ensures a + (b + c) == a + b + c
  {
  }

  lemma {:induction false} SelectConcat<T>(s: seq<Item<T>>, t: seq<Item<T>>, cur: int, due: bool)
    ensures Select(s + t, cur, due) == Select(s, cur, due) + Select(t, cur, due)
  {
    if s == [] {
      assert s + t == t;
    } else {
      SelectConcat(s[1..], t, cur, due);
      assert (s + t)[0] == s[0] && (s + t)[1..] == s[1..] + t;
      var first := if (s[0].expire <= cur) == due then [s[0]] else [];
      ConcatAssociates(first, Select(s[1..], cur, due), Select(t, cur, due));
    }
  }

  lemma PartsSorted(ks: seq<int>, p: nat)
    requires Sorted(ks) && p <= |ks|
    ensures Sorted(ks[..p]) && Sorted(ks[p..])
  {
  }

  /** Stopping at the first timer not yet due finds every timer that is due, in order of expiry. */
  lemma {:induction false} EarlyStopIsFilter<T>(s: seq<Item<T>>, cur: int)
    requires Sorted(Keys(s))
    ensures Due(s, cur) == Select(s, cur, true) && NotDue(s, cur) == Select(s, cur, false)
    ensures Sorted(Keys(Due(s, cur))) && Sorted(Keys(NotDue(s, cur)))
  {
    var p := FirstGreater(Keys(s), cur);
    var due, later := s[..p], s[p..];
    assert s == due + later;
    AboveFromThere(Keys(s), cur);
    KeysOfParts(s, p);
    PartsSorted(Keys(s), p);
    hide Sorted, Select, FirstGreater, Keys;
    SelectConcat(due, later, cur, true);
    SelectConcat(due, later, cur, false);
    SelectUniform(due, cur, true, true);
    SelectUniform(due, cur, false, true);
    SelectUniform(later, cur, true, false);
    SelectUniform(later, cur, false, false);
  }

  // ----- Whole runs -----

  datatype Op<T> = Add(who: T, expire: int) | Change(k: nat, expire: int) | Del(k: nat) | Tick(cur: int)

  ghost predicate Possible<T>(s: seq<Item<T>>, op: Op<T>) {
    && (op.Add? ==> forall i :: 0 <= i < |s| ==> s[i].who != op.who)
    && ((op.Change? || op.Del?) ==> op.k < |s|)
  }

  /** What the list does, and the timers it fires on the way. */
  function Apply<T>(s: seq<Item<T>>, op: Op<T>): (seq<Item<T>>, seq<Item<T>>)
    requires (op.Change? || op.Del?) ==> op.k < |s|
  {
    match op
    case Add(who, e) => (Insert(s, Item(who, e)), [])
    case Change(k, e) => (Adjust(s, k, e), [])
    case Del(k) => (Without(s, k), [])
    case Tick(cur) => (NotDue(s, cur), Due(s, cur))
  }

  /** What a list kept by sorting and filtering does. */
  function Reference<T>(s: seq<Item<T>>, op: Op<T>): (seq<Item<T>>, seq<Item<T>>)
    requires (op.Change? || op.Del?) ==> op.k < |s|
  {
    match op
    case Add(who, e) => (Insert(s, Item(who, e)), [])
    case Change(k, e) => (Reinsert(s, k, e), [])
    case Del(k) => (Without(s, k), [])
    case Tick(cur) => (Select(s, cur, false), Select(s, cur, true))
  }

  /** No expiry is moved to before that of the timer in front: the clock does not run backwards. */
  ghost predicate Forward<T>(s: seq<Item<T>>, op: Op<T>) {
    op.Change? ==> op.k < |s| && (op.k == 0 || s[op.k - 1].expire <= op.expire)
  }

  ghost predicate Legal<T>(s: seq<Item<T>>, ops: seq<Op<T>>)
    decreases |ops|
  {
    ops == [] || (Possible(s, ops[0]) && Forward(s, ops[0]) && Legal(Apply(s, ops[0]).0, ops[1..]))
  }

  ghost function Run<T>(s: seq<Item<T>>, ops: seq<Op<T>>): (seq<Item<T>>, seq<Item<T>>)
    requires Legal(s, ops)
    decreases |ops|
  {
    if ops == [] then (s, [])
    else
      var (s1, fired) := Apply(s, ops[0]);
      var (s2, more) := Run(s1, ops[1..]);
      (s2, fired + more)
  }

  ghost function ReferenceRun<T>(s: seq<Item<T>>, ops: seq<Op<T>>): (seq<Item<T>>, seq<Item<T>>)
    requires Sorted(Keys(s)) && Distinct(s) && Legal(s, ops)
    decreases |ops|
  {
    if ops == [] then (s, [])
    else
      StepAgrees(s, ops[0]);
      var (s1, fired) := Reference(s, ops[0]);
      var (s2, more) := ReferenceRun(s1, ops[1..]);
      (s2, fired + more)
  }

  lemma WithoutSorted(ks: seq<int>, k: nat)
    requires Sorted(ks) && k < |ks|
    ensures Sorted(Without(ks, k))
  {
  }

  lemma WithoutDistinct<T>(s: seq<Item<T>>, k: nat)
    requires Distinct(s) && k < |s|
    ensures Distinct(Without(s, k))
    ensures forall i :: 0 <= i < |s| - 1 ==> Without(s, k)[i].who != s[k].who
  {
  }

  lemma SpliceDistinct<T>(s: seq<Item<T>>, p: nat, x: Item<T>)
    requires Distinct(s) && p <= |s|
    requires forall i :: 0 <= i < |s| ==> s[i].who != x.who
    ensures Distinct(Splice(s, p, x))
  {
  }

  lemma {:induction false} StepDistinct<T>(s: seq<Item<T>>, op: Op<T>)
    requires Distinct(s) && Possible(s, op)
    ensures Distinct(Apply(s, op).0)
  {
    match op
    case Add(who, e) =>
      SpliceDistinct(s, FirstGreater(Keys(s), e), Item(who, e));
    case Change(k, e) =>
      WithoutDistinct(s, k);
      SpliceDistinct(Without(s, k), NewPlace(Keys(s), k, e), Item(s[k].who, e));
    case Del(k) =>
      WithoutDistinct(s, k);
    case Tick(cur) =>
  }

  lemma {:induction false} StepAgrees<T>(s: seq<Item<T>>, op: Op<T>)
    requires Sorted(Keys(s)) && Distinct(s) && Possible(s, op) && Forward(s, op)
    ensures Apply(s, op) == Reference(s, op)
    ensures Sorted(Keys(Apply(s, op).0)) && Distinct(Apply(s, op).0)
  {
    StepDistinct(s, op);
    match op
    case Add(who, e) =>
      InsertIsStable(s, Item(who, e));
    case Change(k, e) =>
      WithoutSorted(Keys(s), k);
      AdjustIsReinsert(s, k, e);
    case Del(k) =>
      WithoutSorted(Keys(s), k);
      KeysOfWithout(s, k);
    case Tick(cur) =>
      EarlyStopIsFilter(s, cur);
  }

  /** Every run of the list keeps it sorted and does what sorting and filtering would do. */
  lemma {:induction false} RunAgrees<T>(s: seq<Item<T>>, ops: seq<Op<T>>)
    requires Sorted(Keys(s)) && Distinct(s) && Legal(s, ops)
    ensures Run(s, ops) == ReferenceRun(s, ops)
    ensures Sorted(Keys(Run(s, ops).0)) && Distinct(Run(s, ops).0)
    decreases |ops|
  {
    if ops != [] {
      StepAgrees(s, ops[0]);
      RunAgrees(Apply(s, ops[0]).0, ops[1..]);
    }
  }
}
