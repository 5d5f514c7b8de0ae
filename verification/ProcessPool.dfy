/** The event handler of the parent process, over its table of children. */
module ProcessPools {
  import opened ModArith
  import opened ProcessPoolSpec
  import opened ProcessPoolTheorems
  import opened Sequences

  class ProcessPool {
    const subProcess: array<int>
    var subProcessCounter: nat
    var stop: bool

    // The calls made so far: `send` and `close` by child, `kill` by process.
    ghost var sent: seq<nat>
    ghost var closed: seq<nat>
    ghost var killed: seq<int>

    ghost function P(): Pool
      reads this, subProcess
    {
      Pool(subProcess[..], subProcessCounter, stop, sent, closed, killed)
    }

    ghost predicate Valid()
      reads this, subProcess
    {
      LifeOk(P())
    }

    /** The state after all children have been forked; `children` are their processes. */
    constructor (children: seq<int>)
      requires |children| >= 1 && NoRepeats(children) && forall i :: 0 <= i < |children| ==> children[i] > 0
      ensures Valid() && P() == Start(children) && fresh(subProcess)
    {
      subProcess := new int[|children|](i requires 0 <= i < |children| => children[i]);
      subProcessCounter, stop := 0, false;
      sent, closed, killed := [], [], [];
      new;
      assert subProcess[..] == children;
    }

    /** The search loop for a new connection; it ends at the counter again if nobody lives. */
    method Search() returns (i: nat, ghost k: nat)
      requires Valid()
      ensures i < subProcess.Length && k == Skip(P().pids, subProcessCounter, 0)
      ensures k < subProcess.Length ==> i == Turn(subProcessCounter + k, subProcess.Length) && Lives(P().pids, i)
      ensures k == subProcess.Length ==> i == subProcessCounter && AllReaped(P().pids)
    {
      ghost var n, pids := subProcess.Length, P().pids;
      SkipsAllExactly(P());
      TurnBelow(subProcessCounter, n);
      i, k := subProcessCounter, 0;
      while true
        invariant i < n && k < n && i == Turn(subProcessCounter + k, n)
        invariant Skip(pids, subProcessCounter, 0) == Skip(pids, subProcessCounter, k)
        decreases n - k
      {
        if subProcess[i] != REAPED {
          break;
        }
        BackAtStart(subProcessCounter, k, n);
        i := (i + 1) % subProcess.Length;
        k := k + 1;
        if i == subProcessCounter {
          break;
        }
      }
    }

    /** Going round from the counter, one is back there after `n` places and not before. */
    static lemma BackAtStart(counter: nat, k: nat, n: nat)
      requires counter < n && k < n
      ensures Turn(counter + (k + 1), n) == (Turn(counter + k, n) + 1) % n
      ensures Turn(counter + (k + 1), n) == counter <==> k + 1 == n
    {
      TurnBelow(counter, n);
      NextTurn(counter, counter, k, n);
      if k + 1 < n {
        ModSum(counter, k + 1, n);
      } else {
        DivModUnique(counter + n, 1, counter, n);
      }
    }

    /** A new connection arrives; `left` says that the loop over the events is left. */
    method Connect() returns (left: bool)
      requires Valid()
      modifies this
      ensures Valid() && P() == Dispatch(old(P())) && left == Breaks(old(P()), Connection)
    {
      SkipsAllExactly(P());
      LifeEvent(P(), Connection);
      var i, k := Search();
      if subProcess[i] == REAPED {
        stop := true;
        return true;
      }
      subProcessCounter := (i + 1) % subProcess.Length;
      sent := sent + [i];
      return false;
    }

    /** A process has ended: its entry is cleared and the parent's end of its pipe closed. */
    method Join(pid: int)
      requires Valid() && pid > 0
      modifies subProcess, `closed
      ensures Valid() && P() == Reap(old(P()), pid)
    {
      LifeReap(P(), pid);
      ghost var pids, m, closed0 := P().pids, ChildOf(P().pids, pid), closed;
      for i := 0 to subProcess.Length
        invariant subProcess[..] == if m < i then pids[m := REAPED] else pids
        invariant closed == if m < i then closed0 + [m] else closed0
      {
        assert (subProcess[i] == pid) == (i == m) by {
          assert subProcess[..][i] == subProcess[i];
        }
        if subProcess[i] == pid {
          closed := closed + [i];
          subProcess[i] := REAPED;
        }
      }
    }

    method Child(waited: seq<int>)
      requires Valid()
      modifies this, subProcess
      ensures Valid() && P() == Receive(old(P()), Signal.Child(waited))
    {
      hide LifeOk, Reap;
      ghost var p0 := P();
      var j := 0;
      while j < |waited| && waited[j] > 0
        invariant j <= |waited| && Valid() && ReapAll(P(), waited[j..]) == ReapAll(p0, waited)
      {
        assert waited[j..][1..] == waited[j + 1..];
        Join(waited[j]);
        j := j + 1;
      }
      CheckStop();
    }

    /** The parent stops when no child is left. */
    method CheckStop()
      requires Valid()
      modifies `stop
      ensures Valid() && P() == old(P()).(stop := AllReaped(old(P()).pids))
    {
      stop := true;
      for i := 0 to subProcess.Length
        invariant stop == AllReaped(subProcess[..i])
      {
        assert subProcess[..i + 1] == subProcess[..i] + [subProcess[i]];
        if subProcess[i] != REAPED {
          stop := false;
        }
      }
      assert subProcess[..subProcess.Length] == subProcess[..];
    }

    method Terminate()
      requires Valid()
      modifies `killed
      ensures Valid() && P() == Receive(old(P()), Signal.Terminate)
    {
      ghost var killed0 := killed;
      for i := 0 to subProcess.Length
        invariant killed == killed0 + Living(subProcess[..i])
      {
        assert subProcess[..i + 1][..i] == subProcess[..i];
        var pid := subProcess[i];
        if pid != REAPED {
          killed := killed + [pid];
        }
      }
      assert subProcess[..subProcess.Length] == subProcess[..];
    }

    method SignalsArrive(signals: seq<Signal>)
      requires Valid()
      modifies this, subProcess
      ensures Valid() && P() == ReceiveAll(old(P()), signals)
    {
      hide LifeOk, Receive;
      ghost var p0 := P();
      for j := 0 to |signals|
        invariant Valid() && ReceiveAll(P(), signals[j..]) == ReceiveAll(p0, signals)
      {
        assert signals[j..][1..] == signals[j + 1..];
        match signals[j]
        case Child(waited) => Child(waited);
        case Terminate => Terminate();
        case Ignored => IgnoreSignal();
      }
    }

    lemma IgnoreSignal()
      ensures P() == Receive(P(), Ignored)
    {
    }

    /** The loop over the events, which a connection that no child can serve leaves. */
    method HandleEvents(es: seq<Event>)
      requires Valid()
      modifies this, subProcess
      ensures Valid() && P() == HandleAll(old(P()), es)
    {
      hide Dispatch, ReceiveAll, AllReaped;
      ghost var p0 := P();
      for j := 0 to |es|
        invariant Valid() && HandleAll(P(), es[j..]) == HandleAll(p0, es)
      {
        assert es[j..][1..] == es[j + 1..];
        match es[j]
        case Connection =>
          var left := Connect();
          if left {
            break;
          }
        case Signals(signals) => SignalsArrive(signals);
        case Other =>
      }
    }
  }
}
