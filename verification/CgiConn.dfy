/** A CGI connection: its buffer, and `process`, which fills and scans it. */
module CgiConns {
  import opened CgiSpec
  import opened CgiTheorems

  class CgiConn {
    const buf: array<char>
    var readIdx: nat
    var registered: bool

    /** The buffer holds a prefix of the stream and, behind it, at least one zero and nothing else. */
    ghost predicate Holds(stream: string)
      reads this, buf
    {
      && buf.Length == BUFFER_SIZE && readIdx <= ROOM && readIdx <= |stream|
      && readIdx < BUFFER_SIZE && buf[readIdx] == '\0'
      && buf[..readIdx] == stream[..readIdx]
      && (forall j :: readIdx <= j < BUFFER_SIZE ==> buf[j] == '\0')
    }

    constructor ()
      ensures fresh(buf) && buf.Length == BUFFER_SIZE
    {
      buf := new char[BUFFER_SIZE];
      readIdx, registered := 0, false;
    }

    method Init()
      requires buf.Length == BUFFER_SIZE
      modifies this, buf
      ensures readIdx == 0 && registered && forall stream :: Holds(stream)
    {
      for j := 0 to BUFFER_SIZE
        invariant forall k :: 0 <= k < j ==> buf[k] == '\0'
      {
        buf[j] := '\0';
      }
      readIdx, registered := 0, true;
    }

    /** `removefd`. */
    method RemoveFd()
      modifies `registered
      ensures !registered
    {
      registered := false;
    }

    /**
     `recv` into the rest of the buffer; with no room left it returns 0.  `again` is set if it
     fails for lack of data.
     */
    method Receive(stream: string, recv: Recv) returns (ret: int, again: bool)
      requires Holds(stream)
      modifies buf
      ensures buf[..readIdx] == stream[..readIdx]
      ensures ret > 0 ==>
                && recv.Ready? && readIdx < ROOM && ret == Min(recv.count, Min(ROOM - readIdx, |stream| - readIdx))
                && buf[..readIdx + ret] == stream[..readIdx + ret]
                && readIdx + ret < BUFFER_SIZE && buf[readIdx + ret] == '\0'
                && (forall j :: readIdx + ret <= j < BUFFER_SIZE ==> buf[j] == '\0')
      ensures ret <= 0 ==> Holds(stream)
      ensures ret == 0 <==> recv.Closed? || (recv.Ready? && readIdx == ROOM)
      ensures ret < 0 ==> again == !recv.Failed?
      ensures ret < 0 && recv.Ready? ==> Min(recv.count, Min(ROOM - readIdx, |stream| - readIdx)) == 0
    {
      ret, again := -1, recv.Again?;
      match recv
      case Again =>
      case Failed =>
      case Closed => ret := 0;
      case Ready(count) =>
        if readIdx == ROOM {
          ret := 0;
          return;
        }
        var n := Min(count, Min(ROOM - readIdx, |stream| - readIdx));
        if n == 0 {
          again := true;
          return;
        }
        ret := n;
        for j := 0 to n
          invariant buf[..readIdx + j] == stream[..readIdx + j]
          invariant forall k :: readIdx + j <= k < BUFFER_SIZE ==> buf[k] == '\0'
        {
          buf[readIdx + j] := stream[readIdx + j];
        }
    }

    /** The scan for a CRLF, from the first new byte on. */
    method Scan(from: nat) returns (idx: nat)
      requires from <= readIdx <= buf.Length
      requires NoCrlf(buf[..from])
      ensures idx <= readIdx
      ensures idx < readIdx ==> 1 <= idx && FirstCrlf(buf[..readIdx]) == idx - 1
      ensures idx == readIdx ==> NoCrlf(buf[..readIdx])
    {
      ghost var s := buf[..readIdx];
      assert forall k: nat :: k + 1 < from ==> CrlfAt(s, k) == CrlfAt(buf[..from], k);
      idx := from;
      while idx < readIdx
        invariant from <= idx <= readIdx
        invariant forall k: nat :: k + 1 < idx ==> !CrlfAt(s, k)
      {
        if idx >= 1 && buf[idx - 1] == '\r' && buf[idx] == '\n' {
          FirstCrlfIs(s, idx - 1);
          break;
        }
        assert idx >= 1 ==> !CrlfAt(s, idx - 1);
        idx := idx + 1;
      }
    }

    /** What `process` does once the CRLF before `idx` is there. */
    method Serve(stream: string, idx: nat, access: string -> bool, forked: bool) returns (outcome: Outcome)
      requires Holds(stream) && 1 <= idx < readIdx && FirstCrlf(stream[..readIdx]) == idx - 1
      modifies buf, `registered
      ensures !registered
      ensures var name := UpToNul(stream[..idx - 1]); outcome == Request(name, access(name) && forked)
    {
      buf[idx - 1] := '\0';
      NulEnds(buf[..], idx - 1);
      assert buf[..][..idx - 1] == stream[..idx - 1];
      var fileName := UpToNul(buf[..]);
      if !access(fileName) {
        RemoveFd();
        return Request(fileName, false);
      }
      RemoveFd();
      return Request(fileName, forked);
    }

    /**
     `process`, on the results of its `recv` calls; it is still polling when these are used up.
     `access` says whether there is such a file, `forked` whether `fork` succeeds.
     */
    method Process(stream: string, recvs: seq<Recv>, access: string -> bool, forked: bool) returns (outcome: Outcome)
      requires Holds(stream) && NoCrlf(stream[..readIdx]) && registered
      modifies this, buf
      ensures outcome == Reference(stream, recvs, old(readIdx), access, forked)
      ensures registered == outcome.Polling?
      ensures outcome.Polling? ==> Holds(stream) && NoCrlf(stream[..readIdx])
    {
      hide Reference, FirstCrlf, UpToNul, NoCrlf, Reach, CutOff;
      ghost var start := readIdx;
      for i := 0 to |recvs|
        invariant Holds(stream) && NoCrlf(stream[..readIdx]) && registered
        invariant Reference(stream, recvs[i..], readIdx, access, forked) ==
                  Reference(stream, recvs, start, access, forked)
      {
        ghost var rest := recvs[i..];
        assert rest[0] == recvs[i] && rest[1..] == recvs[i + 1..];
        var idx := readIdx;
        var ret, again := Receive(stream, recvs[i]);
        if ret < 0 {
          if !again {
            StepEnds(stream, rest, readIdx, access, forked);
            RemoveFd();
            return Dropped;
          }
          StepReads(stream, rest, readIdx, 0, access, forked);
        } else if ret == 0 {
          StepEnds(stream, rest, readIdx, access, forked);
          RemoveFd();
          return Dropped;
        } else {
          StepReads(stream, rest, readIdx, ret, access, forked);
          readIdx := readIdx + ret;
          idx := Scan(idx);
          if idx == readIdx {
            continue;
          }
          StepFinds(stream, rest[1..], readIdx, access, forked);
          outcome := Serve(stream, idx, access, forked);
          return;
        }
      }
      assert recvs[|recvs|..] == [];
      NothingMore(stream, readIdx, access, forked);
      return Polling;
    }
  }
}
