/**
 The CGI reader on values: what a connection comes to, given all the bytes its client sends
 and the results of the `recv` calls.
 */
module CgiSpec {
  const BUFFER_SIZE := 1024
  const ROOM := BUFFER_SIZE - 1

  /**
   What a `recv` finds: nothing yet, an error, the end of the connection, or that so many more
   bytes have come in, of which it takes as many as it has room for.
   */
  datatype Recv = Again | Failed | Closed | Ready(count: nat)

  /** `Polling` while `process` has not returned; a request names the file and says whether it was started. */
  datatype Outcome = Polling | Dropped | Request(fileName: string, started: bool)

  function Min(a: nat, b: nat): nat {
    if a < b then a else b
  }

  predicate CrlfAt(s: string, i: nat) {
    i + 1 < |s| && s[i] == '\r' && s[i + 1] == '\n'
  }

  ghost predicate NoCrlf(s: string) {
    forall i: nat :: !CrlfAt(s, i)
  }

  /** Where the first CRLF starts, or the end. */
  function FirstCrlf(s: string): (q: nat)
    ensures q <= |s|
    ensures forall i: nat :: i < q ==> !CrlfAt(s, i)
    ensures q < |s| ==> CrlfAt(s, q)
  {
    if s == [] || CrlfAt(s, 0) then 0
    else
      assert forall i: nat :: i >= 1 ==> CrlfAt(s, i) == CrlfAt(s[1..], i - 1);
      1 + FirstCrlf(s[1..])
  }

  /** The C string that starts at the beginning of `s`. */
  function UpToNul(s: string): (r: string)
    ensures r <= s && '\0' !in r
    ensures |r| < |s| ==> s[|r|] == '\0'
  {
    if s == [] || s[0] == '\0' then [] else [s[0]] + UpToNul(s[1..])
  }

  /** How many bytes are read by `recvs`, with `idx` bytes read before and `left` to come. */
  function Reach(recvs: seq<Recv>, idx: nat, left: nat): nat
    requires idx <= ROOM
    decreases |recvs|
  {
    if recvs == [] || recvs[0].Failed? || recvs[0].Closed? then 0
    else if recvs[0].Again? then Reach(recvs[1..], idx, left)
    else if idx == ROOM then 0
    else
      var n := Min(recvs[0].count, Min(ROOM - idx, left));
      n + Reach(recvs[1..], idx + n, left - n)
  }

  /** Whether the connection gets cut off: it ends, or more comes in than the buffer holds. */
  predicate CutOff(recvs: seq<Recv>, idx: nat, left: nat)
    requires idx <= ROOM
    decreases |recvs|
  {
    if recvs == [] then false
    else if recvs[0].Failed? || recvs[0].Closed? then true
    else if recvs[0].Again? then CutOff(recvs[1..], idx, left)
    else if idx == ROOM then true
    else
      var n := Min(recvs[0].count, Min(ROOM - idx, left));
      CutOff(recvs[1..], idx + n, left - n)
  }

  /** The request is the line before the first CRLF, as a C string, if that is among the `d` bytes read. */
  function Verdict(stream: string, d: nat, cutOff: bool, access: string -> bool, forked: bool): Outcome
    requires d <= |stream|
  {
    var q := FirstCrlf(stream[..d]);
    if q < d then
      var name := UpToNul(stream[..q]);
      Request(name, access(name) && forked)
    else if cutOff then Dropped
    else Polling
  }

  /** What becomes of a connection on which the first `idx` bytes of `stream` have been read. */
  function Reference(stream: string, recvs: seq<Recv>, idx: nat, access: string -> bool, forked: bool): Outcome
    requires idx <= ROOM && idx <= |stream|
  {
    var left := |stream| - idx;
    ReachBound(recvs, idx, left);
    Verdict(stream, idx + Reach(recvs, idx, left), CutOff(recvs, idx, left), access, forked)
  }

  lemma {:induction false} ReachBound(recvs: seq<Recv>, idx: nat, left: nat)
    requires idx <= ROOM
    ensures Reach(recvs, idx, left) <= Min(ROOM - idx, left)
    decreases |recvs|
  {
    if recvs != [] && recvs[0].Again? {
      ReachBound(recvs[1..], idx, left);
    } else if recvs != [] && recvs[0].Ready? && idx < ROOM {
      var n := Min(recvs[0].count, Min(ROOM - idx, left));
      ReachBound(recvs[1..], idx + n, left - n);
    }
  }
}
