/** The request does not depend on how the bytes were split among the `recv` calls. */
module CgiTheorems {
  import opened CgiSpec

  /** All bytes announced before the connection fails or ends. */
  function Total(recvs: seq<Recv>): nat {
    if recvs == [] || recvs[0].Failed? || recvs[0].Closed? then 0
    else (if recvs[0].Ready? then recvs[0].count else 0) + Total(recvs[1..])
  }

  /** Only the total counts: neither the split into chunks nor the empty polls in between do. */
  lemma {:induction false} ReachIsTotal(recvs: seq<Recv>, idx: nat, left: nat)
    requires idx <= ROOM
    ensures Reach(recvs, idx, left) == Min(Total(recvs), Min(ROOM - idx, left))
    decreases |recvs|
  {
    if recvs != [] && recvs[0].Again? {
      ReachIsTotal(recvs[1..], idx, left);
    } else if recvs != [] && recvs[0].Ready? && idx < ROOM {
      var n := Min(recvs[0].count, Min(ROOM - idx, left));
      ReachIsTotal(recvs[1..], idx + n, left - n);
    }
  }

  lemma FirstCrlfIs(s: string, q: nat)
    requires q <= |s| && (forall i: nat :: i < q ==> !CrlfAt(s, i)) && (q < |s| ==> CrlfAt(s, q))
    ensures FirstCrlf(s) == q
  {
  }

  /** A CRLF that lies within the first `d` bytes is the first of these if it is the first of all. */
  lemma {:induction false} FirstCrlfOfPrefix(s: string, d: nat)
    requires d <= |s|
    ensures var q := FirstCrlf(s);
            FirstCrlf(s[..d]) == if q < |s| && q + 2 <= d then q else d
  {
    var q, p := FirstCrlf(s), s[..d];
    forall i: nat ensures CrlfAt(p, i) == (i + 2 <= d && CrlfAt(s, i)) {
    }
    FirstCrlfIs(p, if q < |s| && q + 2 <= d then q else d);
  }

  // ----- One result of `recv` -----

  lemma StepReads(stream: string, recvs: seq<Recv>, idx: nat, n: nat, access: string -> bool, forked: bool)
    requires idx <= ROOM && idx <= |stream| && recvs != []
    requires recvs[0].Again? ==> n == 0
    requires recvs[0].Ready? ==> idx < ROOM && n == Min(recvs[0].count, Min(ROOM - idx, |stream| - idx))
    requires !recvs[0].Failed? && !recvs[0].Closed?
    ensures Reference(stream, recvs, idx, access, forked) == Reference(stream, recvs[1..], idx + n, access, forked)
  {
    hide Verdict, Reach, CutOff;
    ReachBound(recvs, idx, |stream| - idx);
    ReachBound(recvs[1..], idx + n, |stream| - idx - n);
    ReachStep(recvs, idx, |stream| - idx, n);
  }

  lemma ReachStep(recvs: seq<Recv>, idx: nat, left: nat, n: nat)
    requires idx + n <= ROOM && n <= left && recvs != [] && !recvs[0].Failed? && !recvs[0].Closed?
    requires recvs[0].Again? ==> n == 0
    requires recvs[0].Ready? ==> idx < ROOM && n == Min(recvs[0].count, Min(ROOM - idx, left))
    ensures Reach(recvs, idx, left) == n + Reach(recvs[1..], idx + n, left - n)
    ensures CutOff(recvs, idx, left) == CutOff(recvs[1..], idx + n, left - n)
  {
  }

  lemma StepEnds(stream: string, recvs: seq<Recv>, idx: nat, access: string -> bool, forked: bool)
    requires idx <= ROOM && idx <= |stream| && recvs != [] && NoCrlf(stream[..idx])
    requires recvs[0].Failed? || recvs[0].Closed? || (recvs[0].Ready? && idx == ROOM)
    ensures Reference(stream, recvs, idx, access, forked) == Dropped
  {
  }

  lemma StepFinds(stream: string, recvs: seq<Recv>, idx: nat, access: string -> bool, forked: bool)
    requires idx <= ROOM && idx <= |stream| && FirstCrlf(stream[..idx]) < idx
    ensures var name := UpToNul(stream[..FirstCrlf(stream[..idx])]);
            Reference(stream, recvs, idx, access, forked) == Request(name, access(name) && forked)
  {
    hide Reach, CutOff, UpToNul;
    var q, d := FirstCrlf(stream[..idx]), idx + Reach(recvs, idx, |stream| - idx);
    ReachBound(recvs, idx, |stream| - idx);
    assert stream[..d][..idx] == stream[..idx];
    FirstCrlfOfPrefix(stream[..d], idx);
    assert stream[..d][..q] == stream[..q] == stream[..idx][..q];
  }

  lemma NothingMore(stream: string, idx: nat, access: string -> bool, forked: bool)
    requires idx <= ROOM && idx <= |stream| && NoCrlf(stream[..idx])
    ensures Reference(stream, [], idx, access, forked) == Polling
  {
  }

  // ----- Main results -----

  /**
   The request is extracted exactly if the first CRLF of the stream lies within the first
   1023 bytes and has come in, and then it is the line before it.
   */
  lemma ExtractsExactly(stream: string, recvs: seq<Recv>, access: string -> bool, forked: bool)
    ensures var q := FirstCrlf(stream);
            var r := Reference(stream, recvs, 0, access, forked);
            && (r.Request? <==> q < |stream| && q + 2 <= 1023 && q + 2 <= Total(recvs))
            && (r.Request? ==> r.fileName == UpToNul(stream[..q]) && r.started == (access(r.fileName) && forked))
  {
    var d := Reach(recvs, 0, |stream|);
    ReachIsTotal(recvs, 0, |stream|);
    FirstCrlfOfPrefix(stream, d);
    var q := FirstCrlf(stream);
    assert q + 2 <= d ==> stream[..d][..q] == stream[..q];
  }

  /** Two ways to split one stream lead to the same request, once both have brought its CRLF. */
  lemma ChunkingDoesNotMatter(stream: string, recvs: seq<Recv>, recvs': seq<Recv>, access: string -> bool, forked: bool)
    requires var q := FirstCrlf(stream);
             q < |stream| ==> (q + 2 <= Total(recvs) <==> q + 2 <= Total(recvs'))
    ensures var r, r' := Reference(stream, recvs, 0, access, forked), Reference(stream, recvs', 0, access, forked);
            r.Request? == r'.Request? && (r.Request? ==> r == r')
  {
    ExtractsExactly(stream, recvs, access, forked);
    ExtractsExactly(stream, recvs', access, forked);
  }

  /** The file name is the request line itself exactly if the line has no NUL in it. */
  lemma NameIsLine(line: string)
    ensures UpToNul(line) == line <==> '\0' !in line
  {
  }

  /** A NUL written behind the line makes the buffer the C string of the line. */
  lemma {:induction false} NulEnds(s: string, k: nat)
    requires k < |s| && s[k] == '\0'
    ensures UpToNul(s) == UpToNul(s[..k])
  {
    if k > 0 && s[0] != '\0' {
      NulEnds(s[1..], k - 1);
      assert s[1..][..k - 1] == s[..k][1..];
    }
  }

  /** Result `k` ends the connection, or finds the buffer full. */
  ghost predicate Ends(recvs: seq<Recv>, k: nat, idx: nat, left: nat)
    requires k < |recvs| && idx <= ROOM
  {
    || recvs[k].Failed? || recvs[k].Closed?
    || (recvs[k].Ready? && Min(Total(recvs[..k]), left) >= ROOM - idx)
  }

  ghost predicate SomeEnds(recvs: seq<Recv>, idx: nat, left: nat)
    requires idx <= ROOM
  {
    exists k :: 0 <= k < |recvs| && Ends(recvs, k, idx, left)
  }

  /** How much the first result brings, if it does not end the connection. */
  function Brings(recv: Recv, idx: nat, left: nat): nat
    requires idx <= ROOM
  {
    if recv.Ready? then Min(recv.count, Min(ROOM - idx, left)) else 0
  }

  lemma EndsLater(recvs: seq<Recv>, k: nat, idx: nat, left: nat)
    requires idx <= ROOM && k + 1 < |recvs| && !Ends(recvs, 0, idx, left)
    ensures var n := Brings(recvs[0], idx, left);
            Ends(recvs, k + 1, idx, left) == Ends(recvs[1..], k, idx + n, left - n)
  {
    assert recvs[..k + 1][1..] == recvs[1..][..k];
  }

  lemma SomeEndsLater(recvs: seq<Recv>, idx: nat, left: nat)
    requires idx <= ROOM && recvs != [] && !Ends(recvs, 0, idx, left)
    ensures var n := Brings(recvs[0], idx, left);
            SomeEnds(recvs, idx, left) <==> SomeEnds(recvs[1..], idx + n, left - n)
  {
    hide Ends;
    var n, rest := Brings(recvs[0], idx, left), recvs[1..];
    if SomeEnds(recvs, idx, left) {
      var k :| 0 <= k < |recvs| && Ends(recvs, k, idx, left);
      EndsLater(recvs, k - 1, idx, left);
      assert Ends(rest, k - 1, idx + n, left - n);
    }
    if SomeEnds(rest, idx + n, left - n) {
      var k :| 0 <= k < |rest| && Ends(rest, k, idx + n, left - n);
      EndsLater(recvs, k, idx, left);
      assert Ends(recvs, k + 1, idx, left);
    }
  }

  lemma {:induction false} CutOffExactly(recvs: seq<Recv>, idx: nat, left: nat)
    requires idx <= ROOM
    ensures CutOff(recvs, idx, left) <==> SomeEnds(recvs, idx, left)
    decreases |recvs|
  {
    if recvs != [] {
      if Ends(recvs, 0, idx, left) {
        assert SomeEnds(recvs, idx, left);
        FullAtOnce(recvs, idx, left);
      } else {
        var n := Brings(recvs[0], idx, left);
        SomeEndsLater(recvs, idx, left);
        CutOffExactly(recvs[1..], idx + n, left - n);
      }
    }
  }

  lemma FullAtOnce(recvs: seq<Recv>, idx: nat, left: nat)
    requires idx <= ROOM && recvs != [] && Ends(recvs, 0, idx, left)
    ensures CutOff(recvs, idx, left)
  {
  }

  /**
   Apart from a request the connection is dropped exactly if some `recv` fails, finds it closed,
   or finds the buffer full; otherwise it is polled on.
   */
  lemma DropsExactly(stream: string, recvs: seq<Recv>, access: string -> bool, forked: bool)
    ensures var r := Reference(stream, recvs, 0, access, forked);
            !r.Request? ==> r == if SomeEnds(recvs, 0, |stream|) then Dropped else Polling
  {
    CutOffExactly(recvs, 0, |stream|);
  }

  /** A line too long for the buffer is dropped with the next result of `recv`, whatever that is. */
  lemma LongLineIsDropped(stream: string, recvs: seq<Recv>, last: Recv, access: string -> bool, forked: bool)
    requires |stream| >= 1023 && NoCrlf(stream[..1023]) && Total(recvs) >= 1023 && !last.Again?
    ensures Reference(stream, recvs + [last], 0, access, forked) == Dropped
  {
    assert (recvs + [last])[..|recvs|] == recvs;
    assert Ends(recvs + [last], |recvs|, 0, |stream|);
    DropsExactly(stream, recvs + [last], access, forked);
    ExtractsExactly(stream, recvs + [last], access, forked);
    FirstCrlfOfPrefix(stream, ROOM);
    FirstCrlfIs(stream[..ROOM], ROOM);
  }
}
