/**
 What throwing a stream away costs.  The scan resets the buffer when nothing in it is a
 complete sync word and writing has gone past half of it, however few bytes are pending by
 then (Assembler.Feed says exactly when).  The first one to three bytes of a sync word may
 be among those bytes.  These lemmas say exactly when that changes what is read, refused
 headers included; ResetFrames says when it changes the frames.
 */
module ResetLaws {
  import opened Bytes
  import opened SonarStream
  import opened AssemblerHistory

  function Moved(e: Event, k: nat): Event {
    e.(at := e.at + k)
  }

  /** A trace with every position moved by k. */
  function Shift(trace: seq<Event>, k: nat): (r: seq<Event>)
    ensures |r| == |trace|
  {
    seq(|trace|, i requires 0 <= i < |trace| => Moved(trace[i], k))
  }

  lemma ShiftCons(e: Event, rest: seq<Event>, k: nat)
    ensures Shift([e] + rest, k) == [Moved(e, k)] + Shift(rest, k)
  {
  }

  lemma {:induction false} FramesOfShift(trace: seq<Event>, k: nat)
    ensures FramesOf(Shift(trace, k)) == FramesOf(trace)
  {
    if trace != [] {
      var init := trace[..|trace| - 1];
      FramesOfShift(init, k);
      assert Shift(trace, k)[..|trace| - 1] == Shift(init, k);
    }
  }

  /** Parsing does not look back: a prefix only moves the positions. */
  lemma {:induction false} ParseShift(a: seq<byte>, b: seq<byte>, limit: nat, q: nat)
    ensures Parse(a + b, limit, |a| + q) == Shift(Parse(b, limit, q), |a|)
    decreases |b| - q
  {
    hide Shift, BE16, BE32;
    var s, p := a + b, |a| + q;
    if q + HEADER_SIZE > |b| {
      ShiftNil(|a|);
    } else {
      SameHeader(a, b, q);
      var n := StatedLength(b, q);
      if !SyncAt(b, q) {
        ParseShift(a, b, limit, q + 1);
      } else if !LengthAllowed(n, limit) {
        ParseShift(a, b, limit, q + 1);
        ShiftCons(Rejected(q), Parse(b, limit, q + 1), |a|);
      } else if q + n <= |b| {
        ParseShift(a, b, limit, q + n);
        assert s[p..p + n] == b[q..q + n];
        ShiftCons(Accepted(q, b[q..q + n]), Parse(b, limit, q + n), |a|);
      } else {
        ShiftNil(|a|);
      }
    }
  }

  lemma ShiftNil(k: nat)
    ensures Shift([], k) == []
  {
  }

  lemma SameHeader(a: seq<byte>, b: seq<byte>, q: nat)
    requires q + HEADER_SIZE <= |b|
    ensures SyncAt(a + b, |a| + q) == SyncAt(b, q)
    ensures StatedLength(a + b, |a| + q) == StatedLength(b, q)
  {
    SameSync(a, b, q);
  }

  lemma SameSync(a: seq<byte>, b: seq<byte>, q: nat)
    requires q + SYNC_WORD_SIZE <= |b|
    ensures SyncAt(a + b, |a| + q) == SyncAt(b, q)
  {
  }

  lemma {:induction false} ParseStartsAfter(s: seq<byte>, limit: nat, pos: nat)
    ensures Parse(s, limit, pos) != [] ==> Parse(s, limit, pos)[0].at >= pos
    decreases |s| - pos
  {
    if pos + HEADER_SIZE <= |s| && !SyncAt(s, pos) {
      ParseStartsAfter(s, limit, pos + 1);
    }
  }

  /** a was given up at p: from there on it shows no complete sync word. */
  ghost predicate GivenUp(a: seq<byte>, limit: nat, p: nat) {
    p + SYNC_WORD_SIZE <= |a| && Settled(a, limit, Parse(a, limit, 0), p) && NoSync(a, p, |a|)
  }

  /** Some sync word starts in a and ends in b. */
  ghost predicate Straddles(a: seq<byte>, b: seq<byte>) {
    exists i :: |a| - SYNC_WORD_SIZE < i < |a| && 0 <= i && SyncAt(a + b, i)
  }

  lemma NoStraddleNoSync(a: seq<byte>, b: seq<byte>, limit: nat, p: nat)
    requires GivenUp(a, limit, p) && !Straddles(a, b)
    ensures NoSync(a + b, p, |a|)
  {
    forall i | p <= i < |a| ensures !SyncAt(a + b, i) {
      if i + SYNC_WORD_SIZE <= |a| {
        SyncAtGrow(a, b, i);
        assert a + b == Extend(a, b);
      }
    }
  }

  /** Without a straddling sync word the two halves may be read apart. */
  lemma SplitIsHarmless(a: seq<byte>, b: seq<byte>, limit: nat, p: nat)
    requires GivenUp(a, limit, p) && !Straddles(a, b)
    ensures Parse(a + b, limit, 0) == Parse(a, limit, 0) + Shift(Parse(b, limit, 0), |a|)
  {
    NoStraddleNoSync(a, b, limit, p);
    assert Extend(a, b) == a + b;
    ParseSkip(a + b, limit, p, |a|);
    ParseShift(a, b, limit, 0);
  }

  /** The first sync word of s in [p, q), when there is one. */
  lemma {:induction false} FirstSync(s: seq<byte>, p: nat, q: nat) returns (m: nat)
    requires p <= q && SyncAt(s, q)
    ensures p <= m <= q && SyncAt(s, m) && NoSync(s, p, m)
    decreases q - p
  {
    if SyncAt(s, p) || p == q {
      m := p;
    } else {
      m := FirstSync(s, p + 1, q);
      assert NoSync(s, p, m);
    }
  }

  function Zeros(n: nat): (r: seq<byte>)
    ensures |r| == n && forall k :: 0 <= k < n ==> r[k] == 0
  {
    seq(n, _ => 0)
  }

  /** A straddling sync word is read by the whole stream and by neither half. */
  lemma SplitLosesSync(a: seq<byte>, b: seq<byte>, limit: nat, p: nat, t: seq<byte>)
    requires GivenUp(a, limit, p) && Straddles(a, b)
    requires |b| >= SYNC_WORD_SIZE - 1 && t == Zeros(TWO_16)
    ensures Parse(a + b + t, limit, 0) != Parse(a, limit, 0) + Shift(Parse(b + t, limit, 0), |a|)
  {
    var i :| |a| - SYNC_WORD_SIZE < i < |a| && 0 <= i && SyncAt(a + b, i);
    var s := a + b + t;
    assert s == Extend(a + b, t) && s == Extend(a, b + t) && s == a + (b + t);
    SyncAtGrow(a + b, t, i);
    var m := FirstSync(s, p, i);
    ParseSkip(s, limit, p, m);
    var tail := Parse(s, limit, m);
    assert tail != [] && tail[0].at == m;
    assert Parse(s, limit, 0)[|Parse(a, limit, 0)|] == tail[0];
    var rest := Parse(b + t, limit, 0);
    assert rest != [] ==> Shift(rest, |a|)[0].at >= |a|;
  }

  /** Giving up a stream changes nothing that follows exactly when no sync word straddles the cut. */
  lemma SplitHarmlessIff(a: seq<byte>, b: seq<byte>, limit: nat, p: nat)
    requires GivenUp(a, limit, p) && |b| >= SYNC_WORD_SIZE - 1
    ensures !Straddles(a, b) <==>
            forall t: seq<byte> {:trigger Extend(b, t)} ::
              Parse(a + Extend(b, t), limit, 0) == Parse(a, limit, 0) + Shift(Parse(Extend(b, t), limit, 0), |a|)
  {
    if Straddles(a, b) {
      var t := Zeros(TWO_16);
      SplitLosesSync(a, b, limit, p, t);
      assert a + Extend(b, t) == a + b + t && Extend(b, t) == b + t;
    } else {
      forall t: seq<byte>
        ensures Parse(a + Extend(b, t), limit, 0) == Parse(a, limit, 0) + Shift(Parse(Extend(b, t), limit, 0), |a|)
      {
        StraddleNeedsThree(a, b, t);
        SplitIsHarmless(a, Extend(b, t), limit, p);
      }
    }
  }

  /** Three bytes after the cut decide whether a sync word straddles it. */
  lemma StraddleNeedsThree(a: seq<byte>, b: seq<byte>, t: seq<byte>)
    requires |b| >= SYNC_WORD_SIZE - 1
    ensures Straddles(a, Extend(b, t)) == Straddles(a, b)
  {
    assert a + Extend(b, t) == Extend(a + b, t);
    forall i | 0 <= i && |a| - SYNC_WORD_SIZE < i < |a| ensures SyncAt(a + Extend(b, t), i) == SyncAt(a + b, i) {
      SyncAtGrow(a + b, t, i);
    }
  }

  /** A barren stream is given up behind its last event. */
  lemma BarrenIsGivenUp(s: seq<byte>, limit: nat)
    requires Barren(s, limit)
    ensures GivenUp(s, limit, TraceEnd(Parse(s, limit, 0)))
  {
    SettledByParse(s, limit);
  }

  lemma GivenUpWith(b: seq<byte>, limit: nat, q: nat, t: seq<byte>)
    requires GivenUp(b, limit, q)
    ensures |b| >= SYNC_WORD_SIZE
    ensures Parse(Extend(b, t), limit, 0) == Parse(b, limit, 0) + Parse(Extend(b, t), limit, q)
  {
  }
}
