/**
 What throwing a stream away costs in frames.  ResetLaws compares all that is read, refused headers included; here
 only the frames count: when none is lost, which one is, and how a loss can go unnoticed.
 */
module ResetFrames {
  import opened Bytes
  import opened SonarStream
  import opened AssemblerHistory
  import opened ResetLaws

  /** The sync word that starts at i in a and ends in b, with a length field that is let through. */
  ghost predicate FrameAcross(a: seq<byte>, b: seq<byte>, limit: nat, i: nat) {
    && |a| - SYNC_WORD_SIZE < i < |a| && i + 6 <= |a + b|
    && SyncAt(a + b, i) && LengthAllowed(BE16(a + b, i + 4), limit)
  }

  ghost predicate SomeFrameAcross(a: seq<byte>, b: seq<byte>, limit: nat) {
    exists i: nat :: FrameAcross(a, b, limit, i)
  }

  /** The accepted events of a trace: which stretches of the stream are delivered. */
  function Deliveries(trace: seq<Event>): seq<Event> {
    if trace == [] then []
    else
      var rest := Deliveries(trace[..|trace| - 1]);
      if trace[|trace| - 1].Accepted? then rest + [trace[|trace| - 1]] else rest
  }

  lemma {:induction false} DeliveriesConcat(x: seq<Event>, y: seq<Event>)
    ensures Deliveries(x + y) == Deliveries(x) + Deliveries(y)
  {
    if y == [] {
      assert x + y == x;
    } else {
      DeliveriesConcat(x, y[..|y| - 1]);
      assert (x + y)[..|x + y| - 1] == x + y[..|y| - 1];
    }
  }

  lemma {:induction false} DeliveriesBehind(trace: seq<Event>, from: nat)
    requires forall k :: 0 <= k < |trace| ==> trace[k].at >= from
    ensures forall k :: 0 <= k < |Deliveries(trace)| ==> Deliveries(trace)[k].at >= from
  {
    if trace != [] {
      DeliveriesBehind(trace[..|trace| - 1], from);
    }
  }

  // ---------- Sync words do not overlap ----------

  lemma SyncBytes(s: seq<byte>, i: nat)
    requires i + SYNC_WORD_SIZE <= |s|
    ensures SyncAt(s, i) <==> s[i] == 0x53 && s[i + 1] == 0x4F && s[i + 2] == 0x4E && s[i + 3] == 0x52
  {
  }

  lemma SyncAlone(s: seq<byte>, i: nat, j: nat)
    requires SyncAt(s, i) && i < j < i + SYNC_WORD_SIZE
    ensures !SyncAt(s, j)
  {
    SyncBytes(s, i);
    if j + SYNC_WORD_SIZE <= |s| {
      SyncBytes(s, j);
    }
  }

  // ---------- When nothing is lost ----------

  /** What is read across a cut whose straddling sync word, if there is one, is refused. */
  lemma ReadAcross(a: seq<byte>, c: seq<byte>, limit: nat, p: nat) returns (refused: seq<Event>)
    requires GivenUp(a, limit, p) && !SomeFrameAcross(a, c, limit)
    ensures Parse(a + c, limit, 0) == Parse(a, limit, 0) + refused + Shift(Parse(c, limit, 0), |a|)
    ensures FramesOf(refused) == [] && Deliveries(refused) == []
  {
    hide Parse, Shift, BE16, BE32, Settled;
    refused := [];
    if !Straddles(a, c) {
      SplitIsHarmless(a, c, limit, p);
      assert Parse(a, limit, 0) + [] == Parse(a, limit, 0);
    } else {
      var i := FirstAcross(a, c, limit, p);
      var s := a + c;
      assert s == Extend(a, c);
      GivenUpWith(a, limit, p, c);
      ParseSkip(s, limit, p, i);
      NoSyncBehind(a, c, limit, p, i);
      ParseSkip(s, limit, i + 1, |a|);
      ParseShift(a, c, limit, 0);
      assert !FrameAcross(a, c, limit, i);
      assert i + HEADER_SIZE <= |s| ==> StatedLength(s, i) == BE16(s, i + 4);
      refused := RefusedAt(s, limit, i, |a|);
      var x, y := Parse(a, limit, 0), Parse(s, limit, |a|);
      assert x + (refused + y) == x + refused + y;
    }
  }

  /** The straddling sync word; from p on it is the first. */
  lemma FirstAcross(a: seq<byte>, c: seq<byte>, limit: nat, p: nat) returns (i: nat)
    requires GivenUp(a, limit, p) && Straddles(a, c)
    ensures |a| - SYNC_WORD_SIZE < i < |a| && p <= i && SyncAt(a + c, i) && NoSync(a + c, p, i)
  {
    var j :| |a| - SYNC_WORD_SIZE < j < |a| && 0 <= j && SyncAt(a + c, j);
    assert Extend(a, c) == a + c;
    i := FirstSync(a + c, p, j);
    if i + SYNC_WORD_SIZE <= |a| {
      SyncAtGrow(a, c, i);
      assert false;
    }
  }

  lemma NoSyncBehind(a: seq<byte>, c: seq<byte>, limit: nat, p: nat, i: nat)
    requires |a| - SYNC_WORD_SIZE < i < |a| && SyncAt(a + c, i)
    ensures NoSync(a + c, i + 1, |a|)
  {
    forall j | i + 1 <= j < |a| ensures !SyncAt(a + c, j) {
      SyncAlone(a + c, i, j);
    }
  }

  /** A refused sync word at i, and nothing up to `next`. */
  lemma RefusedAt(s: seq<byte>, limit: nat, i: nat, next: nat) returns (refused: seq<Event>)
    requires SyncAt(s, i) && i < next
    requires i + HEADER_SIZE <= |s| ==> !LengthAllowed(StatedLength(s, i), limit)
    requires Parse(s, limit, i + 1) == Parse(s, limit, next)
    ensures Parse(s, limit, i) == refused + Parse(s, limit, next)
    ensures FramesOf(refused) == [] && Deliveries(refused) == []
  {
    hide BE16, BE32;
    if i + HEADER_SIZE > |s| {
      refused := [];
    } else {
      refused := [Rejected(i)];
      assert [Rejected(i)][..0] == [];
    }
  }

  /** Without a frame across the cut, the frames of the two halves are the frames of the whole. */
  lemma FramesAcross(a: seq<byte>, c: seq<byte>, limit: nat, p: nat)
    requires GivenUp(a, limit, p) && !SomeFrameAcross(a, c, limit)
    ensures FramesOf(Parse(a + c, limit, 0)) == FramesOf(Parse(a, limit, 0)) + FramesOf(Parse(c, limit, 0))
    ensures Deliveries(Parse(a + c, limit, 0))
         == Deliveries(Parse(a, limit, 0)) + Deliveries(Shift(Parse(c, limit, 0), |a|))
  {
    hide Parse, Shift, Settled, GivenUp;
    var x, y := Parse(a, limit, 0), Shift(Parse(c, limit, 0), |a|);
    var refused := ReadAcross(a, c, limit, p);
    FramesOfConcat(x + refused, y);
    FramesOfConcat(x, refused);
    FramesOfShift(Parse(c, limit, 0), |a|);
    DeliveriesConcat(x + refused, y);
    DeliveriesConcat(x, refused);
  }

  /** So it is whatever follows, once five bytes behind the cut are known. */
  lemma NoFrameIsLost(a: seq<byte>, b: seq<byte>, limit: nat, p: nat, t: seq<byte>)
    requires GivenUp(a, limit, p) && |b| >= 5 && !SomeFrameAcross(a, b, limit)
    ensures FramesOf(Parse(a + Extend(b, t), limit, 0)) == FramesOf(Parse(a, limit, 0)) + FramesOf(Parse(Extend(b, t), limit, 0))
    ensures Deliveries(Parse(a + Extend(b, t), limit, 0))
         == Deliveries(Parse(a, limit, 0)) + Deliveries(Shift(Parse(Extend(b, t), limit, 0), |a|))
  {
    hide Parse, Shift, Settled, GivenUp;
    AcrossNeedsFive(a, b, limit, t);
    FramesAcross(a, Extend(b, t), limit, p);
  }

  /** Five bytes behind the cut decide whether a frame lies across it. */
  lemma AcrossNeedsFive(a: seq<byte>, b: seq<byte>, limit: nat, t: seq<byte>)
    requires |b| >= 5
    ensures SomeFrameAcross(a, Extend(b, t), limit) == SomeFrameAcross(a, b, limit)
  {
    assert a + Extend(b, t) == Extend(a + b, t);
    forall i: nat | |a| - SYNC_WORD_SIZE < i < |a|
      ensures FrameAcross(a, Extend(b, t), limit, i) == FrameAcross(a, b, limit, i)
    {
      SyncAtGrow(a + b, t, i);
      assert (a + Extend(b, t))[i + 4] == (a + b)[i + 4] && (a + Extend(b, t))[i + 5] == (a + b)[i + 5];
    }
  }

  // ---------- Which frame is lost ----------

  /** With a frame across the cut, the whole stream reads it where neither half reads anything. */
  lemma FrameIsRead(a: seq<byte>, c: seq<byte>, limit: nat, p: nat, i: nat)
    requires GivenUp(a, limit, p) && FrameAcross(a, c, limit, i)
    requires i + BE16(a + c, i + 4) <= |a + c|
    ensures var s, n := a + c, BE16(a + c, i + 4);
      Parse(s, limit, 0) == Parse(a, limit, 0) + [Accepted(i, s[i..i + n])] + Parse(s, limit, i + n)
  {
    hide Shift, BE16, BE32, Settled, Straddles;
    var s := a + c;
    assert s == Extend(a, c);
    assert Straddles(a, c) by {
      StraddlesAt(a, c, i);
    }
    var j := FirstAcross(a, c, limit, p);
    if j < i {
      SyncAlone(s, j, i);
    }
    ParseSkip(s, limit, p, i);
    GivenUpWith(a, limit, p, c);
    var n := BE16(s, i + 4);
    assert Parse(s, limit, i) == [Accepted(i, s[i..i + n])] + Parse(s, limit, i + n);
  }

  lemma StraddlesAt(a: seq<byte>, c: seq<byte>, i: nat)
    requires |a| - SYNC_WORD_SIZE < i < |a| && SyncAt(a + c, i)
    ensures Straddles(a, c)
  {
  }

  /** If no other sync word starts in it, exactly the frame across the cut is lost, and nothing else. */
  lemma FrameIsLost(a: seq<byte>, c: seq<byte>, limit: nat, p: nat, i: nat)
    requires GivenUp(a, limit, p) && FrameAcross(a, c, limit, i)
    requires var n := BE16(a + c, i + 4); i + n <= |a + c| && NoSync(a + c, i + 1, i + n)
    ensures var s, n := a + c, BE16(a + c, i + 4);
      var later := FramesOf(Parse(c, limit, i + n - |a|));
      && FramesOf(Parse(s, limit, 0)) == FramesOf(Parse(a, limit, 0)) + [s[i..i + n]] + later
      && FramesOf(Parse(c, limit, 0)) == later
  {
    hide Parse, Shift, BE16, BE32, Settled, GivenUp, FramesOf;
    var s, n := a + c, BE16(a + c, i + 4);
    var e := [Accepted(i, s[i..i + n])];
    FrameIsRead(a, c, limit, p, i);
    ParseShift(a, c, limit, i + n - |a|);
    FramesOfShift(Parse(c, limit, i + n - |a|), |a|);
    FramesOfConcat(Parse(a, limit, 0) + e, Parse(s, limit, i + n));
    FramesOfConcat(Parse(a, limit, 0), e);
    FramesOfOne(i, s[i..i + n]);
    forall k: nat | k < i + n - |a| ensures !SyncAt(c, k) {
      if k + SYNC_WORD_SIZE <= |c| {
        SameSync(a, c, k);
      }
    }
    ParseSkip(c, limit, 0, i + n - |a|);
  }

  lemma FramesOfOne(i: nat, f: seq<byte>)
    ensures FramesOf([Accepted(i, f)]) == [f]
  {
    assert [Accepted(i, f)][..0] == [];
  }

  // ---------- Exactly when ----------

  /** Which stretches of the stream are delivered does not change if and only if no frame lies across the cut. */
  lemma DeliveriesAgreeIff(a: seq<byte>, b: seq<byte>, limit: nat, p: nat)
    requires GivenUp(a, limit, p) && |b| >= 5
    ensures !SomeFrameAcross(a, b, limit) <==>
            forall t: seq<byte> {:trigger Extend(b, t)} ::
              Deliveries(Parse(a + Extend(b, t), limit, 0))
              == Deliveries(Parse(a, limit, 0)) + Deliveries(Shift(Parse(Extend(b, t), limit, 0), |a|))
  {
    hide Parse, Shift, Settled, GivenUp, BE16, BE32;
    if SomeFrameAcross(a, b, limit) {
      var i: nat :| FrameAcross(a, b, limit, i);
      var t := Zeros(TWO_16);
      var later := Shift(Parse(Extend(b, t), limit, 0), |a|);
      ShiftIsBehind(Parse(Extend(b, t), limit, 0), |a|);
      DeliveriesBehind(later, |a|);
      DeliveryMissing(a, b, limit, p, i, t, Deliveries(later));
    } else {
      forall t: seq<byte>
        ensures Deliveries(Parse(a + Extend(b, t), limit, 0))
                == Deliveries(Parse(a, limit, 0)) + Deliveries(Shift(Parse(Extend(b, t), limit, 0), |a|))
      {
        NoFrameIsLost(a, b, limit, p, t);
      }
    }
  }

  lemma AcrossGrows(a: seq<byte>, b: seq<byte>, limit: nat, i: nat, t: seq<byte>)
    requires FrameAcross(a, b, limit, i)
    ensures FrameAcross(a, Extend(b, t), limit, i)
    ensures BE16(a + Extend(b, t), i + 4) == BE16(a + b, i + 4)
  {
    SyncAtGrow(a + b, t, i);
    assert a + Extend(b, t) == Extend(a + b, t);
  }

  /** The frame across the cut is delivered of the whole stream, and of no reading that starts afresh behind the cut. */
  lemma DeliveryMissing(a: seq<byte>, b: seq<byte>, limit: nat, p: nat, i: nat, t: seq<byte>, later: seq<Event>)
    requires GivenUp(a, limit, p) && FrameAcross(a, b, limit, i) && |t| >= TWO_16
    requires later != [] ==> later[0].at >= |a|
    ensures Deliveries(Parse(a + Extend(b, t), limit, 0)) != Deliveries(Parse(a, limit, 0)) + later
  {
    hide Parse, Shift, Settled, GivenUp, BE32;
    var c := Extend(b, t);
    AcrossGrows(a, b, limit, i, t);
    var s, n := a + c, BE16(a + c, i + 4);
    FrameIsRead(a, c, limit, p, i);
    var e := Accepted(i, s[i..i + n]);
    DeliveriesConcat(Parse(a, limit, 0) + [e], Parse(s, limit, i + n));
    DeliveriesConcat(Parse(a, limit, 0), [e]);
    assert [e][..0] == [] && Deliveries([e]) == [e];
    var d := Deliveries(Parse(a, limit, 0));
    assert Deliveries(Parse(s, limit, 0))[|d|] == e;
    assert later != [] ==> (d + later)[|d|] == later[0];
  }

  lemma ShiftIsBehind(trace: seq<Event>, k: nat)
    ensures forall i :: 0 <= i < |Shift(trace, k)| ==> Shift(trace, k)[i].at >= k
  {
  }

  /** No sync word but the straddling one starts in the frame across the cut. */
  ghost predicate SoleSync(a: seq<byte>, b: seq<byte>, limit: nat) {
    forall i: nat :: FrameAcross(a, b, limit, i) ==> NoSync(a + b, i + 1, i + BE16(a + b, i + 4))
  }

  /** Then the frames themselves do not change if and only if no frame lies across the cut. */
  lemma FramesAgreeIff(a: seq<byte>, b: seq<byte>, limit: nat, p: nat)
    requires GivenUp(a, limit, p) && |b| >= 5 && SoleSync(a, b, limit)
    ensures !SomeFrameAcross(a, b, limit) <==>
            forall t: seq<byte> {:trigger Extend(b, t)} ::
              FramesOf(Parse(a + Extend(b, t), limit, 0)) == FramesOf(Parse(a, limit, 0)) + FramesOf(Parse(Extend(b, t), limit, 0))
  {
    hide Parse, Shift, Settled, GivenUp, BE16, BE32, FramesOf;
    if SomeFrameAcross(a, b, limit) {
      var i: nat :| FrameAcross(a, b, limit, i);
      var t := Zeros(TWO_16);
      var c := Extend(b, t);
      AcrossGrows(a, b, limit, i, t);
      ZerosAddNoSync(a, b, t, i + 1, i + BE16(a + b, i + 4));
      FrameIsLost(a, c, limit, p, i);
    } else {
      forall t: seq<byte>
        ensures FramesOf(Parse(a + Extend(b, t), limit, 0))
                == FramesOf(Parse(a, limit, 0)) + FramesOf(Parse(Extend(b, t), limit, 0))
      {
        NoFrameIsLost(a, b, limit, p, t);
      }
    }
  }

  lemma ZerosAddNoSync(a: seq<byte>, b: seq<byte>, t: seq<byte>, lo: nat, hi: nat)
    requires NoSync(a + b, lo, hi) && t == Zeros(TWO_16)
    ensures NoSync(a + Extend(b, t), lo, hi)
  {
    var s := a + Extend(b, t);
    assert s == Extend(a + b, t);
    forall k | lo <= k < hi ensures !SyncAt(s, k) {
      if k + SYNC_WORD_SIZE <= |a + b| {
        SyncAtGrow(a + b, t, k);
      } else if k + SYNC_WORD_SIZE <= |s| {
        SyncBytes(s, k);
        assert s[k + 3] == 0;
      }
    }
  }

  // ---------- A loss that goes unnoticed ----------

  /** A header every thirteen bytes, each for a frame of forty, so that frames hold the starts of others. */
  function Rhythm(k: nat): byte {
    if k < 4 || k > 56 then 0
    else
      var r := (k - 4) % 13;
      if r == 0 then 0x53 else if r == 1 then 0x4F else if r == 2 then 0x4E else if r == 3 then 0x52
      else if r == 5 then 40 else 0
  }

  lemma RhythmSync(s: seq<byte>, k: nat)
    requires |s| >= 58 && forall j :: 0 <= j < 58 ==> s[j] == Rhythm(j)
    requires k < 58
    ensures SyncAt(s, k) <==> k == 4 || k == 17 || k == 30 || k == 43
  {
    if k + SYNC_WORD_SIZE <= |s| {
      SyncBytes(s, k);
    }
    if k < 56 {
      assert s[k] == Rhythm(k) && s[k + 1] == Rhythm(k + 1) && s[k + 2] == Rhythm(k + 2);
      if k < 55 {
        assert s[k + 3] == Rhythm(k + 3);
      }
    } else if k == 56 {
      assert s[57] == Rhythm(57);
    }
  }

  /**
   A frame lies across the cut and is lost, but it holds other sync words.  The half behind the cut reads a frame
   from one of them, which has the same bytes, so the frames delivered are the same whatever follows.
   */
  lemma LossUnnoticed(a: seq<byte>, b: seq<byte>, limit: nat, t: seq<byte>)
    requires |a| == 5 && |b| == 53 && limit >= MIN_FRAME
    requires forall j :: 0 <= j < 58 ==> (a + b)[j] == Rhythm(j)
    ensures GivenUp(a, limit, 0) && FrameAcross(a, b, limit, 4)
    ensures FramesOf(Parse(a + Extend(b, t), limit, 0))
         == FramesOf(Parse(a, limit, 0)) + FramesOf(Parse(Extend(b, t), limit, 0))
  {
    hide Settled, Shift, Rhythm, FramesOf, Parse, BE32;
    var s, c := a + Extend(b, t), Extend(b, t);
    assert s == Extend(a + b, t);
    assert forall j :: 0 <= j < 58 ==> s[j] == Rhythm(j);
    RhythmGivenUp(a, b, limit);
    RhythmReads(s, limit, t, 4);
    RhythmReads(s, limit, t, 17);
    NoRhythm(s, 0, 4);
    ParseSkip(s, limit, 0, 4);
    NoRhythm(s, 5, 17);
    ParseSkip(s, limit, 5, 17);
    NoRhythm(s, 44, 57);
    ParseSkip(s, limit, 44, 57);
    ParseShift(a, c, limit, 0);
    FramesOfShift(Parse(c, limit, 0), |a|);
    RhythmRepeats(s);
  }

  lemma RhythmGivenUp(a: seq<byte>, b: seq<byte>, limit: nat)
    requires |a| == 5 && |b| == 53 && limit >= MIN_FRAME
    requires forall j :: 0 <= j < 58 ==> (a + b)[j] == Rhythm(j)
    ensures GivenUp(a, limit, 0) && FrameAcross(a, b, limit, 4) && FramesOf(Parse(a, limit, 0)) == []
  {
    hide BE32;
    assert (a + b)[8] == Rhythm(8) && (a + b)[9] == Rhythm(9);
    RhythmSync(a + b, 4);
    assert Parse(a, limit, 0) == [];
    forall u: seq<byte> ensures Parse(Extend(a, u), limit, 0) == [] + Parse(Extend(a, u), limit, 0) {
    }
    forall k | 0 <= k < |a| ensures !SyncAt(a, k) {
      if k + SYNC_WORD_SIZE <= |a| {
        RhythmSync(a + b, k);
        SyncAtGrow(a, b, k);
        assert Extend(a, b) == a + b;
      }
    }
  }

  lemma NoRhythm(s: seq<byte>, lo: nat, hi: nat)
    requires |s| >= 58 && forall j :: 0 <= j < 58 ==> s[j] == Rhythm(j)
    requires lo <= hi <= 58 && (hi <= 4 || (5 <= lo && hi <= 17) || 44 <= lo)
    ensures NoSync(s, lo, hi)
  {
    hide Rhythm, SyncAt;
    forall k: nat | lo <= k < hi ensures !SyncAt(s, k) {
      RhythmSync(s, k);
    }
  }

  lemma RhythmReads(s: seq<byte>, limit: nat, t: seq<byte>, k: nat)
    requires |s| >= 58 && (forall j :: 0 <= j < 58 ==> s[j] == Rhythm(j)) && limit >= MIN_FRAME
    requires k == 4 || k == 17
    ensures FramesOf(Parse(s, limit, k)) == [s[k..k + 40]] + FramesOf(Parse(s, limit, k + 40))
  {
    hide BE32, FramesOf;
    RhythmSync(s, k);
    assert s[k + 4] == Rhythm(k + 4) && s[k + 5] == Rhythm(k + 5);
    var e := [Accepted(k, s[k..k + 40])];
    assert Parse(s, limit, k) == e + Parse(s, limit, k + 40);
    FramesOfConcat(e, Parse(s, limit, k + 40));
    FramesOfOne(k, s[k..k + 40]);
  }

  lemma RhythmRepeats(s: seq<byte>)
    requires |s| >= 58 && forall j :: 0 <= j < 58 ==> s[j] == Rhythm(j)
    ensures s[4..44] == s[17..57]
  {
    forall k | 0 <= k < 40 ensures s[4..44][k] == s[17..57][k] {
      assert s[4 + k] == Rhythm(4 + k) && s[17 + k] == Rhythm(17 + k);
    }
  }
}
