/** Any number of resets: exactly when they cost no frame. */
module ManyResets {
  import opened Bytes
  import opened SonarStream
  import opened AssemblerHistory
  import opened ResetLaws
  import opened ResetFrames

  ghost predicate AllBarren(streams: seq<seq<byte>>, limit: nat) {
    forall s :: s in streams ==> Barren(s, limit)
  }

  /** No frame lies across the end of any of the streams. */
  ghost predicate NothingAcross(streams: seq<seq<byte>>, last: seq<byte>, limit: nat) {
    forall k :: 0 < k <= |streams| ==>
      SomeFrameAcross(Flatten(streams[..k]), Flatten(streams[k..]) + last, limit) == false
  }

  lemma AcrossMoves(x: seq<byte>, a: seq<byte>, b: seq<byte>, limit: nat)
    requires SomeFrameAcross(a, b, limit)
    ensures SomeFrameAcross(x + a, b, limit)
  {
    hide BE16, BE32;
    var i: nat :| FrameAcross(a, b, limit, i);
    assert x + a + b == x + (a + b);
    SameSync(x, a + b, i);
    SameLength(x, a + b, i);
    assert FrameAcross(x + a, b, limit, |x| + i);
  }

  lemma SameLength(x: seq<byte>, s: seq<byte>, i: nat)
    requires i + 6 <= |s|
    ensures BE16(x + s, |x| + i + 4) == BE16(s, i + 4)
  {
  }

  lemma NothingAcrossRest(first: seq<byte>, rest: seq<seq<byte>>, last: seq<byte>, limit: nat)
    requires NothingAcross([first] + rest, last, limit)
    ensures NothingAcross(rest, last, limit) && !SomeFrameAcross(first, Flatten(rest) + last, limit)
  {
    hide SomeFrameAcross, Flatten;
    var streams := [first] + rest;
    FirstCut(first, rest);
    forall k | 0 < k <= |rest| ensures !SomeFrameAcross(Flatten(rest[..k]), Flatten(rest[k..]) + last, limit) {
      assert streams[..k + 1] == [first] + rest[..k] && streams[k + 1..] == rest[k..];
      FlattenCons(first, rest[..k]);
      if SomeFrameAcross(Flatten(rest[..k]), Flatten(rest[k..]) + last, limit) {
        AcrossMoves(first, Flatten(rest[..k]), Flatten(rest[k..]) + last, limit);
      }
    }
  }

  /** With no frame across any cut, the frames delivered across resets are the frames of the whole byte stream. */
  lemma {:induction false} ResetsAreHarmless(streams: seq<seq<byte>>, last: seq<byte>, limit: nat)
    requires AllBarren(streams, limit) && NothingAcross(streams, last, limit)
    ensures AllFrames(streams + [last], limit) == FramesOf(Parse(Flatten(streams) + last, limit, 0))
    decreases |streams|
  {
    hide Parse, Barren, SomeFrameAcross, FramesOf, Shift, TraceEnd, AllFrames, GivenUp;
    if streams == [] {
      assert streams + [last] == [] + [last] && Flatten(streams) + last == last;
      AllSnoc([], last, limit);
      NoStreams(limit);
    } else {
      var a, rest := streams[0], streams[1..];
      assert streams == [a] + rest && streams + [last] == [a] + (rest + [last]);
      NothingAcrossRest(a, rest, last, limit);
      ResetsAreHarmless(rest, last, limit);
      AllFramesCons(a, rest + [last], limit);
      FlattenCons(a, rest);
      var c := Flatten(rest) + last;
      assert Flatten(streams) + last == a + c;
      BarrenIsGivenUp(a, limit);
      FramesAcross(a, c, limit, TraceEnd(Parse(a, limit, 0)));
    }
  }

  // ---------- Exactly when ----------

  /** What is delivered of several streams read apart, each at its place in the bytes of all of them. */
  function DeliveriesApart(streams: seq<seq<byte>>, last: seq<byte>, limit: nat): seq<Event>
    decreases |streams|
  {
    if streams == [] then Deliveries(Parse(last, limit, 0))
    else Deliveries(Parse(streams[0], limit, 0)) + Shift(DeliveriesApart(streams[1..], last, limit), |streams[0]|)
  }

  lemma {:induction false} DeliveriesShift(trace: seq<Event>, k: nat)
    ensures Deliveries(Shift(trace, k)) == Shift(Deliveries(trace), k)
  {
    if trace != [] {
      var init := trace[..|trace| - 1];
      DeliveriesShift(init, k);
      assert Shift(trace, k)[..|trace| - 1] == Shift(init, k);
    }
  }

  lemma ShiftInjective(x: seq<Event>, y: seq<Event>, k: nat)
    requires Shift(x, k) == Shift(y, k)
    ensures x == y
  {
    forall i | 0 <= i < |x| ensures x[i] == y[i] {
      assert Shift(x, k)[i] == Shift(y, k)[i];
      assert Moved(x[i], k) == Moved(y[i], k);
    }
  }

  /** With nothing across a cut, reading apart agrees with reading at once if it does behind the cut. */
  lemma ApartFirst(a: seq<byte>, rest: seq<seq<byte>>, last: seq<byte>, limit: nat)
    requires Barren(a, limit) && !SomeFrameAcross(a, Flatten(rest) + last, limit)
    ensures Deliveries(Parse(Flatten([a] + rest) + last, limit, 0)) == DeliveriesApart([a] + rest, last, limit)
       <==> Deliveries(Parse(Flatten(rest) + last, limit, 0)) == DeliveriesApart(rest, last, limit)
  {
    hide Parse, Shift, SomeFrameAcross, Barren, GivenUp;
    var c := Flatten(rest) + last;
    FlattenCons(a, rest);
    assert Flatten([a] + rest) + last == a + c;
    BarrenIsGivenUp(a, limit);
    FramesAcross(a, c, limit, TraceEnd(Parse(a, limit, 0)));
    DeliveriesShift(Parse(c, limit, 0), |a|);
    var x, y := Deliveries(Parse(c, limit, 0)), DeliveriesApart(rest, last, limit);
    assert ([a] + rest)[1..] == rest;
    var d, sx, sy := Deliveries(Parse(a, limit, 0)), Shift(x, |a|), Shift(y, |a|);
    assert (d + sx)[|d|..] == sx && (d + sy)[|d|..] == sy;
    if sx == sy {
      ShiftInjective(x, y, |a|);
    }
  }

  lemma {:induction false} NothingMissed(streams: seq<seq<byte>>, last: seq<byte>, limit: nat)
    requires AllBarren(streams, limit) && NothingAcross(streams, last, limit)
    ensures Deliveries(Parse(Flatten(streams) + last, limit, 0)) == DeliveriesApart(streams, last, limit)
    decreases |streams|
  {
    hide Parse, Shift, SomeFrameAcross, Barren, NothingAcross;
    if streams == [] {
      assert Flatten(streams) + last == last;
    } else {
      var a, rest := streams[0], streams[1..];
      assert streams == [a] + rest;
      NothingAcrossRest(a, rest, last, limit);
      NothingMissed(rest, last, limit);
      ApartFirst(a, rest, last, limit);
    }
  }

  lemma ApartBehind(streams: seq<seq<byte>>, last: seq<byte>, limit: nat, k: nat)
    ensures var later := Shift(DeliveriesApart(streams, last, limit), k); later != [] ==> later[0].at >= k
  {
    ShiftIsBehind(DeliveriesApart(streams, last, limit), k);
  }

  /** A frame across a later cut lies across it too when the first stream is left out. */
  lemma AcrossMovesBack(x: seq<byte>, a: seq<byte>, b: seq<byte>, limit: nat)
    requires SomeFrameAcross(x + a, b, limit) && |a| >= SYNC_WORD_SIZE
    ensures SomeFrameAcross(a, b, limit)
  {
    hide BE16, BE32;
    var i: nat :| FrameAcross(x + a, b, limit, i);
    assert x + a + b == x + (a + b);
    SameSync(x, a + b, i - |x|);
    SameLength(x, a + b, i - |x|);
    assert FrameAcross(a, b, limit, i - |x|);
  }

  lemma SomethingAcrossRest(a: seq<byte>, rest: seq<seq<byte>>, last: seq<byte>, limit: nat)
    requires AllBarren(rest, limit) && !NothingAcross([a] + rest, last, limit)
    requires !SomeFrameAcross(a, Flatten(rest) + last, limit)
    ensures !NothingAcross(rest, last, limit)
  {
    hide SomeFrameAcross, Flatten, Barren;
    var streams := [a] + rest;
    var k :| 0 < k <= |streams| && SomeFrameAcross(Flatten(streams[..k]), Flatten(streams[k..]) + last, limit);
    assert streams[..k] == [a] + rest[..k - 1] && streams[k..] == rest[k - 1..];
    FirstCut(a, rest);
    if k > 1 {
      FlattenCons(a, rest[..k - 1]);
      FlattenTake(rest, k - 2);
      BarrenSize(rest[k - 2], limit);
      AcrossMovesBack(a, Flatten(rest[..k - 1]), Flatten(rest[k - 1..]) + last, limit);
    }
  }

  lemma FirstCut(first: seq<byte>, rest: seq<seq<byte>>)
    ensures var streams := [first] + rest; Flatten(streams[..1]) == first && streams[1..] == rest
  {
    var streams := [first] + rest;
    assert streams[..1] == [] + [first] && streams[1..] == rest;
    FlattenSnoc([], first);
  }

  lemma BarrenSize(s: seq<byte>, limit: nat)
    requires Barren(s, limit)
    ensures |s| >= SYNC_WORD_SIZE
  {
  }

  /** Something across a cut: of some continuation of the bytes, a frame is missed. */
  lemma {:induction false} SomethingMissed(streams: seq<seq<byte>>, last: seq<byte>, limit: nat, t: seq<byte>)
    requires AllBarren(streams, limit) && !NothingAcross(streams, last, limit) && |last| >= 5 && t == Zeros(TWO_16)
    ensures Deliveries(Parse(Flatten(streams) + Extend(last, t), limit, 0))
         != DeliveriesApart(streams, Extend(last, t), limit)
    decreases |streams|
  {
    hide Parse, Shift, SomeFrameAcross, Barren, NothingAcross, Zeros, GivenUp, FrameAcross;
    NothingAcrossNone(last, limit);
    var a, rest := streams[0], streams[1..];
    assert streams == [a] + rest;
    var c := Flatten(rest) + last;
    FlattenCons(a, rest);
    assert Flatten(streams) + Extend(last, t) == a + Extend(c, t) && Extend(c, t) == Flatten(rest) + Extend(last, t);
    if SomeFrameAcross(a, c, limit) {
      var i := TheFrameAcross(a, c, limit);
      BarrenIsGivenUp(a, limit);
      ApartBehind(rest, Extend(last, t), limit, |a|);
      DeliveryMissing(a, c, limit, TraceEnd(Parse(a, limit, 0)), i, t,
                      Shift(DeliveriesApart(rest, Extend(last, t), limit), |a|));
    } else {
      SomethingAcrossRest(a, rest, last, limit);
      SomethingMissed(rest, last, limit, t);
      AcrossNeedsFive(a, c, limit, t);
      ApartFirst(a, rest, Extend(last, t), limit);
    }
  }

  lemma NothingAcrossNone(last: seq<byte>, limit: nat)
    ensures NothingAcross([], last, limit)
  {
  }

  lemma TheFrameAcross(a: seq<byte>, b: seq<byte>, limit: nat) returns (i: nat)
    requires SomeFrameAcross(a, b, limit)
    ensures FrameAcross(a, b, limit, i)
  {
    i :| FrameAcross(a, b, limit, i);
  }

  lemma AcrossNeedsFiveEach(streams: seq<seq<byte>>, last: seq<byte>, limit: nat, t: seq<byte>)
    requires |last| >= 5 && NothingAcross(streams, last, limit)
    ensures NothingAcross(streams, Extend(last, t), limit)
  {
    hide SomeFrameAcross;
    forall k | 0 < k <= |streams|
      ensures !SomeFrameAcross(Flatten(streams[..k]), Flatten(streams[k..]) + Extend(last, t), limit)
    {
      var b := Flatten(streams[k..]) + last;
      assert Extend(b, t) == Flatten(streams[k..]) + Extend(last, t);
      AcrossNeedsFive(Flatten(streams[..k]), b, limit, t);
    }
  }

  /**
   Over any number of resets: which stretches of the bytes are delivered as frames is the same as if they were read at
   once, whatever follows, if and only if no frame lies across a cut.
   */
  lemma RunDeliveriesAgreeIff(streams: seq<seq<byte>>, last: seq<byte>, limit: nat)
    requires AllBarren(streams, limit) && |last| >= 5
    ensures NothingAcross(streams, last, limit) <==>
            forall t: seq<byte> {:trigger Extend(last, t)} ::
              Deliveries(Parse(Flatten(streams) + Extend(last, t), limit, 0))
              == DeliveriesApart(streams, Extend(last, t), limit)
  {
    hide Parse, SomeFrameAcross, Barren, NothingAcross, Deliveries, DeliveriesApart;
    if NothingAcross(streams, last, limit) {
      forall t: seq<byte>
        ensures Deliveries(Parse(Flatten(streams) + Extend(last, t), limit, 0))
                == DeliveriesApart(streams, Extend(last, t), limit)
      {
        AcrossNeedsFiveEach(streams, last, limit, t);
        NothingMissed(streams, Extend(last, t), limit);
      }
    } else {
      SomethingMissed(streams, last, limit, Zeros(TWO_16));
    }
  }
}
