/** A run of the machine in which the reset of the scan loses a frame. */
module ResetRuns {
  import opened Bytes
  import opened SonarStream
  import opened StreamBytes
  import opened AssemblerHistory
  import opened ResetLaws
  import opened ResetFrames
  import opened StreamLaws
  import opened Assembler

  const HALF := 80  // half the capacity of a machine for frames of 40 bytes

  lemma ZerosThenNoSync(s: seq<byte>, n: nat)
    requires n <= |s| && forall k :: 0 <= k < n ==> s[k] == 0
    ensures NoSync(s, 0, n)
  {
    forall k: nat | k < n ensures !SyncAt(s, k) {
    }
  }

  lemma {:induction false} NoFramesWithoutSync(s: seq<byte>, limit: nat, pos: nat)
    requires pos <= |s| && NoSync(s, pos, |s|)
    ensures Parse(s, limit, pos) == []
  {
    ParseSkip(s, limit, pos, |s|);
  }

  /** Too few bytes for any frame. */
  lemma {:induction false} ShortHoldsNoFrame(s: seq<byte>, limit: nat, pos: nat)
    requires |s| < MIN_FRAME
    ensures FramesOf(Parse(s, limit, pos)) == []
    decreases |s| - pos
  {
    hide BE32, BE16, FramesOf;
    if pos + HEADER_SIZE > |s| {
      NoFrames();
    } else {
      ShortHoldsNoFrame(s, limit, pos + 1);
      if SyncAt(s, pos) {
        if LengthAllowed(StatedLength(s, pos), limit) {
          NoFrames();
        } else {
          FramesOfConcat([Rejected(pos)], Parse(s, limit, pos + 1));
          RefusedIsNoFrame(pos);
        }
      }
    }
  }

  lemma NoFrames()
    ensures FramesOf([]) == []
  {
  }

  lemma RefusedIsNoFrame(pos: nat)
    ensures FramesOf([Rejected(pos)]) == []
  {
    assert [Rejected(pos)][..0] == [];
  }

  /** A machine that waits with more than half its capacity written has found a sync word. */
  lemma WaitsForSomething(a: SlidingWindowAssembler)
    requires a.Valid() && a.Quiescent() && a.writePos > a.capacity / 2
    requires |a.h.fed| >= SYNC_WORD_SIZE
    ensures !NoSync(a.h.fed, 0, |a.h.fed|)
  {
    hide BE32;
    if NoSync(a.h.fed, 0, |a.h.fed|) {
      NoFramesWithoutSync(a.h.fed, a.Limit(), 0);
      SettledNow(a.h.fed, a.Limit(), a.h.trace, a.Pos());
    }
  }

  lemma ZerosThenFrame(s: seq<byte>, f: seq<byte>)
    requires WellFormed(f, MIN_FRAME) && s == Zeros(HALF) + f
    ensures FramesOf(Parse(s, MIN_FRAME, 0)) == [f]
  {
    hide Parse, BE32, FramesOf, CleanTrace;
    ZerosThenNoSync(s, HALF);
    ParseSkip(s, MIN_FRAME, 0, HALF);
    FlattenNone([f]);
    assert [f][..0] == [] && [] + [f] == [f] && Flatten([f]) == f;
    CleanParse(Zeros(HALF), [f], MIN_FRAME);
    CleanFrames([f], HALF);
  }

  lemma HalfHoldsNoFrame(s: seq<byte>, first: byte)
    requires s == Zeros(HALF) + [first]
    ensures NoSync(s, 0, |s|) && FramesOf(Parse(s, MIN_FRAME, 0)) == []
  {
    hide Parse, BE32;
    ZerosThenNoSync(s, HALF);
    NoFramesWithoutSync(s, MIN_FRAME, 0);
  }

  method NewMachine() returns (a: SlidingWindowAssembler)
    ensures fresh(a) && fresh(a.buf) && a.Valid() && a.Quiescent() && a.maxSize == MIN_FRAME && a.Limit() == MIN_FRAME
    ensures a.writePos == 0 && a.Pos() == 0 && a.frames == [] && a.h.Taken() == [] && a.h.fed == [] && a.h.closed == []
    ensures a.stats.overruns == 0 && a.onFrame == AcceptsAll()
  {
    hide Explains, Counts, PhaseOk, Stuck, Parse, FramesOf;
    a := new SlidingWindowAssembler(MIN_FRAME, AcceptsAll());
    NothingTaken(a.h);
  }

  function AcceptsAll(): (nat, seq<byte>) -> bool {
    (k: nat, frame: seq<byte>) => true
  }

  /** Fed at once, the bytes give the frame that stands at their end. */
  method FedAtOnce(f: seq<byte>) returns (a: SlidingWindowAssembler)
    requires WellFormed(f, MIN_FRAME)
    ensures a.Valid() && a.Quiescent() && a.h.Taken() == Zeros(HALF) + f && a.frames == [f] && a.stats.overruns == 0
  {
    hide Explains, Counts, PhaseOk, Stuck, Parse, FramesOf, Flatten, Zeros;
    a := NewMachine();
    var all := Zeros(HALF) + f;
    ZerosThenFrame(all, f);
    assert [] + all == all;
    var ok := a.Feed(all);
    assert a.frames + a.Owed() == [f];
  }

  /** A first chunk of zeros and the first byte of a frame is thrown away. */
  method FeedHead(first: byte) returns (a: SlidingWindowAssembler)
    ensures fresh(a) && fresh(a.buf) && a.Valid() && a.Quiescent() && a.maxSize == MIN_FRAME && a.writePos == 0
    ensures a.h.fed == [] && a.h.Taken() == Zeros(HALF) + [first] && a.frames == [] && a.stats.overruns == 0
    ensures a.onFrame == AcceptsAll()
  {
    hide Explains, Counts, PhaseOk, Stuck, Parse, FramesOf, Flatten, NoSync, Zeros;
    a := NewMachine();
    var head := Zeros(HALF) + [first];
    HalfHoldsNoFrame(head, first);
    assert [] + head == head;
    var ok := a.Feed(head);
    assert ok && a.frames == [];
    if a.h.fed == head {
      WaitsForSomething(a);
    }
  }

  /**
   Fed in two chunks, cut behind the first byte of the frame, the same bytes give nothing: the first chunk fills
   more than half the buffer without a complete sync word, and is thrown away with that byte.
   */
  method FedInTwo(f: seq<byte>) returns (a: SlidingWindowAssembler)
    requires WellFormed(f, MIN_FRAME)
    ensures a.Valid() && a.Quiescent() && a.h.Taken() == Zeros(HALF) + f && a.frames == [] && a.stats.overruns == 0
  {
    hide Explains, Counts, PhaseOk, Stuck, Parse, FramesOf, Flatten, NoSync, Zeros, WellFormed, TraceEnd, Close;
    FrameSize(f);
    a := FeedHead(f[0]);
    var tail := f[1..];
    assert [] + tail == tail && a.Pos() == 0;
    ShortHoldsNoFrame(tail, a.Limit(), 0);
    var ok := a.Feed(tail);
    assert Zeros(HALF) + [f[0]] + tail == Zeros(HALF) + f;
  }

  /** Whole frames in front are read first, and what follows them as if from there. */
  lemma FramesThen(frames: seq<seq<byte>>, tail: seq<byte>, limit: nat)
    requires AllWellFormed(frames, limit) && frames != []
    ensures var s := Flatten(frames) + tail;
      Parse(s, limit, 0) == CleanTrace(frames, 0) + Parse(s, limit, |Flatten(frames)|)
  {
    hide Parse, Flatten, CleanTrace;
    assert [] + Flatten(frames) == Flatten(frames);
    CleanParse([], frames, limit);
    CleanFrames(frames, 0);
    SettledByParse(Flatten(frames), limit);
    assert Extend(Flatten(frames), tail) == Flatten(frames) + tail;
  }

  lemma TwoFrames(f: seq<byte>, two: seq<seq<byte>>)
    requires two == [f, f]
    ensures Flatten(two) == f + f
  {
    assert [] + [f] == [f] && [f] + [f] == two && [] + f == f;
    FlattenSnoc([f], f);
    FlattenSnoc([], f);
  }

  /** Two frames and four bytes without a sync word: a barren stream of which only the four bytes are pending. */
  lemma FourPending(f: seq<byte>, s: seq<byte>)
    requires WellFormed(f, MIN_FRAME) && s == f + f + [0, 0, 0, f[0]]
    ensures Barren(s, MIN_FRAME) && FramesOf(Parse(s, MIN_FRAME, 0)) == [f, f] && |s| == HALF + 4
  {
    hide Flatten, CleanTrace, BE32, FramesOf;
    var two := [f, f];
    TwoFrames(f, two);
    FramesThen(two, [0, 0, 0, f[0]], MIN_FRAME);
    CleanFrames(two, 0);
    assert Parse(s, MIN_FRAME, HALF) == [] && CleanTrace(two, 0) + [] == CleanTrace(two, 0);
    forall k: nat | HALF <= k < |s| ensures !SyncAt(s, k) {
      if k + SYNC_WORD_SIZE <= |s| {
        SyncBytes(s, k);
      }
    }
  }

  /** With the rest of the third frame, the same bytes hold three frames. */
  lemma ThreeFrames(f: seq<byte>, s: seq<byte>)
    requires WellFormed(f, MIN_FRAME) && s == f + f + [0, 0, 0] + f
    ensures FramesOf(Parse(s, MIN_FRAME, 0)) == [f, f, f]
  {
    hide Parse, Flatten, CleanTrace, BE32, FramesOf;
    var two := [f, f];
    TwoFrames(f, two);
    assert s == Flatten(two) + ([0, 0, 0] + f);
    FramesThen(two, [0, 0, 0] + f, MIN_FRAME);
    CleanFrames(two, 0);
    forall k: nat | HALF <= k < HALF + 3 ensures !SyncAt(s, k) {
      SyncBytes(s, k);
    }
    ParseSkip(s, MIN_FRAME, HALF, HALF + 3);
    OneFrame(f);
    CleanParse(f + f + [0, 0, 0], [f], MIN_FRAME);
    CleanFrames([f], HALF + 3);
    FramesOfConcat(CleanTrace(two, 0), CleanTrace([f], HALF + 3));
  }

  lemma OneFrame(f: seq<byte>)
    ensures Flatten([f]) == f
  {
    assert [] + [f] == [f] && [] + f == f;
    FlattenSnoc([], f);
  }

  /**
   Four pending bytes are enough: two frames have moved writing past half the buffer, nothing behind them is a complete
   sync word, and the first byte of the third frame is thrown away.  Its other bytes give nothing.
   */
  method FewPending(f: seq<byte>) returns (a: SlidingWindowAssembler)
    requires WellFormed(f, MIN_FRAME)
    ensures a.Valid() && a.Quiescent() && a.maxSize == MIN_FRAME && a.stats.overruns == 0
    ensures a.h.closed == [f + f + [0, 0, 0, f[0]]] && a.h.fed == f[1..]
    ensures a.frames == [f, f] && FramesOf(Parse(f + f + [0, 0, 0] + f, MIN_FRAME, 0)) == [f, f, f]
  {
    hide Explains, Counts, PhaseOk, Stuck, Parse, FramesOf, Flatten, NoSync, WellFormed, TraceEnd, Barren, Standing;
    FrameSize(f);
    ThreeFrames(f, f + f + [0, 0, 0] + f);
    a := NewMachine();
    var head := f + f + [0, 0, 0, f[0]];
    FourPending(f, head);
    assert [] + head == head;
    var ok := a.Feed(head);
    var tail := f[1..];
    assert [] + tail == tail && a.Pos() == 0;
    ShortHoldsNoFrame(tail, a.Limit(), 0);
    assert ok && a.frames + [] == [] + [f, f];
    ok := a.Feed(tail);
    assert a.frames == a.frames + [] == [f, f] + [] == [f, f];
  }

  lemma FrameSize(f: seq<byte>)
    requires WellFormed(f, MIN_FRAME)
    ensures |f| == MIN_FRAME
  {
  }

  lemma NothingTaken(h: History)
    requires h.closed == [] && h.fed == []
    ensures h.Taken() == []
  {
  }
}
