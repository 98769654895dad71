/** What becomes of the frames a handler error leaves behind. */
module HandlerErrors {
  import opened Bytes
  import opened SonarStream
  import opened AssemblerHistory
  import opened StreamLaws
  import opened Assembler

  /** Every frame delivered so far, and every one the pending bytes and the given ones complete. */
  ghost function Due(a: SlidingWindowAssembler, data: seq<byte>): seq<seq<byte>>
    requires a.Valid()
    reads a, a.buf
  {
    a.frames + FramesOf(Parse(a.h.fed + data, a.Limit(), a.Pos()))
  }

  /**
   A feed from any reachable state, also one that a handler error left with complete frames pending.  If the handler
   accepts the frames left behind, they are delivered if and only if the bytes fit behind them; if it accepts all that
   is due, all of that is.
   */
  method FeedOn(a: SlidingWindowAssembler, data: seq<byte>) returns (ok: bool)
    requires a.Valid() && data != []
    modifies a, a.buf
    ensures a.Valid() && old(a.frames) <= a.frames
    ensures old(a.frames) + old(a.Owed()) <= old(Due(a, data))
    ensures old(a.EndAfter(|data|)) > a.capacity ==> ok && a.frames == old(a.frames) && a.Owed() == []
    ensures old(a.EndAfter(|data|)) <= a.capacity && Handles(a.onFrame, old(Due(a, data)), |old(a.frames)|) ==>
      ok && a.frames == old(Due(a, data)) && a.Owed() == []
    ensures Handles(a.onFrame, old(a.frames + a.Owed()), |old(a.frames)|) && old(a.Owed()) != [] ==>
      (old(a.frames) + old(a.Owed()) <= a.frames <==> old(a.EndAfter(|data|)) <= a.capacity)
  {
    hide Explains, Counts, PhaseOk, Stuck, Parse, FramesOf;
    ghost var due, was, owed := Due(a, data), a.frames, a.Owed();
    OwedIsDue(a, data);
    ok := a.Feed(data);
    assert a.frames + a.Owed() == due ==> a.frames <= due;
    if old(a.EndAfter(|data|)) <= a.capacity && !ok && |a.frames| <= |was + owed| {
      assert a.frames[|a.frames| - 1] == (was + owed)[|a.frames| - 1];
    }
  }

  lemma OwedIsDue(a: SlidingWindowAssembler, data: seq<byte>)
    requires a.Valid()
    ensures a.frames + a.Owed() <= Due(a, data)
  {
    hide Explains, Counts, PhaseOk, Parse, FramesOf;
    ParseGrows(a.h.fed, data, a.Limit(), a.Pos());
    assert Extend(a.h.fed, data) == a.h.fed + data;
    FramesOfPrefix(Parse(a.h.fed, a.Limit(), a.Pos()), Parse(a.h.fed + data, a.Limit(), a.Pos()));
  }

  /** The first frames of a clean stream have a trace of their own length. */
  lemma CleanTraceTaken(frames: seq<seq<byte>>, trace: seq<Event>)
    requires trace <= CleanTrace(frames, 0)
    ensures FramesOf(trace) == frames[..|trace|] && TraceEnd(trace) == |Flatten(frames[..|trace|])|
  {
    hide TraceEnd;
    var j := |trace|;
    CleanPrefix(frames, j);
    CleanAppend(frames[..j], frames[j..], 0);
    assert frames[..j] + frames[j..] == frames;
    assert trace == CleanTrace(frames[..j], 0);
    CleanFrames(frames[..j], 0);
  }

  /** A machine that failed on the first of four frames stands behind that frame. */
  lemma StandsBehindFirst(h: History, pos: nat, delivered: seq<seq<byte>>, f: seq<byte>, four: seq<seq<byte>>)
    requires WellFormed(f, MIN_FRAME) && four == [f, f, f, f] && h.fed == Flatten(four)
    requires Explains(h, MIN_FRAME, pos, delivered) && delivered == [f] && h.earlier == 0
    ensures TraceEnd(h.trace) == |f|
  {
    hide Parse, TraceEnd, Settled, CleanTrace;
    SettledNow(h.fed, MIN_FRAME, h.trace, pos);
    assert [] + Flatten(four) == h.fed;
    CleanParse([], four, MIN_FRAME);
    assert h.trace <= CleanTrace(four, 0);
    CleanTraceTaken(four, h.trace);
    assert |four[..|h.trace|]| == 1;
    assert four[..|h.trace|] == [] + [f];
    FlattenSnoc([], f);
  }

  lemma FourIsFlat(f: seq<byte>, four: seq<seq<byte>>)
    requires four == [f, f, f, f]
    ensures f + f + f + f == Flatten(four)
  {
    hide Flatten;
    assert [] + [f] == [f] && [f] + [f] == [f, f] && [f, f] + [f] == [f, f, f] && [f, f, f] + [f] == four;
    FlattenNone([f]);
    assert [f][..0] == [];
    FlattenSnoc([], f);
    FlattenSnoc([f], f);
    FlattenSnoc([f, f], f);
    FlattenSnoc([f, f, f], f);
    assert [] + f == f;
  }

  lemma FourFrames(f: seq<byte>, four: seq<seq<byte>>)
    requires WellFormed(f, MIN_FRAME) && four == [f, f, f, f]
    ensures FramesOf(Parse(Flatten(four), MIN_FRAME, 0)) == four && |Flatten(four)| == 4 * MIN_FRAME
  {
    hide Parse, Flatten, CleanTrace, FramesOf;
    assert [] + Flatten(four) == Flatten(four);
    CleanParse([], four, MIN_FRAME);
    CleanFrames(four, 0);
    FourIsFlat(f, four);
  }

  /** A handler that fails on the first frame stops the delivery there. */
  lemma StopsAtFirst(handler: (nat, seq<byte>) -> bool, delivered: seq<seq<byte>>, owed: seq<seq<byte>>,
                     all: seq<seq<byte>>, ok: bool)
    requires all != [] && delivered + owed == all && !handler(0, all[0])
    requires ok ==> owed == [] && Handles(handler, delivered, 0)
    requires !ok ==> delivered != [] && Handles(handler, delivered[..|delivered| - 1], 0)
    ensures !ok && delivered == all[..1] && owed == all[1..]
  {
    assert delivered != [] ==> delivered[0] == all[0];
  }

  /**
   A machine for frames of 40 bytes is fed four of them at once, and the handler fails on the first.  Three complete
   frames stay behind; the next 40 bytes do not fit behind them, and all three are lost.
   */
  method OwedFramesAreLost(f: seq<byte>) returns (a: SlidingWindowAssembler, ghost owed: seq<seq<byte>>)
    requires WellFormed(f, MIN_FRAME)
    ensures a.Valid() && owed == [f, f, f]
    ensures a.h.closed == [f + f + f + f] && !a.onFrame(0, f)
    ensures a.frames == [f] && a.Owed() == [] && a.stats.overruns == 1
  {
    hide Explains, Counts, PhaseOk, Stuck, Parse, FramesOf, Flatten;
    ghost var four := [f, f, f, f];
    FourFrames(f, four);
    a := new SlidingWindowAssembler(MIN_FRAME, (k, frame) => k != 0);
    var chunk := f + f + f + f;
    assert chunk == Flatten(four) by {
      FourIsFlat(f, four);
    }
    assert [] + chunk == chunk && a.Limit() == MIN_FRAME && a.Pos() == 0;
    ghost var none := a.frames;
    assert none + four == four;
    var ok := a.Feed(chunk);
    assert a.frames + a.Owed() == four;
    StopsAtFirst(a.onFrame, a.frames, a.Owed(), four, ok);
    assert a.frames == four[..1];
    owed := a.Owed();
    assert owed == four[1..];
    StandsBehindFirst(a.h, a.Pos(), a.frames, f, four);
    ok := a.Feed(f);
  }
}
