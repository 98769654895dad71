/** Whole runs of the assembler: every chunking, every handler. */
module AssemblerRuns {
  import opened Bytes
  import opened SonarStream
  import opened AssemblerHistory
  import opened StreamLaws
  import opened ResetLaws
  import opened ManyResets
  import opened ChunkedReading
  import opened Assembler

  ghost predicate ChunksUpTo(chunks: seq<seq<byte>>, n: nat) {
    forall k :: 0 <= k < |chunks| ==> |chunks[k]| <= n
  }

  ghost predicate NeverFails(handler: (nat, seq<byte>) -> bool) {
    forall k, f :: handler(k, f)
  }

  /** A machine that waits has delivered exactly the frames of the streams it was fed. */
  lemma DeliveredIsParsed(a: SlidingWindowAssembler)
    requires a.Valid() && a.Quiescent() && a.stats.overruns == 0
    ensures a.frames == AllFrames(a.h.closed + [a.h.fed], a.Limit())
    ensures a.stats.invalidLength == AllRejections(a.h.closed + [a.h.fed], a.Limit())
  {
    StuckIsCaughtUp(a.h, a.Limit(), a.Pos(), a.frames, a.state, a.syncScanOffset, a.expectedPayloadLen);
    AllSnoc(a.h.closed, a.h.fed, a.Limit());
    assert a.frames == a.frames[..a.h.earlier] + a.frames[a.h.earlier..];
  }

  /** With no frame across its resets, that is what one parser run over all the bytes gives. */
  lemma DeliveredIsWhole(a: SlidingWindowAssembler)
    requires a.Valid() && a.Quiescent() && a.stats.overruns == 0
    requires NothingAcross(a.h.closed, a.h.fed, a.Limit())
    ensures a.frames == FramesOf(Parse(a.h.Taken(), a.Limit(), 0))
  {
    DeliveredIsParsed(a);
    ResetsAreHarmless(a.h.closed, a.h.fed, a.Limit());
  }

  /** A waiting machine has room for any chunk of up to half its capacity. */
  lemma RoomForHalf(a: SlidingWindowAssembler, n: nat)
    requires a.Valid() && a.Quiescent() && a.maxSize >= HEADER_SIZE
    requires n <= 2 * a.maxSize
    ensures a.EndAfter(n) <= a.capacity
  {
    hide Explains, Counts, NoSync, SyncAt;
  }

  /** The machine's part of what the chunks alone determine. */
  ghost function ReadingOf(a: SlidingWindowAssembler): Reading
    reads a
  {
    Reading(a.h.closed, a.h.fed, a.writePos, a.stats.overruns)
  }

  /** The machine waits, and no handler error has made it fall behind what the chunks alone determine. */
  ghost predicate InStep(a: SlidingWindowAssembler)
    reads a, a.buf
  {
    a.Valid() && a.Quiescent() && a.frames == ReadingOf(a).Frames(a.Limit())
  }

  lemma EndIsRead(a: SlidingWindowAssembler, n: nat)
    requires a.Valid() && a.Quiescent()
    ensures ReadingOf(a).EndAfter(n, a.maxSize, a.Limit()) == a.EndAfter(n)
  {
    hide Explains, Counts, PhaseOk, NoSync, Standing, Stuck;
    a.CaughtUp();
  }

  /** What is due after one more chunk is what the chunk adds to the reading. */
  lemma DueIsRead(a: SlidingWindowAssembler, chunk: seq<byte>)
    requires InStep(a)
    ensures var limit := a.Limit();
      && a.frames[..a.h.earlier] == AllFrames(a.h.closed, limit)
      && a.frames + FramesOf(Parse(a.h.fed + chunk, limit, a.Pos())) == AllFrames(a.h.closed + [a.h.fed + chunk], limit)
  {
    hide Counts, PhaseOk, NoSync, Standing, Stuck, Parse, FramesOf, AllFrames, Settled;
    a.CaughtUp();
    AllSnoc(a.h.closed, a.h.fed, a.Limit());
    AllSnoc(a.h.closed, a.h.fed + chunk, a.Limit());
    DeliveredAndOwedGrow(a.h, a.Limit(), a.Pos(), a.frames, chunk);
    SameFront(a.frames[..a.h.earlier], AllFrames(a.h.closed, a.Limit()), FramesOf(Parse(a.h.fed, a.Limit(), 0)));
  }

  lemma SameFront<T>(x: seq<T>, y: seq<T>, z: seq<T>)
    requires x + z == y + z
    ensures x == y
  {
    assert (x + z)[..|x|] == x && (y + z)[..|y|] == y;
  }

  /** One chunk: while the handler accepts what is due, the machine does what the chunk determines. */
  method FeedChunk(a: SlidingWindowAssembler, chunk: seq<byte>) returns (ok: bool)
    requires a.Valid()
    modifies a, a.buf
    ensures a.Valid() && old(a.frames) <= a.frames
    ensures chunk == [] ==> ok && unchanged(a) && unchanged(a.buf)
    ensures NeverFails(a.onFrame) ==> ok
    ensures chunk != [] && ok ==> a.Quiescent()
    ensures a.stats.overruns >= old(a.stats.overruns)
    ensures old(a.EndAfter(|chunk|)) <= a.capacity ==> a.stats.overruns == old(a.stats.overruns)
    ensures a.stats.overruns == old(a.stats.overruns) ==> a.h.Taken() == old(a.h.Taken()) + chunk
    ensures
      && old(InStep(a))
      && Handles(a.onFrame, Next(old(ReadingOf(a)), chunk, a.maxSize, a.Limit()).Frames(a.Limit()), |old(a.frames)|)
      ==> ok && InStep(a) && ReadingOf(a) == Next(old(ReadingOf(a)), chunk, a.maxSize, a.Limit())
  {
    hide Explains, Counts, PhaseOk, Stuck, Parse, AllFrames, FramesOf, Barren, Standing, NoSync;
    ghost var next := Next(ReadingOf(a), chunk, a.maxSize, a.Limit());
    if InStep(a) {
      EndIsRead(a, |chunk|);
      DueIsRead(a, chunk);
      NextFrames(ReadingOf(a), chunk, a.maxSize, a.Limit());
    }
    ok := a.Feed(chunk);
    if old(InStep(a)) && Handles(a.onFrame, next.Frames(a.Limit()), |old(a.frames)|) && chunk != [] {
      assert a.frames + [] == a.frames;
      assert ok by {
        assert a.frames <= next.Frames(a.Limit());
      }
      assert ReadingOf(a) == next;
      assert a.frames == next.Frames(a.Limit());
    }
  }

  /** The handler accepts every frame that reading the chunks delivers, from the from-th on. */
  ghost predicate HandlesRead(handler: (nat, seq<byte>) -> bool, r: Reading, chunks: seq<seq<byte>>, maxSize: nat,
                              limit: nat, from: nat)
  {
    Handles(handler, Reads(r, chunks, maxSize, limit).Frames(limit), from)
  }

  lemma NextHandled(handler: (nat, seq<byte>) -> bool, r: Reading, chunks: seq<seq<byte>>, maxSize: nat, limit: nat,
                    from: nat, now: nat, i: nat)
    requires HandlesRead(handler, r, chunks, maxSize, limit, from) && from <= now && i < |chunks|
    ensures Handles(handler, Next(Reads(r, chunks[..i], maxSize, limit), chunks[i], maxSize, limit).Frames(limit), now)
    ensures Reads(r, chunks[..i + 1], maxSize, limit) == Next(Reads(r, chunks[..i], maxSize, limit), chunks[i], maxSize, limit)
  {
    hide Next, Reads;
    ReadsTake(r, chunks, maxSize, limit, i);
    ReadsGrow(r, chunks, maxSize, limit, i + 1);
  }

  /** The receive loop: feeds chunk after chunk and goes on when the handler fails. */
  method Receive(a: SlidingWindowAssembler, chunks: seq<seq<byte>>) returns (ok: bool)
    requires a.Valid() && a.Quiescent()
    modifies a, a.buf
    ensures a.Valid() && old(a.frames) <= a.frames
    ensures NeverFails(a.onFrame) ==> ok
    ensures ok ==> a.Quiescent()
    ensures a.stats.overruns >= old(a.stats.overruns)
    ensures a.stats.overruns == old(a.stats.overruns) ==> a.h.Taken() == old(a.h.Taken()) + Flatten(chunks)
    ensures ok && a.stats.overruns == 0 ==> a.frames == AllFrames(a.h.closed + [a.h.fed], a.Limit())
    ensures ok && a.stats.overruns == 0 && NothingAcross(a.h.closed, a.h.fed, a.Limit()) ==>
      a.frames == FramesOf(Parse(a.h.Taken(), a.Limit(), 0))
    ensures a.maxSize >= HEADER_SIZE && NeverFails(a.onFrame) && ChunksUpTo(chunks, 2 * a.maxSize) ==>
      a.stats.overruns == old(a.stats.overruns)
    ensures old(InStep(a)) && HandlesRead(a.onFrame, old(ReadingOf(a)), chunks, a.maxSize, a.Limit(), |old(a.frames)|) ==>
      ok && InStep(a) && ReadingOf(a) == Reads(old(ReadingOf(a)), chunks, a.maxSize, a.Limit())
  {
    hide Explains, Counts, PhaseOk, Stuck, NothingAcross, Parse, AllFrames, FramesOf, Next, InStep, Handles, Flatten,
         NoSync, Standing, Barren, TraceEnd, Reads;
    ghost var start := ReadingOf(a);
    ghost var along := InStep(a) && HandlesRead(a.onFrame, start, chunks, a.maxSize, a.Limit(), |a.frames|);
    ok := true;
    var i := 0;
    FlattenNone(chunks);
    ReadsNone(start, chunks, a.maxSize, a.Limit());
    assert a.h.Taken() == a.h.Taken() + [];
    while i < |chunks|
      invariant 0 <= i <= |chunks|
      invariant a.Valid() && old(a.frames) <= a.frames
      invariant NeverFails(a.onFrame) ==> ok
      invariant ok ==> a.Quiescent()
      invariant a.stats.overruns >= old(a.stats.overruns)
      invariant a.stats.overruns == old(a.stats.overruns) ==> a.h.Taken() == old(a.h.Taken()) + Flatten(chunks[..i])
      invariant a.maxSize >= HEADER_SIZE && NeverFails(a.onFrame) && ChunksUpTo(chunks, 2 * a.maxSize) ==>
        a.stats.overruns == old(a.stats.overruns)
      invariant along ==> ok && InStep(a) && ReadingOf(a) == Reads(start, chunks[..i], a.maxSize, a.Limit())
    {
      if a.maxSize >= HEADER_SIZE && ok && |chunks[i]| <= 2 * a.maxSize {
        RoomForHalf(a, |chunks[i]|);
      }
      ghost var taken := a.h.Taken();
      ghost var read := ReadingOf(a);
      if along {
        NextHandled(a.onFrame, start, chunks, a.maxSize, a.Limit(), |old(a.frames)|, |a.frames|, i);
      }
      var fine := FeedChunk(a, chunks[i]);
      if chunks[i] != [] {
        ok := fine;
      }
      FlattenTake(chunks, i);
      assert a.stats.overruns == old(a.stats.overruns) ==> a.h.Taken() == taken + chunks[i];
      i := i + 1;
    }
    assert chunks[..i] == chunks;
    if ok && a.stats.overruns == 0 {
      DeliveredIsParsed(a);
      if NothingAcross(a.h.closed, a.h.fed, a.Limit()) {
        DeliveredIsWhole(a);
      }
    }
  }

  lemma FreshInStep(a: SlidingWindowAssembler)
    requires a.Valid() && a.Quiescent() && ReadingOf(a) == NOTHING_READ && a.frames == []
    ensures InStep(a)
  {
    hide Explains, Counts, PhaseOk, Stuck, Parse;
    assert [] + [a.h.fed] == [[]];
    AllSnoc([], [], a.Limit());
    NothingInNothing(a.Limit());
    NoStreams(a.Limit());
  }

  /**
   A new machine, fed any chunks: as long as the handler accepts the frames, the chunks alone say what is delivered,
   overruns or not.  If reading them overruns nothing and leaves no frame across a reset, the chunking does not matter.
   */
  method ReceiveFresh(max: int, handler: (nat, seq<byte>) -> bool, chunks: seq<seq<byte>>)
    returns (a: SlidingWindowAssembler)
    ensures a.Valid() && a.onFrame == handler && a.maxSize == if max <= 0 then MAX_FRAME_SIZE else max
    ensures HandlesRead(handler, NOTHING_READ, chunks, a.maxSize, a.Limit(), 0) ==>
      && ReadingOf(a) == Reads(NOTHING_READ, chunks, a.maxSize, a.Limit())
      && a.frames == Reads(NOTHING_READ, chunks, a.maxSize, a.Limit()).Frames(a.Limit())
    ensures HandlesRead(handler, NOTHING_READ, chunks, a.maxSize, a.Limit(), 0) ==>
      (a.maxSize >= HEADER_SIZE && ChunksUpTo(chunks, 2 * a.maxSize) ==> a.stats.overruns == 0)
    ensures HandlesRead(handler, NOTHING_READ, chunks, a.maxSize, a.Limit(), 0) && Harmless(chunks, a.maxSize, a.Limit()) ==>
      a.frames == FramesOf(Parse(Flatten(chunks), a.Limit(), 0))
  {
    hide Explains, Counts, PhaseOk, Stuck, Parse, AllFrames, FramesOf, Reads, NothingAcross, Flatten, Barren;
    a := new SlidingWindowAssembler(max, handler);
    FreshInStep(a);
    ghost var none := ReadingOf(a);
    var ok := Receive(a, chunks);
    if a.maxSize >= HEADER_SIZE && ChunksUpTo(chunks, 2 * a.maxSize) {
      HalfNeverOverruns(NOTHING_READ, chunks, a.maxSize, a.Limit());
    }
    if Harmless(chunks, a.maxSize, a.Limit()) {
      ChunksDoNotMatter(chunks, a.maxSize, a.Limit());
    }
  }

  /** While a clean stream is being read, less than one frame is ever pending. */
  lemma CleanPending(a: SlidingWindowAssembler, frames: seq<seq<byte>>, rest: seq<byte>)
    requires a.Valid() && a.Quiescent()
    requires AllWellFormed(frames, a.Limit()) && a.h.fed + rest == Flatten(frames)
    ensures a.maxSize >= MIN_FRAME ==> a.Available() < a.maxSize
  {
    hide Counts, Parse, BE32, BE16, AllWellFormed, Flatten, Settled;
    if a.state == WaitSync && a.Available() >= SYNC_WORD_SIZE {
      CleanNeverBarren(a.h.fed, rest, frames, a.Limit(), a.h.trace, a.Pos());
    }
  }

  /** A clean stream is never given up. */
  lemma CleanNotBarren(s: seq<byte>, rest: seq<byte>, frames: seq<seq<byte>>, limit: nat)
    requires AllWellFormed(frames, limit) && s + rest == Flatten(frames)
    ensures !Barren(s, limit)
  {
    if Barren(s, limit) {
      SettledByParse(s, limit);
      CleanNeverBarren(s, rest, frames, limit, Parse(s, limit, 0), TraceEnd(Parse(s, limit, 0)));
    }
  }

  /** What a machine that was fed exactly a clean stream, without a reset, has done. */
  lemma CleanOutcome(a: SlidingWindowAssembler, frames: seq<seq<byte>>)
    requires a.Valid() && a.Quiescent() && a.stats.overruns == 0
    requires AllWellFormed(frames, a.Limit()) && a.h.fed == Flatten(frames) && a.h.closed == []
    ensures a.frames == frames && a.Available() == 0
    ensures var n := |frames|; a.stats == AssemblerStats(|Flatten(frames)|, n, n, n, 0, 0, 0)
  {
    hide Parse, BE32, BE16, AllWellFormed, Settled, CleanTrace;
    StuckIsCaughtUp(a.h, a.Limit(), a.Pos(), a.frames, a.state, a.syncScanOffset, a.expectedPayloadLen);
    DeliveredIsParsed(a);
    assert [] + Flatten(frames) == a.h.fed;
    CleanParse([], frames, a.Limit());
    CleanFrames(frames, 0);
    assert a.h.closed + [a.h.fed] == [] + [a.h.fed];
    AllSnoc([], a.h.fed, a.Limit());
    assert Flatten(a.h.closed) == [];
    assert frames == [] ==> Flatten(frames) == [];
  }

  /** Only a machine with room for a frame can be fed a clean stream that is not empty. */
  lemma RoomForThree(a: SlidingWindowAssembler, frames: seq<seq<byte>>, n: nat)
    requires a.Valid() && AllWellFormed(frames, a.Limit())
    requires a.maxSize >= MIN_FRAME ==> a.Available() < a.maxSize
    requires n <= 3 * a.maxSize && (n > 0 ==> Flatten(frames) != [])
    ensures n > 0 ==> a.EndAfter(n) <= a.capacity
  {
    hide Explains, Counts, PhaseOk, SyncAt;
    if n > 0 {
      assert frames != [] && WellFormed(frames[0], a.Limit());
    }
  }

  lemma ClosedIsBarren(a: SlidingWindowAssembler)
    requires a.Valid() && a.stats.overruns == 0
    ensures forall s :: s in a.h.closed ==> Barren(s, a.Limit())
  {
  }

  /** At any time a machine reading a clean stream has delivered its first frames. */
  lemma CleanSoFar(a: SlidingWindowAssembler, frames: seq<seq<byte>>, rest: seq<byte>)
    requires a.Valid() && a.h.closed == [] && a.stats.overruns == 0
    requires AllWellFormed(frames, a.Limit()) && a.h.fed + rest == Flatten(frames)
    ensures a.frames <= frames
  {
    var s, limit := a.h.fed, a.Limit();
    var whole := Extend(s, rest);
    assert [] + Flatten(frames) == whole;
    CleanParse([], frames, limit);
    assert CleanTrace(frames, 0) == a.h.trace + Parse(whole, limit, a.Pos());
    FramesOfConcat(a.h.trace, Parse(whole, limit, a.Pos()));
    CleanFrames(frames, 0);
    assert a.h.earlier == 0 by {
      assert a.frames[..a.h.earlier] == [];
    }
    assert a.frames[0..] == a.frames;
  }

  /** One chunk of a clean stream: no reset, no overrun, no failure. */
  method FeedClean(a: SlidingWindowAssembler, chunk: seq<byte>, ghost frames: seq<seq<byte>>, ghost rest: seq<byte>)
    requires a.Valid() && a.Quiescent() && a.stats.overruns == 0 && a.h.closed == []
    requires AllWellFormed(frames, a.Limit()) && Handles(a.onFrame, frames, 0)
    requires a.h.fed + (chunk + rest) == Flatten(frames) && |chunk| <= 3 * a.maxSize
    modifies a, a.buf
    ensures a.Valid() && a.Quiescent() && a.stats.overruns == 0 && a.h.closed == []
    ensures a.h.fed == old(a.h.fed) + chunk
  {
    hide Explains, Counts, PhaseOk, Stuck, AllWellFormed;
    assert (a.h.fed + chunk) + rest == Flatten(frames);
    CleanPending(a, frames, chunk + rest);
    CleanNotBarren(a.h.fed + chunk, rest, frames, a.Limit());
    RoomForThree(a, frames, |chunk|);
    var ok := a.Feed(chunk);
    ClosedIsBarren(a);
    assert a.h.closed == [] && a.h.fed == old(a.h.fed) + chunk;
    CleanSoFar(a, frames, rest);
  }

  /** Clean-stream reassembly: every chunking gives the frames back, and nothing else happens. */
  method ReceiveClean(a: SlidingWindowAssembler, chunks: seq<seq<byte>>, ghost frames: seq<seq<byte>>)
    requires a.Valid() && a.Quiescent() && a.h == History([], [], [], 0, 0, 0) && a.stats.overruns == 0
    requires AllWellFormed(frames, a.Limit()) && Handles(a.onFrame, frames, 0)
    requires Flatten(chunks) == Flatten(frames) && ChunksUpTo(chunks, 3 * a.maxSize)
    modifies a, a.buf
    ensures a.Valid() && a.Quiescent()
    ensures a.frames == frames && a.Available() == 0
    ensures var n := |frames|; a.stats == AssemblerStats(|Flatten(frames)|, n, n, n, 0, 0, 0)
  {
    hide Explains, Counts, PhaseOk, Stuck, AllWellFormed, Flatten;
    assert Flatten(chunks[..0]) == [] by {
      FlattenNone(chunks);
    }
    var i := 0;
    while i < |chunks|
      invariant 0 <= i <= |chunks|
      invariant a.Valid() && a.Quiescent() && a.stats.overruns == 0
      invariant a.h.closed == [] && a.h.fed == Flatten(chunks[..i])
    {
      FlattenTake(chunks, i);
      FlattenPrefix(chunks, i + 1);
      ghost var rest := Flatten(chunks)[|Flatten(chunks[..i + 1])|..];
      assert a.h.fed + (chunks[i] + rest) == Flatten(chunks[..i + 1]) + rest;
      FeedClean(a, chunks[i], frames, rest);
      i := i + 1;
    }
    assert chunks[..i] == chunks;
    CleanOutcome(a, frames);
  }
}
