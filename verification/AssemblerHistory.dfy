/**
 What the assembler's visible state means, told as a history of the bytes it was fed:
 the streams ended by resets, the stream being read, and what was claimed of it.
 */
module AssemblerHistory {
  import opened Bytes
  import opened SonarStream
  import opened LeftmostReading
  import opened StreamBytes

  datatype FrameState = WaitSync | ReadHeader | ReadPayload | FrameReady

  datatype AssemblerStats = AssemblerStats(
    bytesFed: nat, syncFound: nat, headerParsed: nat, framesCompleted: nat,
    resyncEvents: nat, invalidLength: nat, overruns: nat)

  /** The frames of several streams, each parsed on its own. */
  function AllFrames(streams: seq<seq<byte>>, limit: nat): seq<seq<byte>> {
    if streams == [] then []
    else AllFrames(streams[..|streams| - 1], limit) + FramesOf(Parse(streams[|streams| - 1], limit, 0))
  }

  function AllRejections(streams: seq<seq<byte>>, limit: nat): nat {
    if streams == [] then 0
    else AllRejections(streams[..|streams| - 1], limit) + Rejections(Parse(streams[|streams| - 1], limit, 0))
  }

  lemma AllSnoc(streams: seq<seq<byte>>, s: seq<byte>, limit: nat)
    ensures AllFrames(streams + [s], limit) == AllFrames(streams, limit) + FramesOf(Parse(s, limit, 0))
    ensures AllRejections(streams + [s], limit) == AllRejections(streams, limit) + Rejections(Parse(s, limit, 0))
  {
    assert (streams + [s])[..|streams|] == streams;
  }

  lemma NoStreams(limit: nat)
    ensures AllFrames([], limit) == []
  {
  }

  lemma {:induction false} AllFramesCons(first: seq<byte>, rest: seq<seq<byte>>, limit: nat)
    ensures AllFrames([first] + rest, limit) == FramesOf(Parse(first, limit, 0)) + AllFrames(rest, limit)
  {
    hide Parse, FramesOf;
    if rest == [] {
      assert [first] + rest == [] + [first];
      AllSnoc([], first, limit);
    } else {
      var n := |rest| - 1;
      AllFramesCons(first, rest[..n], limit);
      assert [first] + rest == ([first] + rest[..n]) + [rest[n]] && rest == rest[..n] + [rest[n]];
      AllSnoc([first] + rest[..n], rest[n], limit);
    }
  }

  /** What the consumer of a delivered frame may rely on. */
  predicate WellFormed(frame: seq<byte>, limit: nat) {
    LengthAllowed(|frame|, limit) && SyncAt(frame, 0) && StatedLength(frame, 0) == |frame|
  }

  ghost predicate AllWellFormed(frames: seq<seq<byte>>, limit: nat) {
    forall k :: 0 <= k < |frames| ==> WellFormed(frames[k], limit)
  }

  /**
   A stream that ends, behind the last event it holds, in at least four bytes among which no sync word is complete.
   Only such a stream is ever thrown away by the scan.
   */
  ghost predicate Barren(s: seq<byte>, limit: nat) {
    var end := TraceEnd(Parse(s, limit, 0));
    end + SYNC_WORD_SIZE <= |s| && NoSync(s, end, |s|)
  }

  /** Where reading stands when all of s is in: at the next sync word, or behind the last event when there is none. */
  ghost function Standing(s: seq<byte>, limit: nat): nat {
    var end := TraceEnd(Parse(s, limit, 0));
    if SyncFrom(s, end) < |s| then SyncFrom(s, end) else end
  }

  datatype History = History(
    closed: seq<seq<byte>>,  // the streams ended by a reset, oldest first
    fed: seq<byte>,          // the bytes taken since the last reset
    trace: seq<Event>,       // what has been claimed of fed
    earlier: nat,            // how many frames had been delivered at the last reset
    skipped: nat,            // how many bytes of the closed streams no frame took, though they were read
    discarded: nat)          // how many bytes of the closed streams were still pending when they were closed
  {
    /** Every byte ever taken into the buffer. */
    function Taken(): seq<byte> {
      Flatten(closed) + fed
    }
  }

  /** The current stream is settled as trace up to pos, and its frames are the recent ones. */
  ghost predicate Explains(h: History, limit: nat, pos: nat, frames: seq<seq<byte>>) {
    && pos <= |h.fed|
    && Settled(h.fed, limit, h.trace, pos)
    && TraceEnd(h.trace) <= pos
    && h.earlier <= |frames|
    && frames[h.earlier..] == FramesOf(h.trace)
    && AllWellFormed(frames, limit)
  }

  /** Every byte of the closed streams was handed on in a frame, skipped, or discarded. */
  ghost predicate Balanced(h: History, frames: seq<seq<byte>>) {
    h.earlier <= |frames| && |Flatten(h.closed)| == |Flatten(frames[..h.earlier])| + h.skipped + h.discarded
  }

  /** The counters agree with the history. */
  ghost predicate Counts(h: History, limit: nat, frames: seq<seq<byte>>, state: FrameState, stats: AssemblerStats) {
    && Balanced(h, frames)
    && stats.bytesFed == |h.Taken()|
    && stats.framesCompleted == |frames|
    && stats.overruns <= |h.closed|
    && stats.resyncEvents == stats.invalidLength + |h.closed| - stats.overruns
    && (stats.overruns == 0 ==>
        && h.earlier <= |frames|
        && frames[..h.earlier] == AllFrames(h.closed, limit)
        && stats.invalidLength == AllRejections(h.closed, limit) + Rejections(h.trace)
        && stats.headerParsed == stats.framesCompleted + (if state == ReadPayload then 1 else 0)
        && stats.syncFound == stats.headerParsed + stats.invalidLength + (if state == ReadHeader then 1 else 0)
        && forall s :: s in h.closed ==> Barren(s, limit))
  }

  /** What each state of the machine remembers about the bytes from pos on. */
  ghost predicate PhaseOk(s: seq<byte>, limit: nat, pos: nat, state: FrameState, scanned: nat, expected: nat) {
    match state
    case WaitSync =>
      NoSync(s, pos, pos + scanned) && (scanned == 0 || pos + scanned + SYNC_WORD_SIZE - 1 <= |s|)
    case ReadHeader => SyncAt(s, pos)
    case ReadPayload =>
      && SyncAt(s, pos) && pos + HEADER_SIZE <= |s|
      && expected == StatedLength(s, pos) && LengthAllowed(expected, limit)
    case FrameReady => true
  }

  /** The machine cannot move on the bytes it has. */
  ghost predicate Stuck(s: seq<byte>, pos: nat, state: FrameState, expected: nat) {
    match state
    case WaitSync => pos + SYNC_WORD_SIZE > |s| || NoSync(s, pos, |s|)
    case ReadHeader => pos + HEADER_SIZE > |s|
    case ReadPayload => pos + expected > |s|
    case FrameReady => false
  }

  lemma HistoryStart(h: History, limit: nat, frames: seq<seq<byte>>, stats: AssemblerStats)
    requires h == History([], [], [], 0, 0, 0) && frames == [] && stats == AssemblerStats(0, 0, 0, 0, 0, 0, 0)
    ensures Explains(h, limit, 0, frames) && Counts(h, limit, frames, WaitSync, stats)
  {
    SettledStart(limit);
  }

  lemma HistoryGrow(h: History, limit: nat, pos: nat, frames: seq<seq<byte>>, state: FrameState,
                    stats: AssemblerStats, more: seq<byte>)
    requires Explains(h, limit, pos, frames) && Counts(h, limit, frames, state, stats)
    ensures var h' := h.(fed := h.fed + more);
      && Explains(h', limit, pos, frames)
      && Counts(h', limit, frames, state, stats.(bytesFed := stats.bytesFed + |more|))
      && h'.Taken() == h.Taken() + more
  {
    SettledGrow(h.fed, limit, h.trace, pos, more);
  }

  lemma PhaseStart(s: seq<byte>, limit: nat, pos: nat, expected: nat)
    ensures PhaseOk(s, limit, pos, WaitSync, 0, expected)
  {
  }

  lemma PhaseGrow(s: seq<byte>, limit: nat, pos: nat, state: FrameState, scanned: nat, expected: nat, more: seq<byte>)
    requires PhaseOk(s, limit, pos, state, scanned, expected)
    ensures PhaseOk(s + more, limit, pos, state, scanned, expected)
  {
    if state == WaitSync {
      forall i: nat | pos <= i < pos + scanned ensures !SyncAt(s + more, i) {
        SyncAtGrow(s, more, i);
      }
    } else if state != FrameReady {
      SyncAtGrow(s, more, pos);
    }
  }

  lemma NoSyncGrow(s: seq<byte>, lo: nat, hi: nat, more: seq<byte>)
    requires NoSync(s, lo, hi) && (hi <= lo || SyncAt(s, hi))
    ensures NoSync(s + more, lo, hi)
  {
    forall i: nat | lo <= i < hi ensures !SyncAt(s + more, i) {
      SyncAtGrow(s, more, i);
    }
  }

  lemma HistorySync(h: History, limit: nat, pos: nat, frames: seq<seq<byte>>, stats: AssemblerStats, next: nat)
    requires Explains(h, limit, pos, frames) && Counts(h, limit, frames, WaitSync, stats)
    requires pos <= next && NoSync(h.fed, pos, next) && SyncAt(h.fed, next)
    ensures Explains(h, limit, next, frames)
    ensures Counts(h, limit, frames, ReadHeader, stats.(syncFound := stats.syncFound + 1))
  {
    SettledSkip(h.fed, limit, h.trace, pos, next);
  }

  lemma HistoryReject(h: History, limit: nat, pos: nat, frames: seq<seq<byte>>, stats: AssemblerStats)
    requires Explains(h, limit, pos, frames) && Counts(h, limit, frames, ReadHeader, stats)
    requires pos + HEADER_SIZE <= |h.fed| && SyncAt(h.fed, pos) && !LengthAllowed(StatedLength(h.fed, pos), limit)
    ensures var h' := h.(trace := h.trace + [Rejected(pos)]);
      && Explains(h', limit, pos + 1, frames)
      && Counts(h', limit, frames, WaitSync,
                stats.(invalidLength := stats.invalidLength + 1, resyncEvents := stats.resyncEvents + 1))
  {
    hide Settled, Parse, WellFormed, BE32, BE16;
    SettledReject(h.fed, limit, h.trace, pos);
    assert (h.trace + [Rejected(pos)])[..|h.trace|] == h.trace;
  }

  lemma HistoryHeader(h: History, limit: nat, frames: seq<seq<byte>>, stats: AssemblerStats)
    requires Counts(h, limit, frames, ReadHeader, stats)
    ensures Counts(h, limit, frames, ReadPayload, stats.(headerParsed := stats.headerParsed + 1))
  {
  }

  lemma HistoryAccept(h: History, limit: nat, pos: nat, frames: seq<seq<byte>>, stats: AssemblerStats,
                      scanned: nat, n: nat)
    requires Explains(h, limit, pos, frames) && Counts(h, limit, frames, ReadPayload, stats)
    requires PhaseOk(h.fed, limit, pos, ReadPayload, scanned, n) && pos + n <= |h.fed|
    ensures var frame := h.fed[pos..pos + n];
      var h' := h.(trace := h.trace + [Accepted(pos, frame)]);
      && Explains(h', limit, pos + n, frames + [frame])
      && Counts(h', limit, frames + [frame], FrameReady, stats.(framesCompleted := stats.framesCompleted + 1))
      && PhaseOk(h.fed, limit, pos + n, FrameReady, scanned, n)
  {
    hide Settled, Parse, WellFormed, BE32, BE16;
    SettledAccept(h.fed, limit, h.trace, pos, n);
    var frame := h.fed[pos..pos + n];
    FrameIsWellFormed(h.fed, limit, pos, n);
    assert (h.trace + [Accepted(pos, frame)])[..|h.trace|] == h.trace;
    assert (frames + [frame])[h.earlier..] == frames[h.earlier..] + [frame];
    assert (frames + [frame])[..h.earlier] == frames[..h.earlier];
  }

  /** A frame cut out at a sync word, as long as its header says, is one the consumer may rely on. */
  lemma FrameIsWellFormed(s: seq<byte>, limit: nat, pos: nat, n: nat)
    requires pos + HEADER_SIZE <= |s| && SyncAt(s, pos) && n == StatedLength(s, pos)
    requires LengthAllowed(n, limit) && pos + n <= |s|
    ensures WellFormed(s[pos..pos + n], limit)
  {
    var frame := s[pos..pos + n];
    assert forall k :: 0 <= k < 6 ==> frame[k] == s[pos + k];
  }

  lemma HistoryReady(h: History, limit: nat, frames: seq<seq<byte>>, stats: AssemblerStats)
    requires Counts(h, limit, frames, FrameReady, stats)
    ensures Counts(h, limit, frames, WaitSync, stats)
  {
  }

  /** A machine that cannot move has claimed everything its stream decides. */
  lemma StuckIsCaughtUp(h: History, limit: nat, pos: nat, frames: seq<seq<byte>>, state: FrameState,
                        scanned: nat, expected: nat)
    requires Explains(h, limit, pos, frames)
    requires PhaseOk(h.fed, limit, pos, state, scanned, expected) && Stuck(h.fed, pos, state, expected)
    ensures Parse(h.fed, limit, 0) == h.trace
  {
    SettledNow(h.fed, limit, h.trace, pos);
    if state == WaitSync && pos + SYNC_WORD_SIZE <= |h.fed| {
      ParseSkip(h.fed, limit, pos, |h.fed|);
    }
    assert Parse(h.fed, limit, pos) == [];
  }

  /** The stream decides where a machine that cannot move stands, and whether it would be given up there. */
  lemma StuckStands(h: History, limit: nat, pos: nat, frames: seq<seq<byte>>, state: FrameState,
                    scanned: nat, expected: nat)
    requires Explains(h, limit, pos, frames) && NoSync(h.fed, TraceEnd(h.trace), pos)
    requires PhaseOk(h.fed, limit, pos, state, scanned, expected) && Stuck(h.fed, pos, state, expected)
    requires state == WaitSync ==> pos == TraceEnd(h.trace)
    ensures pos == Standing(h.fed, limit)
    ensures Barren(h.fed, limit) <==> state == WaitSync && pos + SYNC_WORD_SIZE <= |h.fed|
  {
    hide Parse, Settled, BE32;
    StuckIsCaughtUp(h, limit, pos, frames, state, scanned, expected);
    SyncFromIs(h.fed, TraceEnd(h.trace), if state == WaitSync then |h.fed| else pos);
  }

  /** A machine that cannot move has delivered every frame of its stream. */
  lemma CaughtUpFrames(h: History, limit: nat, pos: nat, frames: seq<seq<byte>>, state: FrameState,
                       scanned: nat, expected: nat)
    requires Explains(h, limit, pos, frames)
    requires PhaseOk(h.fed, limit, pos, state, scanned, expected) && Stuck(h.fed, pos, state, expected)
    ensures frames == frames[..h.earlier] + FramesOf(Parse(h.fed, limit, 0))
    ensures FramesOf(Parse(h.fed, limit, pos)) == []
  {
    hide PhaseOk, Stuck;
    StuckIsCaughtUp(h, limit, pos, frames, state, scanned, expected);
    assert frames == frames[..h.earlier] + frames[h.earlier..];
    DeliveredAndOwed(h, limit, pos, frames);
  }

  /** The frames delivered and those still owed are the frames of the stream. */
  lemma DeliveredAndOwed(h: History, limit: nat, pos: nat, frames: seq<seq<byte>>)
    requires Explains(h, limit, pos, frames)
    ensures frames + FramesOf(Parse(h.fed, limit, pos)) == frames[..h.earlier] + FramesOf(Parse(h.fed, limit, 0))
  {
    SettledNow(h.fed, limit, h.trace, pos);
    FramesOfConcat(h.trace, Parse(h.fed, limit, pos));
    assert frames == frames[..h.earlier] + FramesOf(h.trace);
  }

  /** More bytes settle what was settled: the frames of the longer stream from pos on come behind those delivered. */
  lemma DeliveredAndOwedGrow(h: History, limit: nat, pos: nat, frames: seq<seq<byte>>, more: seq<byte>)
    requires Explains(h, limit, pos, frames)
    ensures h.earlier <= |frames|
    ensures frames + FramesOf(Parse(h.fed + more, limit, pos)) == frames[..h.earlier] + FramesOf(Parse(h.fed + more, limit, 0))
  {
    hide Parse, FramesOf;
    SettledGrow(h.fed, limit, h.trace, pos, more);
    DeliveredAndOwed(h.(fed := h.fed + more), limit, pos, frames);
  }

  /** The history after a reset that throws the current stream away, which was read up to pos. */
  ghost function Close(h: History, pos: nat, delivered: nat): History
    requires pos <= |h.fed|
  {
    History(h.closed + [h.fed], [], [], delivered, h.skipped + |Skipped(h.trace, pos)|, h.discarded + (|h.fed| - pos))
  }

  /** What was read of the current stream was handed on or skipped. */
  lemma CurrentBalance(h: History, limit: nat, pos: nat, frames: seq<seq<byte>>)
    requires Explains(h, limit, pos, frames)
    ensures pos == |Flatten(frames[h.earlier..])| + |Skipped(h.trace, pos)|
  {
    hide Parse, Skipped;
    SettledNow(h.fed, limit, h.trace, pos);
    ParseIsLeftmost(h.fed, limit, 0);
    PrefixInOrder(h.trace, Parse(h.fed, limit, pos), 0);
    FramesAndGaps(h.trace, pos);
  }

  lemma CloseBalance(h: History, limit: nat, pos: nat, frames: seq<seq<byte>>)
    requires Explains(h, limit, pos, frames) && Balanced(h, frames)
    ensures Balanced(Close(h, pos, |frames|), frames)
  {
    hide Skipped, Settled;
    CurrentBalance(h, limit, pos, frames);
    FlattenConcat(frames[..h.earlier], frames[h.earlier..]);
    assert frames[..h.earlier] + frames[h.earlier..] == frames;
    assert frames[..|frames|] == frames;
    FlattenSnoc(h.closed, h.fed);
  }

  lemma CloseTaken(h: History, pos: nat, delivered: nat)
    requires pos <= |h.fed|
    ensures Close(h, pos, delivered).Taken() == h.Taken()
  {
    FlattenSnoc(h.closed, h.fed);
  }

  lemma GrownTaken(h: History, more: seq<byte>)
    ensures h.(fed := h.fed + more).Taken() == h.Taken() + more
  {
  }

  /** Reading takes no bytes; at most it closes the current stream. */
  lemma TakenStays(h: History, h': History)
    requires (h'.fed == h.fed && h'.closed == h.closed) || (h'.fed == [] && h'.closed == h.closed + [h.fed])
    ensures h'.Taken() == h.Taken()
  {
    FlattenSnoc(h.closed, h.fed);
  }

  lemma CloseExplains(h: History, limit: nat, pos: nat, frames: seq<seq<byte>>)
    requires AllWellFormed(frames, limit) && pos <= |h.fed|
    ensures Explains(Close(h, pos, |frames|), limit, 0, frames)
  {
    SettledStart(limit);
    assert frames[|frames|..] == FramesOf([]);
  }

  /** The scan found nothing in the whole buffer: the stream thrown away is barren and fully read. */
  lemma HistoryBarren(h: History, limit: nat, pos: nat, frames: seq<seq<byte>>, stats: AssemblerStats)
    requires Explains(h, limit, pos, frames) && Counts(h, limit, frames, WaitSync, stats)
    requires pos == TraceEnd(h.trace) && pos + SYNC_WORD_SIZE <= |h.fed| && NoSync(h.fed, pos, |h.fed|)
    ensures Explains(Close(h, pos, |frames|), limit, 0, frames)
    ensures Counts(Close(h, pos, |frames|), limit, frames, WaitSync, stats.(resyncEvents := stats.resyncEvents + 1))
  {
    StuckIsCaughtUp(h, limit, pos, frames, WaitSync, 0, 0);
    assert Barren(h.fed, limit);
    AllSnoc(h.closed, h.fed, limit);
    CloseTaken(h, pos, |frames|);
    CloseExplains(h, limit, pos, frames);
    CloseBalance(h, limit, pos, frames);
    assert frames[..|frames|] == frames[..h.earlier] + frames[h.earlier..];
  }

  lemma HistoryOverrun(h: History, limit: nat, pos: nat, frames: seq<seq<byte>>, state: FrameState,
                       stats: AssemblerStats)
    requires Explains(h, limit, pos, frames) && Counts(h, limit, frames, state, stats)
    ensures Explains(Close(h, pos, |frames|), limit, 0, frames)
    ensures Counts(Close(h, pos, |frames|), limit, frames, WaitSync, stats.(overruns := stats.overruns + 1))
  {
    CloseTaken(h, pos, |frames|);
    CloseExplains(h, limit, pos, frames);
    CloseBalance(h, limit, pos, frames);
  }
}
