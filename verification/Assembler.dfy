/**
 The sliding-window frame assembler: a four-state machine over a compacting byte
 buffer that turns arbitrarily chunked bytes into length-delimited frames.
 */
module Assembler {
  import opened Bytes
  import opened SonarStream
  import opened StreamBytes
  import opened AssemblerHistory

  const MAX_FRAME_SIZE := 65535

  /** The handler succeeds on every frame from the from-th on, when it is called with them in this order. */
  ghost predicate Handles(handler: (nat, seq<byte>) -> bool, all: seq<seq<byte>>, from: nat) {
    forall k :: from <= k < |all| ==> handler(k, all[k])
  }

  class SlidingWindowAssembler {
    const maxSize: nat
    const minSize: nat := MIN_FRAME
    const capacity: nat
    const buf: array<byte>
    /** Whether the k-th call of the frame handler, on the given frame, succeeds. */
    const onFrame: (nat, seq<byte>) -> bool

    var readPos: nat
    var writePos: nat
    var state: FrameState
    var expectedPayloadLen: nat
    var packetLenField: nat
    var syncScanOffset: nat
    var stats: AssemblerStats
    /** Every frame handed to the handler so far. */
    var frames: seq<seq<byte>>
    /** The bytes behind all of it. */
    ghost var h: History

    /** uint16(maxSize): the longest frame the header check lets through. */
    function Limit(): nat {
      maxSize % TWO_16
    }

    function Available(): int
      reads this
    {
      writePos - readPos
    }

    /** Index of the first pending byte in the stream being read. */
    ghost function Pos(): int
      reads this
    {
      |h.fed| - Available()
    }

    ghost predicate BufferOk()
      reads this, buf
    {
      && 0 < maxSize && capacity == 4 * maxSize && buf.Length == capacity
      && readPos <= writePos <= capacity
      && 0 <= Pos()
      && forall i :: readPos <= i < writePos ==> buf[i] == h.fed[Pos() + i - readPos]
    }

    ghost predicate Valid()
      reads this, buf
    {
      && BufferOk()
      && Explains(h, Limit(), Pos(), frames)
      && Counts(h, Limit(), frames, state, stats)
      && PhaseOk(h.fed, Limit(), Pos(), state, syncScanOffset, expectedPayloadLen)
      && (state == WaitSync || state == FrameReady ==> Pos() == TraceEnd(h.trace))
      && NoSync(h.fed, TraceEnd(h.trace), Pos())
    }

    /** The machine can do nothing more before bytes arrive. */
    ghost predicate Quiescent()
      reads this
    {
      && 0 <= Pos()
      && Stuck(h.fed, Pos(), state, expectedPayloadLen)
      && (state == WaitSync && Available() >= SYNC_WORD_SIZE ==> writePos <= capacity / 2)
    }

    /** The complete frames among the pending bytes, which the next run of the machine has yet to deliver. */
    ghost function Owed(): seq<seq<byte>>
      requires 0 <= Pos()
      reads this
    {
      FramesOf(Parse(h.fed, Limit(), Pos()))
    }

    /** Where writing stops once n more bytes are in, after compaction if they need it. */
    function EndAfter(n: nat): int
      reads this
    {
      if writePos + n > capacity && readPos > 0 && Available() < capacity / 4 then Available() + n
      else writePos + n
    }

    constructor (max: int, handler: (nat, seq<byte>) -> bool)
      ensures Valid() && Quiescent() && fresh(buf)
      ensures maxSize == if max <= 0 then 65535 else max
      ensures onFrame == handler
      ensures frames == [] && h == History([], [], [], 0, 0, 0) && writePos == 0
      ensures stats == AssemblerStats(0, 0, 0, 0, 0, 0, 0)
    {
      hide Explains, Counts, PhaseOk;
      var size := if max <= 0 then MAX_FRAME_SIZE else max;
      maxSize := size;
      capacity := size * 4;
      buf := new byte[size * 4];
      onFrame := handler;
      readPos, writePos, state := 0, 0, WaitSync;
      expectedPayloadLen, packetLenField, syncScanOffset := 0, 0, 0;
      stats := AssemblerStats(0, 0, 0, 0, 0, 0, 0);
      frames := [];
      h := History([], [], [], 0, 0, 0);
      new;
      HistoryStart(h, Limit(), frames, stats);
      PhaseStart(h.fed, Limit(), Pos(), expectedPayloadLen);
    }

    /** Empties the buffer and starts a new stream. */
    method ResetLocked()
      requires BufferOk()
      modifies this`readPos, this`writePos, this`state, this`expectedPayloadLen, this`packetLenField,
               this`syncScanOffset, this`h
      ensures BufferOk() && readPos == writePos == 0
      ensures state == WaitSync && syncScanOffset == 0
      ensures h == Close(old(h), old(Pos()), |frames|) && Pos() == TraceEnd(h.trace) == 0
    {
      h := Close(h, Pos(), |frames|);
      readPos, writePos, state := 0, 0, WaitSync;
      expectedPayloadLen, packetLenField, syncScanOffset := 0, 0, 0;
    }

    /** Moves the pending bytes to the front of the buffer when they fill less than a quarter of it. */
    method CompactIfNeeded()
      requires Valid()
      modifies this`readPos, this`writePos, buf
      ensures Valid() && Pos() == old(Pos())
      ensures if old(readPos) > 0 && old(Available()) < capacity / 4
              then readPos == 0 && writePos == old(Available())
              else readPos == old(readPos) && writePos == old(writePos)
    {
      hide Explains, Counts, PhaseOk;
      if readPos > 0 && Available() < capacity / 4 {
        if Available() > 0 {
          forall i | 0 <= i < Available() {
            buf[i] := buf[readPos + i];
          }
        }
        writePos := writePos - readPos;
        readPos := 0;
      }
    }

    /** The buffer shows the pending part of the stream. */
    lemma Peek(i: nat, k: nat)
      requires BufferOk()
      requires readPos <= i && i + k <= writePos
      ensures var p := Pos() + i - readPos; buf[i..i + k] == h.fed[p..p + k]
    {
    }

    lemma PeekSync(i: nat)
      requires BufferOk()
      requires readPos <= i && i + SYNC_WORD_SIZE <= writePos
      ensures (BE32(buf[i..i + SYNC_WORD_SIZE], 0) == SYNC_MAGIC) == SyncAt(h.fed, Pos() + i - readPos)
    {
      Peek(i, SYNC_WORD_SIZE);
      var w, p := buf[i..i + SYNC_WORD_SIZE], Pos() + i - readPos;
      assert forall k :: 0 <= k < SYNC_WORD_SIZE ==> w[k] == h.fed[p + k];
    }

    /** The first place in [scanStart, maxScan] where the buffer shows the sync word, or the place after. */
    method FindSync(scanStart: nat, maxScan: nat) returns (i: nat)
      requires BufferOk()
      requires readPos <= scanStart <= maxScan + 1 && maxScan + SYNC_WORD_SIZE == writePos
      ensures scanStart <= i <= maxScan + 1
      ensures NoSync(h.fed, Pos() + scanStart - readPos, Pos() + i - readPos)
      ensures i <= maxScan ==> SyncAt(h.fed, Pos() + i - readPos)
    {
      i := scanStart;
      while i <= maxScan
        invariant scanStart <= i <= maxScan + 1
        invariant NoSync(h.fed, Pos() + scanStart - readPos, Pos() + i - readPos)
      {
        PeekSync(i);
        if BE32(buf[i..i + SYNC_WORD_SIZE], 0) == SYNC_MAGIC {
          return;
        }
        i := i + 1;
      }
    }

    /** What holds of a machine that waits: nothing is owed, and its stream says where it stands. */
    lemma CaughtUp()
      requires Valid() && Stuck(h.fed, Pos(), state, expectedPayloadLen)
      ensures frames == frames[..h.earlier] + FramesOf(Parse(h.fed, Limit(), 0)) && Owed() == []
      ensures Pos() == Standing(h.fed, Limit())
      ensures Barren(h.fed, Limit()) <==> state == WaitSync && Available() >= SYNC_WORD_SIZE
    {
      hide PhaseOk, Stuck, Standing, Barren, Parse, Explains;
      CaughtUpFrames(h, Limit(), Pos(), frames, state, syncScanOffset, expectedPayloadLen);
      StuckStands(h, Limit(), Pos(), frames, state, syncScanOffset, expectedPayloadLen);
    }

    /** Looks for the sync word from where the last scan stopped; false means wait. */
    method HandleWaitSync() returns (again: bool)
      requires Valid() && state == WaitSync
      modifies this
      ensures Valid() && frames == old(frames) && stats.overruns == old(stats.overruns)
      ensures again ==> state == ReadHeader && h == old(h) && writePos == old(writePos) && readPos >= old(readPos)
      ensures !again ==> Quiescent()
      ensures again ==> Pos() >= old(Pos())
      ensures !again ==> frames == frames[..old(h.earlier)] + FramesOf(Parse(old(h.fed), Limit(), 0))
      ensures !again ==>
        if old(writePos) > capacity / 2 && Barren(old(h.fed), Limit())
        then h == Close(old(h), old(Pos()), |frames|) && writePos == 0
        else h == old(h) && writePos == old(writePos) && readPos == old(readPos)
    {
      hide Explains, Counts, BE32, Parse, FramesOf, Barren, Close, Standing, TraceEnd;
      if Available() < SYNC_WORD_SIZE {
        CaughtUp();
        return false;
      }
      var scanStart := readPos + syncScanOffset;
      var maxScan := writePos - SYNC_WORD_SIZE;
      var i := FindSync(scanStart, maxScan);
      ghost var p := Pos();
      assert NoSync(h.fed, p, p + i - readPos);
      if i <= maxScan {
        HistorySync(h, Limit(), p, frames, stats, p + i - readPos);
        readPos := i;
        syncScanOffset := 0;
        state := ReadHeader;
        stats := stats.(syncFound := stats.syncFound + 1);
        return true;
      }
      assert NoSync(h.fed, p, |h.fed|);
      CaughtUp();
      if writePos > capacity / 2 {
        HistoryBarren(h, Limit(), p, frames, stats);
        stats := stats.(resyncEvents := stats.resyncEvents + 1);
        ResetLocked();
      } else {
        syncScanOffset := maxScan - readPos + 1;
      }
      return false;
    }

    lemma PeekLength()
      requires BufferOk() && Available() >= HEADER_SIZE
      ensures BE16(buf[readPos..readPos + HEADER_SIZE], 4) == StatedLength(h.fed, Pos())
    {
      Peek(readPos, HEADER_SIZE);
      var w, p := buf[readPos..readPos + HEADER_SIZE], Pos();
      assert w[4] == h.fed[p + 4] && w[5] == h.fed[p + 5];
    }

    /** Reads the length field; a length out of range skips one byte and rescans. */
    method HandleReadHeader() returns (again: bool)
      requires Valid() && state == ReadHeader
      modifies this`readPos, this`state, this`syncScanOffset, this`expectedPayloadLen,
               this`packetLenField, this`stats, this`h
      ensures Valid() && stats.overruns == old(stats.overruns)
      ensures h.fed == old(h.fed) && h.closed == old(h.closed) && h.earlier == old(h.earlier)
      ensures again ==>
        (state == ReadPayload && readPos == old(readPos)) || (state == WaitSync && readPos == old(readPos) + 1)
      ensures !again ==> Quiescent() && readPos == old(readPos)
    {
      hide Explains, Counts, BE16, BE32;
      if Available() < HEADER_SIZE {
        return false;
      }
      PeekLength();
      var pktLen := BE16(buf[readPos..readPos + HEADER_SIZE], 4);
      if pktLen < minSize % TWO_16 || pktLen > maxSize % TWO_16 {
        HistoryReject(h, Limit(), Pos(), frames, stats);
        h := h.(trace := h.trace + [Rejected(Pos())]);
        stats := stats.(invalidLength := stats.invalidLength + 1, resyncEvents := stats.resyncEvents + 1);
        readPos := readPos + 1;
        state := WaitSync;
        syncScanOffset := 0;
        return true;
      }
      HistoryHeader(h, Limit(), frames, stats);
      packetLenField := pktLen;
      expectedPayloadLen := pktLen;
      stats := stats.(headerParsed := stats.headerParsed + 1);
      state := ReadPayload;
      return true;
    }

    /** Delivers the frame once all its bytes are here; ok is false when the handler failed. */
    method HandleReadPayload() returns (done: bool, ok: bool)
      requires Valid() && state == ReadPayload
      modifies this`readPos, this`state, this`stats, this`h, this`frames
      ensures Valid() && stats.overruns == old(stats.overruns)
      ensures h.fed == old(h.fed) && h.closed == old(h.closed) && h.earlier == old(h.earlier)
      ensures if old(Available()) < old(expectedPayloadLen)
              then !done && ok && Quiescent() && frames == old(frames) && readPos == old(readPos)
              else && done == ok && state == FrameReady
                   && frames == old(frames) + [old(h.fed[Pos()..Pos() + expectedPayloadLen])]
                   && ok == onFrame(|old(frames)|, frames[|old(frames)|])
                   && readPos == old(readPos) + old(expectedPayloadLen) && Pos() == TraceEnd(h.trace)
    {
      hide Explains, Counts, PhaseOk;
      if Available() < expectedPayloadLen {
        return false, true;
      }
      Peek(readPos, expectedPayloadLen);
      HistoryAccept(h, Limit(), Pos(), frames, stats, syncScanOffset, expectedPayloadLen);
      var frame := buf[readPos..readPos + expectedPayloadLen];
      h := h.(trace := h.trace + [Accepted(Pos(), frame)]);
      readPos := readPos + expectedPayloadLen;
      stats := stats.(framesCompleted := stats.framesCompleted + 1);
      state := FrameReady;
      ok := onFrame(|frames|, frame);
      frames := frames + [frame];
      done := ok;
    }

    /** Every call of the handler from the from-th to before the to-th succeeded. */
    ghost predicate HandledFrom(from: nat, to: nat)
      reads this
    {
      forall k :: from <= k < to && k < |frames| ==> onFrame(k, frames[k])
    }

    /** Runs the machine until it waits for bytes or the handler fails. */
    method RunStateMachine() returns (ok: bool)
      requires Valid()
      modifies this
      ensures Valid() && stats.overruns == old(stats.overruns)
      ensures old(frames) <= frames
      ensures if ok && old(writePos) > capacity / 2 && Barren(old(h.fed), Limit())
              then h.fed == [] && h.closed == old(h.closed) + [old(h.fed)] && writePos == 0
              else h.fed == old(h.fed) && h.closed == old(h.closed) && writePos == old(writePos)
      ensures ok ==> Quiescent() && HandledFrom(|old(frames)|, |frames|)
      ensures ok ==> frames == frames[..old(h.earlier)] + FramesOf(Parse(old(h.fed), Limit(), 0))
      ensures !ok ==>
        && |old(frames)| < |frames| && HandledFrom(|old(frames)|, |frames| - 1)
        && !onFrame(|frames| - 1, frames[|frames| - 1])
        && state == FrameReady && Pos() == TraceEnd(h.trace) && h.earlier == old(h.earlier)
    {
      hide Explains, Counts, PhaseOk, Barren, NoSync, Skipped, Stuck, TraceEnd, Standing, Parse, FramesOf;
      while true
        invariant Valid() && stats.overruns == old(stats.overruns)
        invariant h.fed == old(h.fed) && h.closed == old(h.closed) && writePos == old(writePos)
        invariant h.earlier == old(h.earlier)
        invariant old(frames) <= frames && HandledFrom(|old(frames)|, |frames|)
        decreases Available(), match state case FrameReady => 3 case WaitSync => 2 case ReadHeader => 1 case ReadPayload => 0
      {
        match state
        case WaitSync =>
          var again := HandleWaitSync();
          if !again {
            return true;
          }
        case ReadHeader =>
          var again := HandleReadHeader();
          if !again {
            CaughtUp();
            return true;
          }
        case ReadPayload =>
          PayloadIsPositive();
          var done, handled := HandleReadPayload();
          if !handled {
            return false;
          }
          if !done {
            CaughtUp();
            return true;
          }
        case FrameReady =>
          HistoryReady(h, Limit(), frames, stats);
          state := WaitSync;
          syncScanOffset := 0;
          assert PhaseOk(h.fed, Limit(), Pos(), state, 0, expectedPayloadLen) by {
            PhaseStart(h.fed, Limit(), Pos(), expectedPayloadLen);
          }
      }
      assert false;
    }

    lemma PayloadIsPositive()
      requires Valid() && state == ReadPayload
      ensures expectedPayloadLen >= MIN_FRAME
    {
    }

    lemma WaitsAtSync()
      requires Valid()
      ensures Pos() <= TraceEnd(h.trace) || SyncAt(h.fed, Pos())
    {
    }

    /** Copies a chunk that fits behind the pending bytes. */
    method Append(data: seq<byte>)
      requires Valid() && writePos + |data| <= capacity
      modifies this`writePos, this`h, this`stats, buf
      ensures Valid() && h == old(h).(fed := old(h.fed) + data) && Pos() == old(Pos())
      ensures writePos == old(writePos) + |data| && stats.overruns == old(stats.overruns)
    {
      hide Explains, Counts, PhaseOk, NoSync, TraceEnd, SyncAt;
      HistoryGrow(h, Limit(), Pos(), frames, state, stats, data);
      PhaseGrow(h.fed, Limit(), Pos(), state, syncScanOffset, expectedPayloadLen, data);
      WaitsAtSync();
      NoSyncGrow(h.fed, TraceEnd(h.trace), Pos(), data);
      forall i | 0 <= i < |data| {
        buf[writePos + i] := data[i];
      }
      writePos := writePos + |data|;
      h := h.(fed := h.fed + data);
      stats := stats.(bytesFed := stats.bytesFed + |data|);
    }

    /** Gives up the buffered bytes because a chunk does not fit behind them. */
    method Overrun()
      requires Valid()
      modifies this
      ensures Valid() && Quiescent() && Owed() == []
      ensures frames == old(frames) && h == Close(old(h), old(Pos()), |frames|) && writePos == 0
      ensures stats.overruns == old(stats.overruns) + 1
    {
      hide Explains, Counts, PhaseOk;
      HistoryOverrun(h, Limit(), Pos(), frames, state, stats);
      stats := stats.(overruns := stats.overruns + 1);
      ResetLocked();
      PhaseStart(h.fed, Limit(), Pos(), expectedPayloadLen);
      CaughtUp();
    }

    /** Takes a chunk in and delivers every frame it completes. */
    method Feed(data: seq<byte>) returns (ok: bool)
      requires Valid()
      modifies this, buf
      ensures Valid() && old(frames) <= frames
      ensures data == [] ==> ok && unchanged(this) && unchanged(buf)
      ensures data != [] && old(EndAfter(|data|)) > capacity ==>
        && ok && Quiescent() && frames == old(frames) && h == Close(old(h), old(Pos()), |frames|) && Owed() == []
        && writePos == 0 && stats.overruns == old(stats.overruns) + 1
      ensures data != [] && old(EndAfter(|data|)) <= capacity ==>
        && stats.overruns == old(stats.overruns)
        && h.Taken() == old(h.Taken()) + data
        && frames + Owed() == old(frames) + FramesOf(Parse(old(h.fed) + data, Limit(), old(Pos())))
        && (if ok && old(EndAfter(|data|)) > capacity / 2 && Barren(old(h.fed) + data, Limit())
            then h.fed == [] && h.closed == old(h.closed) + [old(h.fed) + data] && writePos == 0
            else h.fed == old(h.fed) + data && h.closed == old(h.closed) && writePos == old(EndAfter(|data|)))
        && (ok ==> Quiescent() && HandledFrom(|old(frames)|, |frames|) && Owed() == [])
        && (!ok ==> |old(frames)| < |frames| && HandledFrom(|old(frames)|, |frames| - 1)
                    && !onFrame(|frames| - 1, frames[|frames| - 1])
                    && state == FrameReady && Pos() == TraceEnd(h.trace) && h.earlier == old(h.earlier))
    {
      hide Explains, Counts, PhaseOk, Flatten, Stuck, Parse, FramesOf, Barren, NoSync, TraceEnd, Standing;
      GrownTaken(h, data);
      if |data| == 0 {
        return true;
      }
      if writePos + |data| > capacity {
        CompactIfNeeded();
        if writePos + |data| > capacity {
          Overrun();
          return true;
        }
      }
      DeliveredAndOwedGrow(h, Limit(), Pos(), frames, data);
      Append(data);
      ghost var grown := h;
      ok := RunStateMachine();
      TakenStays(grown, h);
      assert frames[..grown.earlier] == old(frames)[..grown.earlier];
      if ok {
        CaughtUp();
        assert frames + [] == frames;
      } else {
        DeliveredAndOwed(h, Limit(), Pos(), frames);
      }
    }
  }
}
