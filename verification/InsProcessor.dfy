/** The INS processor: a compacting byte buffer read record by record, resynchronising on timestamps. */
module InsProcessor {
  import opened Options
  import opened Bytes
  import opened InsStream
  import opened InsRecords

  const INS_MAX_FRAME_SIZE := 128

  datatype INSStats = INSStats(
    bytesFed: nat, framesCompleted: nat, resyncEvents: nat, invalidLength: nat, badTimestamp: nat, overruns: nat)

  class INSSafeProcessor {
    const capacity: nat := INS_MAX_FRAME_SIZE * 8
    const expectedSize: nat := INS_FRAME_SIZE
    const buf: array<byte>
    var readPos: nat
    var writePos: nat
    var latestTS: nat
    var stats: INSStats
    /** Every record handed on so far. */
    var records: seq<INSData>

    ghost predicate Valid()
      reads this, buf
    {
      buf.Length == capacity && readPos <= writePos <= capacity
    }

    function Available(): int
      reads this
    {
      writePos - readPos
    }

    /** The bytes not consumed yet. */
    ghost function Pending(): seq<byte>
      requires Valid()
      reads this, buf
    {
      buf[readPos..writePos]
    }

    constructor ()
      ensures Valid() && fresh(buf)
      ensures Pending() == [] && latestTS == 0 && records == [] && stats == INSStats(0, 0, 0, 0, 0, 0)
      ensures Steady(records, latestTS)
    {
      buf := new byte[INS_MAX_FRAME_SIZE * 8];
      readPos, writePos, latestTS, records := 0, 0, 0, [];
      stats := INSStats(0, 0, 0, 0, 0, 0);
    }

    method CompactIfNeeded()
      requires Valid()
      modifies this`readPos, this`writePos, buf
      ensures Valid() && Pending() == old(Pending())
      ensures if old(readPos) > 0 && old(Available()) < capacity / 4
              then readPos == 0 && writePos == old(Available())
              else readPos == old(readPos) && writePos == old(writePos)
    {
      if readPos > 0 && Available() < capacity / 4 {
        if Available() > 0 {
          forall i | 0 <= i < Available() {
            buf[i] := buf[readPos + i];
          }
        }
        assert buf[..Available()] == old(buf[readPos..writePos]);
        writePos := writePos - readPos;
        readPos := 0;
      }
    }

    lemma PeekTimestamp(offset: nat)
      requires Valid() && offset + 8 <= Available()
      ensures LE64(buf[readPos + offset..readPos + offset + 8], 0) == LE64(Pending(), offset)
    {
      var w, p := buf[readPos + offset..readPos + offset + 8], Pending();
      assert forall k :: 0 <= k < 8 ==> w[k] == p[offset + k];
    }

    /** Distance to the next place with a believable timestamp, or -1. */
    method FindNextCandidate(now: nat) returns (skip: int)
      requires Valid()
      ensures skip == match NextCandidate(Pending(), 1, latestTS, now) case None => -1 case Some(k) => k
    {
      hide LE64, ValidTimestamp;
      var offset := 1;
      while offset + 8 <= Available()
        invariant offset >= 1
        invariant NextCandidate(Pending(), 1, latestTS, now) == NextCandidate(Pending(), offset, latestTS, now)
        decreases Available() - offset
      {
        PeekTimestamp(offset);
        var ts := LE64(buf[readPos + offset..readPos + offset + 8], 0);
        if ValidTimestamp(ts, latestTS, now) {
          return offset;
        }
        offset := offset + 1;
      }
      return -1;
    }

    /** Reads records until too few bytes are left or nothing believable is in sight. */
    method Process(now: nat)
      requires Valid()
      modifies this`readPos, this`latestTS, this`stats, this`records
      ensures Valid()
      ensures Holds(Scan(old(Pending()), old(latestTS), now), old(records), old(stats))
      ensures old(records) <= records && ReadFrom(old(Pending()), Pending(), records[|old(records)|..])
    {
      hide Scan, NextCandidate, LE64, ValidTimestamp, PlausibleFields, FieldsOf, ReadFrom;
      ScanSent(Pending(), latestTS, now);
      ghost var all := Scan(Pending(), latestTS, now);
      ghost var done := Reading([], [], 0, 0, 0);
      while Available() >= expectedSize
        invariant Valid() && Midway(all, done, old(records), old(stats), now)
        decreases Available()
      {
        var stuck;
        stuck, done := ReadOne(all, done, old(records), old(stats), now);
        if stuck {
          return;
        }
      }
      ShortIsKept(Pending(), latestTS, now);
    }

    /** The reading is over, and the processor holds its outcome. */
    ghost predicate Holds(all: Reading, handed: seq<INSData>, base: INSStats)
      requires Valid()
      reads this, buf
    {
      records == handed + all.records && Pending() == all.rest && latestTS == all.latest && stats == CountedIn(base, all)
    }

    /** The processor holds what was read so far; the rest of the reading starts at its pending bytes. */
    ghost predicate Midway(all: Reading, done: Reading, handed: seq<INSData>, base: INSStats, now: nat)
      requires Valid()
      reads this, buf
    {
      records == handed + done.records && all == Then(done, Scan(Pending(), latestTS, now)) && stats == Tally(base, done)
    }

    /** One turn of the reading loop. */
    method ReadOne(ghost all: Reading, ghost done: Reading, ghost handed: seq<INSData>, ghost base: INSStats, now: nat)
      returns (stuck: bool, ghost done': Reading)
      requires Valid() && Available() >= expectedSize && Midway(all, done, handed, base, now)
      modifies this`readPos, this`latestTS, this`stats, this`records
      ensures Valid()
      ensures stuck ==> Holds(all, handed, base)
      ensures !stuck ==> Midway(all, done', handed, base, now) && Available() < old(Available())
    {
      hide Scan, NextCandidate, LE64, ValidTimestamp, PlausibleFields, FieldsOf;
      ghost var p := Pending();
      var frame := buf[readPos..readPos + expectedSize];
      assert p == frame + p[expectedSize..];
      FirstRecord(frame, p[expectedSize..]);
      var ts := LE64(frame, 0);
      stuck, done' := false, done;
      if !ValidTimestamp(ts, latestTS, now) {
        stats := stats.(badTimestamp := stats.badTimestamp + 1);
        var skip := FindNextCandidate(now);
        if skip <= 0 {
          StuckIsKept(p, latestTS, now);
          return true, done;
        }
        readPos := readPos + skip;
        stats := stats.(resyncEvents := stats.resyncEvents + 1);
        assert Pending() == p[skip..];
        done' := StepSkip(all, done, p, latestTS, now, skip);
        return;
      }
      var ins := FieldsOf(frame);
      if !PlausibleFields(ins) {
        stats := stats.(invalidLength := stats.invalidLength + 1);
        readPos := readPos + 1;
        stats := stats.(resyncEvents := stats.resyncEvents + 1);
        assert Pending() == p[1..];
        done' := StepRefuse(all, done, p, latestTS, now);
        return;
      }
      latestTS := ts;
      readPos := readPos + expectedSize;
      stats := stats.(framesCompleted := stats.framesCompleted + 1);
      records := records + [ins];
      assert Pending() == p[expectedSize..];
      done' := StepDeliver(all, done, p, old(latestTS), now);
    }

    /** Where the next byte would go, once compaction made all the room it can. */
    ghost function WriteIndex(n: nat): (w: nat)
      requires Valid()
      reads this, buf
    {
      if writePos + n > capacity && readPos > 0 && Available() < capacity / 4 then Available() else writePos
    }

    /**
     Takes bytes in and reads all the records they complete. Bytes that do not fit are refused;
     then only the last few of the pending bytes are kept, so many as a part of a record can be.
     */
    method Feed(data: seq<byte>, now: nat) returns (ok: bool)
      requires Valid()
      modifies this`readPos, this`writePos, this`latestTS, this`stats, this`records, buf
      ensures Valid()
      ensures ok <==> data == [] || old(WriteIndex(|data|)) + |data| <= capacity
      ensures data == [] ==>
        Pending() == old(Pending()) && latestTS == old(latestTS) && records == old(records) && stats == old(stats)
      ensures ok && data != [] ==>
        Holds(Scan(old(Pending()) + data, old(latestTS), now), old(records),
              old(stats).(bytesFed := old(stats).bytesFed + |data|))
      ensures !ok ==>
        && latestTS == old(latestTS) && records == old(records)
        && stats == old(stats).(overruns := old(stats).overruns + 1)
        && |Pending()| == old(WriteIndex(|data|)) % INS_FRAME_SIZE && Pending() == LastOf(old(Pending()), |Pending()|)
      ensures Steady(old(records), old(latestTS)) ==> Steady(records, latestTS)
      ensures old(records) <= records
      ensures ReadFrom(old(Pending()) + if ok then data else [], Pending(), records[|old(records)|..])
    {
      hide Scan, CountedIn, Steady, ReadFrom;
      NothingRead(Pending(), records);
      if |data| == 0 {
        return true;
      }
      if writePos + |data| > capacity {
        CompactIfNeeded();
        if writePos + |data| > capacity {
          stats := stats.(overruns := stats.overruns + 1);
          KeepLast(writePos % expectedSize);
          KeptIsRead(old(Pending()), Pending(), records);
          return false;
        }
      }
      Append(data);
      stats := stats.(bytesFed := stats.bytesFed + |data|);
      SteadyAfter(records, Pending(), latestTS, now);
      Process(now);
      return true;
    }

    /** Copies the last n written bytes to the front and forgets the others. */
    method KeepLast(n: nat)
      requires Valid() && n <= Available()
      modifies this`readPos, this`writePos, buf
      ensures Valid() && |Pending()| == n && Pending() == LastOf(old(Pending()), n)
    {
      var from := writePos - n;
      forall i | 0 <= i < n {
        buf[i] := buf[from + i];
      }
      assert buf[..n] == old(buf[from..writePos]);
      readPos := 0;
      writePos := n;
    }

    /** Writes bytes behind the pending ones. */
    method Append(data: seq<byte>)
      requires Valid() && writePos + |data| <= capacity
      modifies this`writePos, buf
      ensures Valid() && Pending() == old(Pending()) + data && writePos == old(writePos) + |data|
    {
      forall i | 0 <= i < |data| {
        buf[writePos + i] := data[i];
      }
      writePos := writePos + |data|;
      assert buf[readPos..writePos - |data|] == old(buf[readPos..writePos]);
      assert buf[writePos - |data|..writePos] == data;
    }

    /** After the first bytes p of a clean stream: every record they complete was handed on, nothing went wrong. */
    ghost predicate CleanSoFar(frames: seq<seq<byte>>, p: seq<byte>, latest: nat, handed: seq<INSData>, base: INSStats)
      requires Valid() && Sized(frames)
      reads this, buf
    {
      var n := |p| / INS_FRAME_SIZE;
      && n <= |frames| && records == handed + AllFields(frames)[..n]
      && Pending() == p[n * INS_FRAME_SIZE..] && latestTS == LatestAfter(AllFields(frames), n, latest)
      && stats == base.(bytesFed := base.bytesFed + |p|, framesCompleted := base.framesCompleted + n)
    }

    /** One portion of a clean stream. */
    method FeedClean(data: seq<byte>, now: nat, ghost frames: seq<seq<byte>>, ghost p: seq<byte>,
                     ghost latest: nat, ghost handed: seq<INSData>, ghost base: INSStats)
      requires Valid() && Sized(frames) && CleanSoFar(frames, p, latest, handed, base)
      requires CleanRecords(frames, latest, now) && p + data <= Flatten(frames) && |data| <= 993
      modifies this`readPos, this`writePos, this`latestTS, this`stats, this`records, buf
      ensures Valid() && CleanSoFar(frames, p + data, latest, handed, base)
    {
      hide Scan, CleanRecords, Flatten, Chained;
      CleanStep(frames, p, data, latest, now);
      ghost var n, m := |p| / INS_FRAME_SIZE, |p + data| / INS_FRAME_SIZE;
      ghost var all := AllFields(frames);
      assert |Pending()| < INS_FRAME_SIZE;
      var ok := Feed(data, now);
      assert ok;
      if data == [] {
        assert p + data == p;
      } else {
        assert handed + all[..n] + all[n..m] == handed + all[..m];
      }
    }
  }

  lemma NothingRead(pending: seq<byte>, records: seq<INSData>)
    ensures ReadFrom(pending, pending, records[|records|..]) && pending + [] == pending
  {
    NothingSent(pending[..0]);
    assert records[|records|..] == [] && pending[0..] == pending;
  }

  lemma KeptIsRead(pending: seq<byte>, kept: seq<byte>, records: seq<INSData>)
    requires kept == LastOf(pending, |kept|) && |kept| <= |pending|
    ensures ReadFrom(pending + [], kept, records[|records|..])
  {
    NothingSent(pending[..|pending| - |kept|]);
    assert pending + [] == pending && records[|records|..] == [];
  }

  lemma SteadyAfter(records: seq<INSData>, s: seq<byte>, latest: nat, now: nat)
    ensures var r := Scan(s, latest, now);
      Steady(records, latest) ==> Steady(records + r.records, r.latest)
  {
    hide Scan, Steady, Chained;
    RecordsAreChained(s, latest, now);
    if Steady(records, latest) {
      SteadyChained(records, latest, Scan(s, latest, now).records, now);
    }
  }

  /** Up to the feed that brings the first record, the clock reads `now`; what it reads later does not matter. */
  ghost predicate ClockAgrees(chunks: seq<seq<byte>>, nows: seq<nat>, latest: nat, now: nat)
    requires |nows| == |chunks|
  {
    forall k :: 0 <= k < |nows| && Scan(Flatten(chunks[..k]), latest, now).latest == 0 ==> nows[k] == now
  }

  /**
   The receive loop; taken says which portions were not refused.  Whatever arrives, in whatever portions and under
   whatever clock, each record handed on has its own 32 bytes in the portions taken in, in order, and they say what it
   says; and the history of accepted records stays steady.  Without an overrun the portions do not matter either: the records are those of one reading
   of all the bytes, under every clock once a record was accepted, and else under the clock of the feeds up to the
   first record.
   */
  method Receive(a: INSSafeProcessor, chunks: seq<seq<byte>>, nows: seq<nat>) returns (taken: seq<bool>)
    requires a.Valid() && a.Pending() == [] && |nows| == |chunks|
    modifies a, a.buf
    ensures a.Valid() && a.stats.overruns >= old(a.stats.overruns)
    ensures |taken| == |chunks| && (a.stats.overruns == old(a.stats.overruns) ==> Taken(chunks, taken) == chunks)
    ensures old(a.records) <= a.records
    ensures ReadFrom(Flatten(Taken(chunks, taken)), a.Pending(), a.records[|old(a.records)|..])
    ensures Steady(old(a.records), old(a.latestTS)) ==> Steady(a.records, a.latestTS)
    ensures a.stats.overruns == old(a.stats.overruns) ==>
      forall now :: old(a.latestTS) > 0 || ClockAgrees(chunks, nows, old(a.latestTS), now) ==>
        var r := Scan(Flatten(chunks), old(a.latestTS), now);
        a.records == old(a.records) + r.records && a.Pending() == r.rest && a.latestTS == r.latest
  {
    hide Scan, Steady, Flatten, ReadFrom, Taken;
    ghost var latest, handed := a.latestTS, a.records;
    FlattenNone(chunks);
    taken := [];
    TakenNone(chunks, a.records);
    forall now | Believed(chunks, nows, latest, now)
      ensures ReadSoFar(a, Scan(Flatten(chunks[..0]), latest, now), handed)
    {
      ShortIsKept(Flatten(chunks[..0]), latest, now);
    }
    var i := 0;
    while i < |chunks|
      invariant 0 <= i <= |chunks| && a.Valid() && a.stats.overruns >= old(a.stats.overruns)
      invariant Steady(handed, latest) ==> Steady(a.records, a.latestTS)
      invariant |taken| == i && handed <= a.records
      invariant a.stats.overruns == old(a.stats.overruns) ==> Taken(chunks[..i], taken) == chunks[..i]
      invariant ReadFrom(Flatten(Taken(chunks[..i], taken)), a.Pending(), a.records[|handed|..])
      invariant a.stats.overruns == old(a.stats.overruns) ==>
        forall now :: Believed(chunks, nows, latest, now) ==> ReadSoFar(a, Scan(Flatten(chunks[..i]), latest, now), handed)
    {
      FlattenTake(chunks, i);
      ghost var p := Flatten(chunks[..i]);
      forall now | Believed(chunks, nows, latest, now) {
        PortionRead(chunks, nows, latest, now, i);
      }
      ghost var before, pending := a.records, a.Pending();
      var ok := a.Feed(chunks[i], nows[i]);
      TakenNext(chunks, taken, i, ok, pending, a.Pending(), before[|handed|..], a.records[|before|..]);
      taken := taken + [ok];
      assert before[|handed|..] + a.records[|before|..] == a.records[|handed|..];
      forall now | Believed(chunks, nows, latest, now) && a.stats.overruns == old(a.stats.overruns)
        ensures ReadSoFar(a, Scan(Flatten(chunks[..i + 1]), latest, now), handed)
      {
        if chunks[i] == [] {
          assert p + chunks[i] == p;
        }
      }
      i := i + 1;
    }
    assert chunks[..i] == chunks;
    forall now | latest > 0 || ClockAgrees(chunks, nows, latest, now)
      ensures ReadSoFar(a, Scan(Flatten(chunks), latest, now), handed) || a.stats.overruns != old(a.stats.overruns)
    {
      assert Believed(chunks, nows, latest, now);
    }
  }

  /** The portions that were taken in. */
  function Taken(chunks: seq<seq<byte>>, taken: seq<bool>): seq<seq<byte>>
    requires |taken| == |chunks|
  {
    if chunks == [] then []
    else
      var n := |chunks| - 1;
      Taken(chunks[..n], taken[..n]) + if taken[n] then [chunks[n]] else []
  }

  lemma TakenNone(chunks: seq<seq<byte>>, records: seq<INSData>)
    ensures Taken(chunks[..0], []) == chunks[..0]
    ensures ReadFrom(Flatten(Taken(chunks[..0], [])), [], records[|records|..])
  {
    NothingRead([], records);
  }

  /** One portion more: if it is taken, its bytes come behind those before. */
  lemma TakenNext(chunks: seq<seq<byte>>, taken: seq<bool>, i: nat, ok: bool, pending: seq<byte>, pending': seq<byte>,
                  records: seq<INSData>, more: seq<INSData>)
    requires i < |chunks| && |taken| == i
    requires ReadFrom(Flatten(Taken(chunks[..i], taken)), pending, records)
    requires ReadFrom(pending + if ok then chunks[i] else [], pending', more)
    ensures ok && Taken(chunks[..i], taken) == chunks[..i] ==> Taken(chunks[..i + 1], taken + [ok]) == chunks[..i + 1]
    ensures ReadFrom(Flatten(Taken(chunks[..i + 1], taken + [ok])), pending', records + more)
  {
    hide ReadFrom, Flatten;
    var was, now := Taken(chunks[..i], taken), Taken(chunks[..i + 1], taken + [ok]);
    assert chunks[..i + 1][..i] == chunks[..i] && (taken + [ok])[..i] == taken;
    assert now == was + if ok then [chunks[i]] else [];
    if ok {
      FlattenSnoc(was, chunks[i]);
    } else {
      assert Flatten(was) + [] == Flatten(was) && was + [] == was;
    }
    ReadOn(Flatten(was), pending, records, if ok then chunks[i] else [], pending', more);
  }

  ghost predicate Believed(chunks: seq<seq<byte>>, nows: seq<nat>, latest: nat, now: nat)
    requires |nows| == |chunks|
  {
    latest > 0 || ClockAgrees(chunks, nows, latest, now)
  }

  /** Portion i, read behind the ones before, under the clock of its own feed. */
  lemma PortionRead(chunks: seq<seq<byte>>, nows: seq<nat>, latest: nat, now: nat, i: nat)
    requires |nows| == |chunks| && Believed(chunks, nows, latest, now) && i < |chunks|
    ensures var p := Flatten(chunks[..i]);
      var first := Scan(p, latest, now);
      Scan(p + chunks[i], latest, now) == Then(first, Scan(first.rest + chunks[i], first.latest, nows[i]))
  {
    hide Scan, Flatten;
    var p := Flatten(chunks[..i]);
    var first := Scan(p, latest, now);
    ScanCompose(p, chunks[i], latest, now);
    if latest > 0 {
      ScanClockFree(p, latest, now, now);
    }
    if first.latest > 0 {
      ScanClockFree(first.rest + chunks[i], first.latest, now, nows[i]);
    }
  }

  ghost predicate ReadSoFar(a: INSSafeProcessor, r: Reading, handed: seq<INSData>)
    requires a.Valid()
    reads a, a.buf
  {
    a.records == handed + r.records && a.Pending() == r.rest && a.latestTS == r.latest
  }

  /** Every clean stream in portions of up to 993 bytes is delivered record by record, and nothing else happens. */
  method ReceiveRecords(a: INSSafeProcessor, chunks: seq<seq<byte>>, nows: seq<nat>, ghost frames: seq<seq<byte>>)
    requires a.Valid() && a.Pending() == [] && |nows| == |chunks|
    requires forall k :: 0 <= k < |chunks| ==> |chunks[k]| <= 993
    requires Sized(frames) && Flatten(chunks) == Flatten(frames)
    requires forall k :: 0 <= k < |nows| ==> CleanRecords(frames, a.latestTS, nows[k])
    modifies a, a.buf
    ensures a.Valid() && a.Pending() == [] && a.records == old(a.records) + AllFields(frames)
    ensures a.stats == old(a.stats).(bytesFed := old(a.stats).bytesFed + |Flatten(frames)|,
                                     framesCompleted := old(a.stats).framesCompleted + |frames|)
  {
    hide CleanRecords, Flatten;
    FlattenSized([]);
    ghost var latest, handed, base := a.latestTS, a.records, a.stats;
    assert chunks[..0] == [];
    var i := 0;
    while i < |chunks|
      invariant 0 <= i <= |chunks|
      invariant a.Valid() && a.CleanSoFar(frames, Flatten(chunks[..i]), latest, handed, base)
    {
      FlattenTake(chunks, i);
      FlattenPrefix(chunks, i + 1);
      a.FeedClean(chunks[i], nows[i], frames, Flatten(chunks[..i]), latest, handed, base);
      i := i + 1;
    }
    assert chunks[..i] == chunks;
    FlattenSized(frames);
  }

  lemma {:induction false} FlattenSized(frames: seq<seq<byte>>)
    requires Sized(frames)
    ensures |Flatten(frames)| == |frames| * INS_FRAME_SIZE
  {
    if frames != [] {
      FlattenSized(frames[..|frames| - 1]);
    }
  }

  function LastOf(s: seq<byte>, n: nat): seq<byte> {
    if n <= |s| then s[|s| - n..] else s
  }

  /** The counters after the jumps and deliveries of a reading. */
  function Tally(stats: INSStats, r: Reading): INSStats {
    stats.(framesCompleted := stats.framesCompleted + |r.records|,
           resyncEvents := stats.resyncEvents + r.skipped + r.invalid,
           invalidLength := stats.invalidLength + r.invalid,
           badTimestamp := stats.badTimestamp + r.skipped)
  }

  /** The counters after a reading: where reading got stuck, one more bad timestamp is counted. */
  function CountedIn(stats: INSStats, r: Reading): INSStats {
    var t := Tally(stats, r);
    if |r.rest| >= INS_FRAME_SIZE then t.(badTimestamp := t.badTimestamp + 1) else t
  }
}
