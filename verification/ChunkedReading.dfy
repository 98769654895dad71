/**
 What the assembler makes of a list of chunks, told by the chunks alone, the size its buffer holds four times (maxSize)
 and the longest frame let through (limit): where its resets fall, what is thrown away, which frames are delivered.  It
 is what the machine does as long as the handler accepts the frames (AssemblerRuns.Receive), and nothing in it needs the
 machine to be run.
 */
module ChunkedReading {
  import opened Bytes
  import opened SonarStream
  import opened AssemblerHistory
  import opened ResetFrames
  import opened ManyResets

  datatype Reading = Reading(
    closed: seq<seq<byte>>,  // the streams ended by a reset, oldest first
    fed: seq<byte>,          // the bytes since the last reset
    end: int,                // where writing stands in the buffer
    overruns: nat)           // how many of the resets were overruns
  {
    ghost function Pending(limit: nat): int {
      |fed| - Standing(fed, limit)
    }

    /** Where writing stops once n more bytes are in. */
    ghost function EndAfter(n: nat, maxSize: nat, limit: nat): int {
      var pending := Pending(limit);
      if end + n > 4 * maxSize && pending < end && pending < maxSize then pending + n else end + n
    }

    /** Every frame delivered so far. */
    function Frames(limit: nat): seq<seq<byte>> {
      AllFrames(closed + [fed], limit)
    }
  }

  const NOTHING_READ := Reading([], [], 0, 0)

  /** One more chunk: no room makes an overrun; past half the buffer, a barren stream is given up. */
  ghost function Next(r: Reading, chunk: seq<byte>, maxSize: nat, limit: nat): Reading {
    var end := r.EndAfter(|chunk|, maxSize, limit);
    if chunk == [] then r
    else if end > 4 * maxSize then Reading(r.closed + [r.fed], [], 0, r.overruns + 1)
    else if end > 2 * maxSize && Barren(r.fed + chunk, limit) then
      Reading(r.closed + [r.fed + chunk], [], 0, r.overruns)
    else Reading(r.closed, r.fed + chunk, end, r.overruns)
  }

  ghost function Reads(r: Reading, chunks: seq<seq<byte>>, maxSize: nat, limit: nat): Reading {
    if chunks == [] then r
    else Next(Reads(r, chunks[..|chunks| - 1], maxSize, limit), chunks[|chunks| - 1], maxSize, limit)
  }

  lemma ReadsTake(r: Reading, chunks: seq<seq<byte>>, maxSize: nat, limit: nat, i: nat)
    requires i < |chunks|
    ensures Reads(r, chunks[..i + 1], maxSize, limit) == Next(Reads(r, chunks[..i], maxSize, limit), chunks[i], maxSize, limit)
  {
    assert chunks[..i + 1][..i] == chunks[..i];
  }

  lemma ReadsNone(r: Reading, chunks: seq<seq<byte>>, maxSize: nat, limit: nat)
    ensures Reads(r, chunks[..0], maxSize, limit) == r
  {
  }

  // ---------- Frames are delivered for good ----------

  /** A reset takes no frame back; what is delivered is what the chunk adds to the stream, if it fits. */
  lemma NextFrames(r: Reading, chunk: seq<byte>, maxSize: nat, limit: nat)
    ensures Next(r, chunk, maxSize, limit).Frames(limit)
         == if r.EndAfter(|chunk|, maxSize, limit) > 4 * maxSize then r.Frames(limit)
            else AllFrames(r.closed + [r.fed + chunk], limit)
  {
    hide Parse, FramesOf, AllFrames, Standing, Barren;
    assert chunk == [] ==> r.fed + chunk == r.fed;
    AllSnoc(r.closed + [r.fed], [], limit);
    AllSnoc(r.closed + [r.fed + chunk], [], limit);
    NothingInNothing(limit);
  }

  lemma NextGrows(r: Reading, chunk: seq<byte>, maxSize: nat, limit: nat)
    ensures r.Frames(limit) <= Next(r, chunk, maxSize, limit).Frames(limit)
    ensures r.overruns <= Next(r, chunk, maxSize, limit).overruns
  {
    hide Parse, FramesOf, AllFrames, Standing, Barren;
    var s := r.fed + chunk;
    assert s == Extend(r.fed, chunk);
    ParseGrows(r.fed, chunk, limit, 0);
    FramesOfPrefix(Parse(r.fed, limit, 0), Parse(s, limit, 0));
    AllSnoc(r.closed, r.fed, limit);
    AllSnoc(r.closed, s, limit);
    NextFrames(r, chunk, maxSize, limit);
  }

  lemma NothingInNothing(limit: nat)
    ensures FramesOf(Parse([], limit, 0)) == []
  {
  }

  lemma {:induction false} ReadsGrow(r: Reading, chunks: seq<seq<byte>>, maxSize: nat, limit: nat, i: nat)
    requires i <= |chunks|
    ensures Reads(r, chunks[..i], maxSize, limit).Frames(limit) <= Reads(r, chunks, maxSize, limit).Frames(limit)
    ensures Reads(r, chunks[..i], maxSize, limit).overruns <= Reads(r, chunks, maxSize, limit).overruns
    decreases |chunks|
  {
    hide Next;
    if i == |chunks| {
      assert chunks[..i] == chunks;
    } else {
      var n := |chunks| - 1;
      ReadsGrow(r, chunks[..n], maxSize, limit, i);
      assert chunks[..n][..i] == chunks[..i];
      NextGrows(Reads(r, chunks[..n], maxSize, limit), chunks[n], maxSize, limit);
    }
  }

  // ---------- Without overruns ----------

  /** One more chunk, if it does not overrun the buffer. */
  lemma NextAll(r: Reading, chunk: seq<byte>, maxSize: nat, limit: nat)
    requires AllBarren(r.closed, limit) && Next(r, chunk, maxSize, limit).overruns == r.overruns
    ensures var r' := Next(r, chunk, maxSize, limit);
      Flatten(r'.closed) + r'.fed == Flatten(r.closed) + r.fed + chunk && AllBarren(r'.closed, limit)
  {
    hide Barren, Standing, Flatten;
    var s := r.fed + chunk;
    assert Flatten(r.closed) + s == Flatten(r.closed) + r.fed + chunk;
    FlattenSnoc(r.closed, s);
  }

  /** Without an overrun every byte is in some stream, and every stream that was closed was barren. */
  lemma {:induction false} ReadsAll(chunks: seq<seq<byte>>, maxSize: nat, limit: nat)
    requires Reads(NOTHING_READ, chunks, maxSize, limit).overruns == 0
    ensures var r := Reads(NOTHING_READ, chunks, maxSize, limit);
      Flatten(r.closed) + r.fed == Flatten(chunks) && AllBarren(r.closed, limit)
  {
    hide Next, Barren;
    if chunks != [] {
      var n := |chunks| - 1;
      var r := Reads(NOTHING_READ, chunks[..n], maxSize, limit);
      NextGrows(r, chunks[n], maxSize, limit);
      ReadsAll(chunks[..n], maxSize, limit);
      NextAll(r, chunks[n], maxSize, limit);
    }
  }

  /** Reading the chunks overruns nothing and leaves no frame across a reset. */
  ghost predicate Harmless(chunks: seq<seq<byte>>, maxSize: nat, limit: nat) {
    var r := Reads(NOTHING_READ, chunks, maxSize, limit);
    r.overruns == 0 && NothingAcross(r.closed, r.fed, limit)
  }

  /**
   The chunking does not matter: without an overrun, and with no frame across a reset, the frames delivered are those
   of all the bytes read at once.
   */
  lemma ChunksDoNotMatter(chunks: seq<seq<byte>>, maxSize: nat, limit: nat)
    requires Harmless(chunks, maxSize, limit)
    ensures Reads(NOTHING_READ, chunks, maxSize, limit).Frames(limit)
         == FramesOf(Parse(Flatten(chunks), limit, 0))
  {
    hide NothingAcross, Reads, Parse, Barren;
    var r := Reads(NOTHING_READ, chunks, maxSize, limit);
    ReadsAll(chunks, maxSize, limit);
    ResetsAreHarmless(r.closed, r.fed, limit);
  }

  /**
   Exactly then: which stretches of the bytes are delivered as frames is what reading them at once gives, whatever
   follows, if and only if no frame lies across a reset.
   */
  lemma ChunksDoNotMatterIff(chunks: seq<seq<byte>>, maxSize: nat, limit: nat)
    requires var r := Reads(NOTHING_READ, chunks, maxSize, limit); r.overruns == 0 && |r.fed| >= 5
    ensures var r := Reads(NOTHING_READ, chunks, maxSize, limit);
      Harmless(chunks, maxSize, limit) <==>
        forall t: seq<byte> {:trigger Extend(r.fed, t)} ::
          Deliveries(Parse(Extend(Flatten(chunks), t), limit, 0)) == DeliveriesApart(r.closed, Extend(r.fed, t), limit)
  {
    hide NothingAcross, Reads, Parse, AllBarren, Deliveries, DeliveriesApart;
    var r := Reads(NOTHING_READ, chunks, maxSize, limit);
    ReadsAll(chunks, maxSize, limit);
    RunDeliveriesAgreeIff(r.closed, r.fed, limit);
    forall t: seq<byte> ensures Extend(Flatten(chunks), t) == Flatten(r.closed) + Extend(r.fed, t) {
      assert Flatten(r.closed) + r.fed + t == Flatten(r.closed) + (r.fed + t);
    }
  }

  // ---------- When there is no overrun ----------

  /** Bytes that are not barren leave less than a frame pending. */
  lemma PendingSmall(s: seq<byte>, limit: nat)
    requires !Barren(s, limit)
    ensures var pending := |s| - Standing(s, limit);
      pending < SYNC_WORD_SIZE || pending < HEADER_SIZE || pending < limit
  {
    hide Parse, BE32;
    var trace := Parse(s, limit, 0);
    var end := TraceEnd(trace);
    var q := SyncFrom(s, end);
    if q < |s| {
      ParseResumes(s, limit, 0, trace);
      NoSyncBefore(s, end);
      ParseSkip(s, limit, end, q);
      assert trace == trace + Parse(s, limit, q);
      NothingComplete(s, limit, q);
    } else {
      NoSyncBefore(s, end);
    }
  }

  lemma {:induction false} NoSyncBefore(s: seq<byte>, i: nat)
    ensures NoSync(s, i, SyncFrom(s, i))
    decreases |s| - i
  {
    if i < |s| && !SyncAt(s, i) {
      NoSyncBefore(s, i + 1);
    }
  }

  lemma NothingComplete(s: seq<byte>, limit: nat, q: nat)
    requires SyncAt(s, q) && Parse(s, limit, q) == []
    ensures |s| - q < HEADER_SIZE || |s| - q < limit
  {
  }

  /** A reading past half the buffer holds something that is not barren. */
  ghost predicate Sound(r: Reading, maxSize: nat, limit: nat) {
    r.end > 2 * maxSize ==> !Barren(r.fed, limit)
  }

  lemma {:induction false} ReadsSound(r: Reading, chunks: seq<seq<byte>>, maxSize: nat, limit: nat)
    requires Sound(r, maxSize, limit)
    ensures Sound(Reads(r, chunks, maxSize, limit), maxSize, limit)
  {
    hide Barren, Standing;
    if chunks != [] {
      ReadsSound(r, chunks[..|chunks| - 1], maxSize, limit);
    }
  }

  /** Chunks of up to half the buffer never overrun it. */
  lemma {:induction false} HalfNeverOverruns(r: Reading, chunks: seq<seq<byte>>, maxSize: nat, limit: nat)
    requires Sound(r, maxSize, limit) && HEADER_SIZE <= maxSize && limit <= maxSize
    requires forall k :: 0 <= k < |chunks| ==> |chunks[k]| <= 2 * maxSize
    ensures Reads(r, chunks, maxSize, limit).overruns == r.overruns
  {
    hide Barren, Standing;
    if chunks != [] {
      var n := |chunks| - 1;
      HalfNeverOverruns(r, chunks[..n], maxSize, limit);
      ReadsSound(r, chunks[..n], maxSize, limit);
      var r' := Reads(r, chunks[..n], maxSize, limit);
      if r'.end > 2 * maxSize {
        PendingSmall(r'.fed, limit);
      }
    }
  }

  /** Up to half the buffer nothing is ever reset, whatever the chunks. */
  lemma {:induction false} WithinHalf(chunks: seq<seq<byte>>, maxSize: nat, limit: nat)
    requires |Flatten(chunks)| <= 2 * maxSize
    ensures Reads(NOTHING_READ, chunks, maxSize, limit) == Reading([], Flatten(chunks), |Flatten(chunks)|, 0)
  {
    hide Barren, Standing;
    if chunks != [] {
      WithinHalf(chunks[..|chunks| - 1], maxSize, limit);
    }
  }
}
