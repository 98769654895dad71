/** The checks between the assembler and the decoder, and what they leave for each other to catch. */
module FrameCheck {
  import opened Bytes
  import opened SonarStream
  import opened AssemblerHistory
  import opened SonarPacket
  import opened Assembler
  import opened AssemblerRuns
  import opened ResetLaws

  const ASSUMED_BEAM_SIZE := 10
  const MAX_CONSECUTIVE_ERRORS := 10
  const SAFE_MAX := HEADER_SIZE + MAX_BEAM_COUNT * ASSUMED_BEAM_SIZE

  datatype Check = Valid | TooShort | WrongSync | LengthMismatch | BeamCount | TruncatedBeams | TooLong
                 | DecodeError(error: Decoded<SonarPing>)

  function BeamCountOf(frame: seq<byte>): nat
    requires |frame| >= HEADER_SIZE
  {
    BE16(frame, 18)
  }

  function ValidateSonarFrame(frame: seq<byte>): Check {
    if |frame| < HEADER_SIZE then TooShort
    else if BE32(frame, 0) != SYNC_MAGIC then WrongSync
    else if BE16(frame, 4) != |frame| then LengthMismatch
    else if BeamCountOf(frame) > MAX_BEAM_COUNT then BeamCount
    else if |frame| < HEADER_SIZE + BeamCountOf(frame) * ASSUMED_BEAM_SIZE then TruncatedBeams
    else Valid
  }

  /** The checks made before a delivered frame is decoded. */
  function SafeCheck(frame: seq<byte>): Check {
    if |frame| < HEADER_SIZE then TooShort
    else if BE16(frame, 4) != |frame| then LengthMismatch
    else if BeamCountOf(frame) > MAX_BEAM_COUNT then BeamCount
    else if |frame| < HEADER_SIZE + BeamCountOf(frame) * ASSUMED_BEAM_SIZE then TruncatedBeams
    else if |frame| > SAFE_MAX then TooLong
    else Valid
  }

  /** What the consumer makes of a frame, as a function of its bytes. */
  function Outcome(frame: seq<byte>): Check {
    var c := SafeCheck(frame);
    if c != Valid then c
    else if DecodeResult(frame).Ping? then Valid
    else DecodeError(DecodeResult(frame))
  }

  // ---------- The consumer ----------

  /** The error counter and the number of resets asked for, after n more errors. */
  datatype Errors = Errors(count: nat, resets: nat)
  {
    function After(n: nat): Errors {
      Errors((count + n) % (MAX_CONSECUTIVE_ERRORS + 1), resets + (count + n) / (MAX_CONSECUTIVE_ERRORS + 1))
    }
  }

  /** How many errors a frame makes: its refusal is reported back once more, and a failed decode was counted before. */
  function ErrorsOf(frame: seq<byte>): nat {
    if Outcome(frame) == Valid then 0 else if Outcome(frame).DecodeError? then 2 else 1
  }

  /** The errors after a list of frames; a frame that decodes clears the counter. */
  function ErrorsAfter(e: Errors, frames: seq<seq<byte>>): Errors {
    if frames == [] then e
    else
      var prev, f := ErrorsAfter(e, frames[..|frames| - 1]), frames[|frames| - 1];
      if Outcome(f) == Valid then prev.(count := 0) else prev.After(ErrorsOf(f))
  }

  /** The pings of the frames that pass and decode. */
  function PingsOf(frames: seq<seq<byte>>): seq<SonarPing> {
    if frames == [] then []
    else
      var f := frames[|frames| - 1];
      PingsOf(frames[..|frames| - 1]) + if Outcome(f) == Valid then [DecodeResult(f).value] else []
  }

  class SafeFrameProcessor {
    var errorCount: nat
    /** How often the assembler was asked to reset. */
    var resets: nat
    /** The pings handed on. */
    var pings: seq<SonarPing>

    constructor ()
      ensures errorCount == 0 && resets == 0 && pings == []
    {
      errorCount, resets, pings := 0, 0, [];
    }

    function ErrorState(): Errors
      reads this
    {
      Errors(errorCount, resets)
    }

    /** One more error; the eleventh in a row asks for a reset and clears the counter. */
    method HandleAssemblerError()
      requires errorCount <= MAX_CONSECUTIVE_ERRORS
      modifies this`errorCount, this`resets
      ensures errorCount <= MAX_CONSECUTIVE_ERRORS && ErrorState() == old(ErrorState()).After(1)
    {
      errorCount := errorCount + 1;
      if errorCount > MAX_CONSECUTIVE_ERRORS {
        resets := resets + 1;
        errorCount := 0;
      }
    }

    method HandleValidFrame(frame: seq<byte>) returns (r: Check)
      requires errorCount <= MAX_CONSECUTIVE_ERRORS
      modifies this
      ensures errorCount <= MAX_CONSECUTIVE_ERRORS && r == Outcome(frame)
      ensures r == Valid ==> pings == old(pings) + [DecodeResult(frame).value] && errorCount == 0 && resets == old(resets)
      ensures r.DecodeError? ==> pings == old(pings) && ErrorState() == old(ErrorState()).After(1)
      ensures r != Valid && !r.DecodeError? ==> unchanged(this)
    {
      if |frame| < HEADER_SIZE {
        return TooShort;
      }
      var statedLen := BE16(frame, 4);
      if statedLen != |frame| {
        return LengthMismatch;
      }
      var numBeams := BE16(frame, 18);
      if numBeams > MAX_BEAM_COUNT {
        return BeamCount;
      }
      if |frame| < HEADER_SIZE + numBeams * ASSUMED_BEAM_SIZE {
        return TruncatedBeams;
      }
      if |frame| > SAFE_MAX {
        return TooLong;
      }
      var decoder := new SonarPacketDecoder(frame);
      var ping := decoder.Decode();
      if !ping.Ping? {
        errorCount := errorCount + 1;
        if errorCount > MAX_CONSECUTIVE_ERRORS {
          resets := resets + 1;
          errorCount := 0;
        }
        return DecodeError(ping);
      }
      errorCount := 0;
      pings := pings + [ping.value];
      return Valid;
    }

    /** A frame as the assembler delivers it: an error of the handler is reported back to the error handler. */
    method HandleDelivered(frame: seq<byte>) returns (ok: bool)
      requires errorCount <= MAX_CONSECUTIVE_ERRORS
      modifies this
      ensures errorCount <= MAX_CONSECUTIVE_ERRORS && ok == (Outcome(frame) == Valid)
      ensures pings == old(pings) + if ok then [DecodeResult(frame).value] else []
      ensures ErrorState() == if ok then old(ErrorState()).(count := 0) else old(ErrorState()).After(ErrorsOf(frame))
    {
      hide Outcome, DecodeResult;
      var r := HandleValidFrame(frame);
      ok := r == Valid;
      if !ok {
        HandleAssemblerError();
      }
    }

    /** All frames of a run, in the order they are delivered. */
    method HandleAll(frames: seq<seq<byte>>)
      requires errorCount <= MAX_CONSECUTIVE_ERRORS
      modifies this
      ensures errorCount <= MAX_CONSECUTIVE_ERRORS
      ensures pings == old(pings) + PingsOf(frames) && ErrorState() == ErrorsAfter(old(ErrorState()), frames)
    {
      hide Outcome, DecodeResult, ErrorsOf;
      var i := 0;
      assert frames[..0] == [] && pings == pings + [];
      while i < |frames|
        invariant 0 <= i <= |frames| && errorCount <= MAX_CONSECUTIVE_ERRORS
        invariant pings == old(pings) + PingsOf(frames[..i])
        invariant ErrorState() == ErrorsAfter(old(ErrorState()), frames[..i])
      {
        assert frames[..i + 1][..i] == frames[..i];
        var ok := HandleDelivered(frames[i]);
        i := i + 1;
      }
      assert frames[..i] == frames;
    }
  }

  lemma AfterTwice(e: Errors, m: nat, n: nat)
    requires e.count <= MAX_CONSECUTIVE_ERRORS
    ensures e.After(m).After(n) == e.After(m + n)
  {
    Carry(e.count + m, n);
  }

  lemma Carry(x: nat, n: nat)
    ensures (x % 11 + n) % 11 == (x + n) % 11 && x / 11 + (x % 11 + n) / 11 == (x + n) / 11
  {
    var q, r := x / 11, x % 11;
    assert x + n == 11 * q + (r + n);
  }

  /** A run of frames that all pass the checks and do not decode counts each of them twice. */
  lemma {:induction false} UndecodableRun(e: Errors, frames: seq<seq<byte>>)
    requires e.count <= MAX_CONSECUTIVE_ERRORS
    requires forall k :: 0 <= k < |frames| ==> Outcome(frames[k]).DecodeError?
    ensures ErrorsAfter(e, frames) == e.After(2 * |frames|)
  {
    hide Outcome;
    if frames == [] {
      assert e.After(0) == e;
    } else {
      var n := |frames| - 1;
      UndecodableRun(e, frames[..n]);
      AfterTwice(e, 2 * n, 2);
    }
  }

  /** From a cleared counter, the sixth such frame in a row is the first to ask for a reset. */
  lemma SixthAsksForReset(frames: seq<seq<byte>>, resets: nat)
    requires forall k :: 0 <= k < |frames| ==> Outcome(frames[k]).DecodeError?
    ensures ErrorsAfter(Errors(0, resets), frames).resets == resets + 2 * |frames| / 11
    ensures ErrorsAfter(Errors(0, resets), frames).resets > resets <==> |frames| >= 6
  {
    hide Outcome;
    UndecodableRun(Errors(0, resets), frames);
  }

  // ---------- What the assembler already guarantees ----------

  /** Of a delivered frame the consumer never finds the length or the sync word wrong. */
  lemma DeliveredFrameChecks(frame: seq<byte>, limit: nat)
    requires WellFormed(frame, limit)
    ensures SafeCheck(frame) !in {TooShort, LengthMismatch}
    ensures ValidateSonarFrame(frame) !in {TooShort, WrongSync, LengthMismatch}
    ensures SafeCheck(frame) == Valid <==> ValidateSonarFrame(frame) == Valid && |frame| <= SAFE_MAX
    ensures Outcome(frame).DecodeError? ==> Outcome(frame).error == Truncated(FieldAt(|frame|))
  {
  }

  lemma EveryDeliveredFrame(a: SlidingWindowAssembler)
    requires a.Valid()
    ensures forall f :: f in a.frames ==> WellFormed(f, a.Limit()) && SafeCheck(f) !in {TooShort, LengthMismatch}
    ensures forall f :: f in a.frames ==> 40 <= |f| <= a.maxSize % 65536
  {
    forall f | f in a.frames
      ensures WellFormed(f, a.Limit()) && SafeCheck(f) !in {TooShort, LengthMismatch} && 40 <= |f| <= a.maxSize % 65536
    {
      var k :| 0 <= k < |a.frames| && a.frames[k] == f;
      assert AllWellFormed(a.frames, a.Limit());
      DeliveredFrameChecks(f, a.Limit());
    }
  }

  // ---------- Where checks and decoder disagree ----------

  /** What the decoder needs for n beams. */
  function DecoderNeeds(n: nat): nat {
    FIXED_SIZE + n * BEAM_SIZE
  }

  /** What the checks ask for n beams. */
  function ChecksNeed(n: nat): nat {
    HEADER_SIZE + n * ASSUMED_BEAM_SIZE
  }

  /** A delivered frame that the validator accepts decodes exactly when the decoder's own sizes fit. */
  lemma ValidatedDecodes(frame: seq<byte>, limit: nat)
    requires WellFormed(frame, limit) && ValidateSonarFrame(frame) == Valid
    ensures DecodeResult(frame).Ping? <==> |frame| >= DecoderNeeds(BeamCountOf(frame))
    ensures BeamCountOf(frame) <= 1 || BeamCountOf(frame) >= 6 ==> DecodeResult(frame).Ping?
  {
  }

  /** A delivered frame decodes although a check refuses it exactly when it has room for short beams but not for long
      ones, or, before decoding, when it is too long. */
  lemma RefusedThoughDecodable(frame: seq<byte>, limit: nat)
    requires WellFormed(frame, limit)
    ensures var n := BeamCountOf(frame);
      && (DecodeResult(frame).Ping? && ValidateSonarFrame(frame) != Valid <==>
            n <= 512 && 32 + 8 * n <= |frame| < 20 + 10 * n)
      && (DecodeResult(frame).Ping? && SafeCheck(frame) != Valid <==>
            n <= 512 && 32 + 8 * n <= |frame| && (|frame| < 20 + 10 * n || |frame| > 5140))
  {
  }

  /** A frame of the given size, all zeros behind its header, that says it has n beams. */
  function FrameOf(n: nat, size: nat): (frame: seq<byte>)
    requires n < TWO_16 && HEADER_SIZE <= size < TWO_16
    ensures |frame| == size
  {
    [0x53, 0x4F, 0x4E, 0x52, size / 256, size % 256] + Zeros(12) + [n / 256, n % 256] + Zeros(size - HEADER_SIZE)
  }

  lemma FrameOfHeader(n: nat, size: nat, limit: nat)
    requires n < TWO_16 && MIN_FRAME <= size <= limit && size < TWO_16
    ensures WellFormed(FrameOf(n, size), limit) && BeamCountOf(FrameOf(n, size)) == n
  {
    var f := FrameOf(n, size);
    assert f[0] == 0x53 && f[1] == 0x4F && f[2] == 0x4E && f[3] == 0x52;
    assert f[4] == size / 256 && f[5] == size % 256 && f[18] == n / 256 && f[19] == n % 256;
  }

  /** The shortest delivered frame the checks accept for n beams. */
  function ShortestChecked(n: nat): nat {
    if ChecksNeed(n) < MIN_FRAME then MIN_FRAME else ChecksNeed(n)
  }

  /** Exactly for two to five beams there are delivered frames that pass the checks and do not decode. */
  lemma CheckedButUndecodableIff(n: nat, limit: nat)
    ensures (exists frame :: WellFormed(frame, limit) && BeamCountOf(frame) == n
                             && SafeCheck(frame) == Valid && !DecodeResult(frame).Ping?)
            <==> 2 <= n <= 5 && ShortestChecked(n) <= limit
  {
    hide BE16, BE32, FrameOf;
    if 2 <= n <= 5 && ShortestChecked(n) <= limit {
      var f := FrameOf(n, ShortestChecked(n));
      FrameOfHeader(n, ShortestChecked(n), limit);
      DeliveredFrameChecks(f, limit);
      RefusedThoughDecodable(f, limit);
      ValidatedDecodes(f, limit);
    }
    forall frame | WellFormed(frame, limit) && BeamCountOf(frame) == n && SafeCheck(frame) == Valid && !DecodeResult(frame).Ping?
      ensures 2 <= n <= 5 && ShortestChecked(n) <= limit
    {
      DeliveredFrameChecks(frame, limit);
      ValidatedDecodes(frame, limit);
    }
  }

  /** Exactly for seven beams or more there are delivered frames that decode and that the validator refuses. */
  lemma RefusedThoughDecodableIff(n: nat, limit: nat)
    ensures (exists frame :: WellFormed(frame, limit) && BeamCountOf(frame) == n
                             && ValidateSonarFrame(frame) != Valid && DecodeResult(frame).Ping?)
            <==> 7 <= n <= MAX_BEAM_COUNT && DecoderNeeds(n) <= limit
  {
    hide BE16, BE32, FrameOf;
    if 7 <= n <= MAX_BEAM_COUNT && DecoderNeeds(n) <= limit {
      var f := FrameOf(n, DecoderNeeds(n));
      FrameOfHeader(n, DecoderNeeds(n), limit);
      RefusedThoughDecodable(f, limit);
    }
    forall frame | WellFormed(frame, limit) && BeamCountOf(frame) == n
                   && ValidateSonarFrame(frame) != Valid && DecodeResult(frame).Ping?
      ensures 7 <= n <= MAX_BEAM_COUNT && DecoderNeeds(n) <= limit
    {
      RefusedThoughDecodable(frame, limit);
    }
  }

  /** A packet of exactly its own size passes the checks with up to six beams; the assembler delivers it with one to six. */
  lemma OwnSizePackets(p: SonarPing, limit: nat)
    requires InRange(p) && p.packetLength == |Encode(p)|
    ensures SafeCheck(Encode(p)) == Valid <==> |p.beams| <= 6
    ensures WellFormed(Encode(p), limit) && SafeCheck(Encode(p)) == Valid <==> 1 <= |p.beams| <= 6 && |Encode(p)| <= limit
  {
    hide Encode, BE16, BE32;
    EncodedHeader(p, []);
    assert Encode(p) + [] == Encode(p);
  }

  /** The fields of a written ping that the checks look at. */
  lemma EncodedHeader(p: SonarPing, rest: seq<byte>)
    requires InRange(p)
    ensures |Encode(p)| == DecoderNeeds(|p.beams|)
    ensures var s := Encode(p) + rest;
      BE32(s, 0) == SYNC_MAGIC && BE16(s, 4) == p.packetLength && BeamCountOf(s) == |p.beams|
    ensures DecodeResult(Encode(p) + rest) == Ping(p)
  {
    hide BE16, BE32, Encode;
    DecodeEncoded(p, rest);
  }

  // ---------- From bytes to pings ----------

  /** The handler the processor installs: it fails exactly when the consumer does. */
  function SafeHandler(): (nat, seq<byte>) -> bool {
    (k: nat, frame: seq<byte>) => Outcome(frame) == Valid
  }

  /** Packets that pass and decode, one after the other, are all handed on and leave no error. */
  lemma {:induction false} PassedPings(packets: seq<seq<byte>>)
    requires forall k :: 0 <= k < |packets| ==> Outcome(packets[k]) == Valid
    ensures |PingsOf(packets)| == |packets|
    ensures forall k :: 0 <= k < |packets| ==> DecodeResult(packets[k]) == Ping(PingsOf(packets)[k])
    ensures ErrorsAfter(Errors(0, 0), packets) == Errors(0, 0)
  {
    hide DecodeResult;
    if packets != [] {
      PassedPings(packets[..|packets| - 1]);
    }
  }

  /** A ping and the bytes sent behind it make a frame that is delivered, passes the checks and decodes. */
  ghost predicate Sendable(p: SonarPing, padding: seq<byte>, limit: nat) {
    var size := DecoderNeeds(|p.beams|) + |padding|;
    && InRange(p) && p.packetLength == size && MIN_FRAME <= size <= limit
    && ChecksNeed(|p.beams|) <= size <= SAFE_MAX
  }

  lemma SendableIsPassed(p: SonarPing, padding: seq<byte>, limit: nat)
    requires Sendable(p, padding, limit)
    ensures var frame := Encode(p) + padding;
      WellFormed(frame, limit) && Outcome(frame) == Valid && DecodeResult(frame) == Ping(p)
  {
    hide Encode, BE16, BE32, InRange, DecodeResult;
    EncodedHeader(p, padding);
  }

  /**
   From bytes to pings.  Pings are written out, each with some bytes behind it, and sent in chunks of any kind.  The
   assembler delivers their frames, the consumer handles them in order, and hands on exactly the pings.
   */
  method ReceivePings(chunks: seq<seq<byte>>, max: int, ghost sent: seq<SonarPing>, ghost paddings: seq<seq<byte>>,
                      ghost packets: seq<seq<byte>>)
    returns (a: SlidingWindowAssembler, sp: SafeFrameProcessor)
    requires var size := if max <= 0 then MAX_FRAME_SIZE else max;
      && ChunksUpTo(chunks, 3 * size) && |packets| == |sent| == |paddings|
      && forall k :: 0 <= k < |sent| ==>
           Sendable(sent[k], paddings[k], size % TWO_16) && packets[k] == Encode(sent[k]) + paddings[k]
    requires Flatten(chunks) == Flatten(packets)
    ensures a.Valid() && a.frames == packets && a.Available() == 0
    ensures sp.pings == sent && sp.errorCount == 0 && sp.resets == 0
  {
    hide WellFormed, Outcome, Sendable, DecodeResult, Encode;
    ghost var limit := (if max <= 0 then MAX_FRAME_SIZE else max) % TWO_16;
    forall k | 0 <= k < |packets|
      ensures WellFormed(packets[k], limit) && Outcome(packets[k]) == Valid && DecodeResult(packets[k]) == Ping(sent[k])
    {
      SendableIsPassed(sent[k], paddings[k], limit);
    }
    a, sp := ReceivePackets(chunks, max, packets);
  }

  /** Packets that pass the checks come through the assembler whole, in any chunking, and each gives its ping. */
  method ReceivePackets(chunks: seq<seq<byte>>, max: int, ghost packets: seq<seq<byte>>)
    returns (a: SlidingWindowAssembler, sp: SafeFrameProcessor)
    requires var size := if max <= 0 then MAX_FRAME_SIZE else max;
      ChunksUpTo(chunks, 3 * size) && AllWellFormed(packets, size % TWO_16)
    requires forall k :: 0 <= k < |packets| ==> Outcome(packets[k]) == Valid
    requires Flatten(chunks) == Flatten(packets)
    ensures a.Valid() && a.frames == packets && a.Available() == 0
    ensures |sp.pings| == |packets| && sp.errorCount == 0 && sp.resets == 0
    ensures forall k :: 0 <= k < |packets| ==> DecodeResult(packets[k]) == Ping(sp.pings[k])
  {
    hide WellFormed, SafeCheck, DecodeResult;
    a := new SlidingWindowAssembler(max, SafeHandler());
    ReceiveClean(a, chunks, packets);
    sp := new SafeFrameProcessor();
    sp.HandleAll(a.frames);
    PassedPings(packets);
    assert [] + PingsOf(packets) == PingsOf(packets);
  }
}
