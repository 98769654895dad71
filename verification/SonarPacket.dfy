/** Sonar packets: their decoder, read bit by bit, and what it recovers from the bytes. */
module SonarPacket {
  import opened Bytes
  import opened IntFacts
  import opened Bits
  import opened BitReader
  import SonarStream

  const MAX_BEAM_COUNT := 512
  const FIXED_SIZE := 32
  const BEAM_SIZE := 8

  datatype BeamData = BeamData(
    beamIndex: nat, pointingAngle: int, travelTimeUS: nat, intensityDB: nat,
    qualityFactor: nat, detectInfo: nat, reserved: nat)

  datatype SonarPing = SonarPing(
    syncPattern: nat, packetLength: nat, pingCounter: nat, timestampUS: nat, soundSpeedDM: nat,
    numBeams: nat, tiltAlongTrack: int, tiltAcrossTrack: int, samplingFreqHz: nat,
    pulseLengthUS: nat, transducerDepth: nat, beams: seq<BeamData>)

  datatype Decoded<T> = Ping(value: T) | Truncated(at: nat) | BadSync(word: nat) | TooManyBeams(n: nat)

  // ---------- The packet as bytes ----------

  function BE64(s: seq<byte>, i: nat): (v: nat)
    requires i + 8 <= |s|
    ensures v < TWO_64
  {
    BE32(s, i) * TWO_32 + BE32(s, i + 4)
  }

  function BeamOf(data: seq<byte>, at: nat, index: nat): BeamData
    requires at + BEAM_SIZE <= |data|
  {
    BeamData(index, Signed(BE16(data, at), TWO_16), BE16(data, at + 2), data[at + 4], data[at + 5], data[at + 6], data[at + 7])
  }

  function BeamsOf(data: seq<byte>, n: nat): (beams: seq<BeamData>)
    requires FIXED_SIZE + n * BEAM_SIZE <= |data|
    ensures |beams| == n
  {
    seq(n, i requires 0 <= i < n => BeamOf(data, FIXED_SIZE + i * BEAM_SIZE, i))
  }

  /** How many bytes the header says the packet takes. */
  function PacketSize(data: seq<byte>): nat
    requires |data| >= 20
  {
    FIXED_SIZE + BE16(data, 18) * BEAM_SIZE
  }

  function PingOf(data: seq<byte>): SonarPing
    requires |data| >= 20 && |data| >= PacketSize(data)
  {
    SonarPing(
      BE32(data, 0), BE16(data, 4), BE16(data, 6), BE64(data, 8), BE16(data, 16), BE16(data, 18),
      Signed(BE16(data, 20), TWO_16), Signed(BE16(data, 22), TWO_16), BE32(data, 24), BE16(data, 28), BE16(data, 30),
      BeamsOf(data, BE16(data, 18)))
  }

  /** Where the field begins that byte p of a packet belongs to. */
  function FieldAt(p: nat): nat {
    if p < 4 then 0 else if p < 6 then 4 else if p < 8 then 6 else if p < 16 then 8 else if p < 18 then 16
    else if p < 20 then 18 else if p < 22 then 20 else if p < 24 then 22 else if p < 28 then 24 else if p < 30 then 28
    else if p < FIXED_SIZE then 30
    else
      var q := (p - FIXED_SIZE) % BEAM_SIZE;
      p - q + if q < 2 then 0 else if q < 4 then 2 else q
  }

  lemma FieldOfBeam(index: nat, q: nat)
    requires q < BEAM_SIZE
    ensures var at := FIXED_SIZE + index * BEAM_SIZE;
      FieldAt(at + q) == at + if q < 2 then 0 else if q < 4 then 2 else q
  {
    assert (index * BEAM_SIZE + q) % BEAM_SIZE == q;
  }

  /** What decoding gives, read off the bytes; a packet that is cut off fails at the field the first missing byte is in. */
  function DecodeResult(data: seq<byte>): Decoded<SonarPing> {
    if |data| < 4 then Truncated(FieldAt(|data|))
    else if BE32(data, 0) != SonarStream.SYNC_MAGIC then BadSync(BE32(data, 0))
    else if |data| < 20 then Truncated(FieldAt(|data|))
    else if BE16(data, 18) > MAX_BEAM_COUNT then TooManyBeams(BE16(data, 18))
    else if |data| < PacketSize(data) then Truncated(FieldAt(|data|))
    else Ping(PingOf(data))
  }

  /** A packet decodes if and only if it starts with the sync word, says at most 512 beams, and holds what it says. */
  lemma DecodesIff(data: seq<byte>)
    ensures DecodeResult(data).Ping? <==>
      && |data| >= 20 && data[0] == 0x53 && data[1] == 0x4F && data[2] == 0x4E && data[3] == 0x52
      && BE16(data, 18) <= 512 && |data| >= 32 + 8 * BE16(data, 18)
  {
  }

  // ---------- Bit fields at byte boundaries are big-endian words ----------

  lemma BitsAre8(data: seq<byte>, at: nat)
    requires at < |data|
    ensures BitsValue(data, 8 * at, 8) == data[at]
  {
    PowSmall();
    ByteChunk(data, 8 * at, 8);
    assert data[at] / 1 % 256 == data[at];
  }

  lemma BitsAre16(data: seq<byte>, at: nat)
    requires at + 2 <= |data|
    ensures BitsValue(data, 8 * at, 16) == BE16(data, at)
  {
    hide BitsValue;
    PowSmall();
    BitsCompose(data, 8 * at, 8, 8);
    BitsAre8(data, at);
    BitsAre8(data, at + 1);
  }

  lemma BitsAre32(data: seq<byte>, at: nat)
    requires at + 4 <= |data|
    ensures BitsValue(data, 8 * at, 32) == BE32(data, at)
  {
    hide BitsValue, BE16;
    PowWords();
    BitsCompose(data, 8 * at, 16, 16);
    BitsAre16(data, at);
    BitsAre16(data, at + 2);
  }

  lemma BitsAre64(data: seq<byte>, at: nat)
    requires at + 8 <= |data|
    ensures BitsValue(data, 8 * at, 64) == BE64(data, at)
  {
    hide BitsValue, BE32;
    PowWords();
    BitsCompose(data, 8 * at, 32, 32);
    BitsAre32(data, at);
    BitsAre32(data, at + 4);
  }

  class SonarPacketDecoder {
    const reader: BitReader

    constructor (data: seq<byte>)
      ensures fresh(reader) && reader.data == data && reader.offset == 0
    {
      reader := new BitReader(data);
    }

    method Read8(ghost at: nat) returns (r: Read<nat>)
      requires reader.offset == 8 * at
      modifies reader
      ensures if at + 1 <= |reader.data| then r == Ok(reader.data[at]) && reader.offset == 8 * (at + 1) else r == Overflow
    {
      hide BitsValue;
      if at + 1 <= |reader.data| { BitsAre8(reader.data, at); }
      r := reader.ReadUint(8);
    }

    method Read16(ghost at: nat) returns (r: Read<nat>)
      requires reader.offset == 8 * at
      modifies reader
      ensures if at + 2 <= |reader.data| then r == Ok(BE16(reader.data, at)) && reader.offset == 8 * (at + 2) else r == Overflow
    {
      hide BitsValue, BE16;
      if at + 2 <= |reader.data| { BitsAre16(reader.data, at); }
      r := reader.ReadUint(16);
    }

    method Read32(ghost at: nat) returns (r: Read<nat>)
      requires reader.offset == 8 * at
      modifies reader
      ensures if at + 4 <= |reader.data| then r == Ok(BE32(reader.data, at)) && reader.offset == 8 * (at + 4) else r == Overflow
    {
      hide BitsValue, BE32;
      if at + 4 <= |reader.data| { BitsAre32(reader.data, at); }
      r := reader.ReadUint(32);
    }

    method Read64(ghost at: nat) returns (r: Read<nat>)
      requires reader.offset == 8 * at
      modifies reader
      ensures if at + 8 <= |reader.data| then r == Ok(BE64(reader.data, at)) && reader.offset == 8 * (at + 8) else r == Overflow
    {
      hide BitsValue, BE64;
      if at + 8 <= |reader.data| { BitsAre64(reader.data, at); }
      r := reader.ReadUint(64);
    }

    method ReadSigned16(ghost at: nat) returns (r: Read<int>)
      requires reader.offset == 8 * at
      modifies reader
      ensures if at + 2 <= |reader.data| then r == Ok(Signed(BE16(reader.data, at), TWO_16)) && reader.offset == 8 * (at + 2) else r == Overflow
    {
      hide BitsValue, BE16, Pow2;
      PowWords();
      PowStep(16);
      if at + 2 <= |reader.data| { BitsAre16(reader.data, at); }
      r := reader.ReadInt(16);
    }

    method DecodeBeam(index: nat, ghost at: nat) returns (r: Decoded<BeamData>)
      requires reader.offset == 8 * at && at == FIXED_SIZE + index * BEAM_SIZE <= |reader.data|
      modifies reader
      ensures if at + BEAM_SIZE <= |reader.data|
              then r == Ping(BeamOf(reader.data, at, index)) && reader.offset == 8 * (at + BEAM_SIZE)
              else r == Truncated(FieldAt(|reader.data|))
    {
      hide BE16, Signed, FieldAt;
      if |reader.data| < at + BEAM_SIZE {
        FieldOfBeam(index, |reader.data| - at);
      }
      var angle := ReadSigned16(at);
      if angle.Overflow? { return Truncated(FIXED_SIZE + index * BEAM_SIZE); }
      var tt := Read16(at + 2);
      if tt.Overflow? { return Truncated(FIXED_SIZE + index * BEAM_SIZE + 2); }
      var intensity := Read8(at + 4);
      if intensity.Overflow? { return Truncated(FIXED_SIZE + index * BEAM_SIZE + 4); }
      var qf := Read8(at + 5);
      if qf.Overflow? { return Truncated(FIXED_SIZE + index * BEAM_SIZE + 5); }
      var di := Read8(at + 6);
      if di.Overflow? { return Truncated(FIXED_SIZE + index * BEAM_SIZE + 6); }
      var res := Read8(at + 7);
      if res.Overflow? { return Truncated(FIXED_SIZE + index * BEAM_SIZE + 7); }
      return Ping(BeamData(index, angle.value, tt.value, intensity.value, qf.value, di.value, res.value));
    }

    method DecodeBeams(n: nat) returns (r: Decoded<seq<BeamData>>)
      requires reader.offset == 8 * FIXED_SIZE <= reader.Length()
      modifies reader
      ensures if FIXED_SIZE + n * BEAM_SIZE <= |reader.data| then r == Ping(BeamsOf(reader.data, n))
              else r == Truncated(FieldAt(|reader.data|))
    {
      hide BeamOf, FieldAt;
      var beams: seq<BeamData> := [];
      var i := 0;
      while i < n
        invariant 0 <= i <= n && |beams| == i
        invariant FIXED_SIZE + i * BEAM_SIZE <= |reader.data|
        invariant reader.offset == 8 * (FIXED_SIZE + i * BEAM_SIZE)
        invariant forall k :: 0 <= k < i ==> beams[k] == BeamOf(reader.data, FIXED_SIZE + k * BEAM_SIZE, k)
      {
        var beam := DecodeBeam(i, FIXED_SIZE + i * BEAM_SIZE);
        if beam.Truncated? {
          return Truncated(beam.at);
        }
        beams := beams + [beam.value];
        i := i + 1;
      }
      assert beams == BeamsOf(reader.data, n);
      return Ping(beams);
    }

    method Decode() returns (r: Decoded<SonarPing>)
      requires reader.offset == 0
      modifies reader
      ensures r == DecodeResult(reader.data)
    {
      hide BE16, BE32, BE64, Signed, BeamOf;
      var sync := Read32(0);
      if sync.Overflow? { return Truncated(0); }
      if sync.value != SonarStream.SYNC_MAGIC { return BadSync(sync.value); }
      var pktLen := Read16(4);
      if pktLen.Overflow? { return Truncated(4); }
      var pingCnt := Read16(6);
      if pingCnt.Overflow? { return Truncated(6); }
      var ts := Read64(8);
      if ts.Overflow? { return Truncated(8); }
      var ss := Read16(16);
      if ss.Overflow? { return Truncated(16); }
      var nBeams := Read16(18);
      if nBeams.Overflow? { return Truncated(18); }
      if nBeams.value > MAX_BEAM_COUNT { return TooManyBeams(nBeams.value); }
      var tiltA := ReadSigned16(20);
      if tiltA.Overflow? { return Truncated(20); }
      var tiltC := ReadSigned16(22);
      if tiltC.Overflow? { return Truncated(22); }
      var sf := Read32(24);
      if sf.Overflow? { return Truncated(24); }
      var pl := Read16(28);
      if pl.Overflow? { return Truncated(28); }
      var td := Read16(30);
      if td.Overflow? { return Truncated(30); }
      var beams := DecodeBeams(nBeams.value);
      if beams.Truncated? { return Truncated(beams.at); }
      return Ping(SonarPing(
        sync.value, pktLen.value, pingCnt.value, ts.value, ss.value, nBeams.value,
        tiltA.value, tiltC.value, sf.value, pl.value, td.value, beams.value));
    }
  }

  // ---------- Nothing is lost: the packet can be written back ----------

  function Put8(v: nat): (s: seq<byte>)
    ensures |s| == 1
  {
    [v % 256]
  }

  function Put16(v: nat): (s: seq<byte>)
    ensures |s| == 2
  {
    [v / 256 % 256, v % 256]
  }

  function Put32(v: nat): (s: seq<byte>)
    ensures |s| == 4
  {
    Put16(v / TWO_16) + Put16(v % TWO_16)
  }

  function Put64(v: nat): (s: seq<byte>)
    ensures |s| == 8
  {
    Put32(v / TWO_32) + Put32(v % TWO_32)
  }

  function PutSigned16(v: int): (s: seq<byte>)
    ensures |s| == 2
  {
    Put16(v % TWO_16)
  }

  function EncodeBeam(b: BeamData): (s: seq<byte>)
    ensures |s| == BEAM_SIZE
  {
    PutSigned16(b.pointingAngle) + Put16(b.travelTimeUS) + Put8(b.intensityDB) + Put8(b.qualityFactor)
    + Put8(b.detectInfo) + Put8(b.reserved)
  }

  function EncodeBeams(beams: seq<BeamData>): (s: seq<byte>)
    ensures |s| == |beams| * BEAM_SIZE
  {
    if beams == [] then [] else EncodeBeams(beams[..|beams| - 1]) + EncodeBeam(beams[|beams| - 1])
  }

  function EncodeHeader(p: SonarPing): (s: seq<byte>)
    ensures |s| == FIXED_SIZE
  {
    Put32(p.syncPattern) + Put16(p.packetLength) + Put16(p.pingCounter) + Put64(p.timestampUS)
    + Put16(p.soundSpeedDM) + Put16(p.numBeams) + PutSigned16(p.tiltAlongTrack) + PutSigned16(p.tiltAcrossTrack)
    + Put32(p.samplingFreqHz) + Put16(p.pulseLengthUS) + Put16(p.transducerDepth)
  }

  function Encode(p: SonarPing): (s: seq<byte>)
    ensures |s| == FIXED_SIZE + |p.beams| * BEAM_SIZE
  {
    EncodeHeader(p) + EncodeBeams(p.beams)
  }

  lemma Put16Back(s: seq<byte>, i: nat)
    requires i + 2 <= |s|
    ensures Put16(BE16(s, i)) == s[i..i + 2]
  {
  }

  lemma PutSigned16Back(s: seq<byte>, i: nat)
    requires i + 2 <= |s|
    ensures PutSigned16(Signed(BE16(s, i), TWO_16)) == s[i..i + 2]
  {
    hide BE16, Put16;
    Put16Back(s, i);
    SignedWord(BE16(s, i));
  }

  lemma SignedWord(x: nat)
    requires x < TWO_16
    ensures Signed(x, TWO_16) % TWO_16 == x
  {
  }

  lemma Put32Back(s: seq<byte>, i: nat)
    requires i + 4 <= |s|
    ensures Put32(BE32(s, i)) == s[i..i + 4]
  {
    hide BE16, Put16;
    Put16Back(s, i);
    Put16Back(s, i + 2);
    ModUnique(BE32(s, i), TWO_16, BE16(s, i), BE16(s, i + 2));
    assert s[i..i + 2] + s[i + 2..i + 4] == s[i..i + 4];
  }

  lemma Put64Back(s: seq<byte>, i: nat)
    requires i + 8 <= |s|
    ensures Put64(BE64(s, i)) == s[i..i + 8]
  {
    hide BE32, Put32;
    Put32Back(s, i);
    Put32Back(s, i + 4);
    ModUnique(BE64(s, i), TWO_32, BE32(s, i), BE32(s, i + 4));
    assert s[i..i + 4] + s[i + 4..i + 8] == s[i..i + 8];
  }

  lemma BeamBack(data: seq<byte>, at: nat, index: nat)
    requires at + BEAM_SIZE <= |data|
    ensures EncodeBeam(BeamOf(data, at, index)) == data[at..at + BEAM_SIZE]
  {
    hide BE16, Put16, PutSigned16, Signed;
    PutSigned16Back(data, at);
    Put16Back(data, at + 2);
  }

  lemma {:induction false} BeamsBack(data: seq<byte>, n: nat)
    requires FIXED_SIZE + n * BEAM_SIZE <= |data|
    ensures EncodeBeams(BeamsOf(data, n)) == data[FIXED_SIZE..FIXED_SIZE + n * BEAM_SIZE]
  {
    hide BeamOf, EncodeBeam;
    if n > 0 {
      BeamsBack(data, n - 1);
      assert BeamsOf(data, n)[..n - 1] == BeamsOf(data, n - 1);
      BeamBack(data, FIXED_SIZE + (n - 1) * BEAM_SIZE, n - 1);
    }
  }

  lemma HeaderBack(data: seq<byte>)
    requires |data| >= 20 && |data| >= PacketSize(data)
    ensures EncodeHeader(PingOf(data)) == data[..FIXED_SIZE]
  {
    hide BE16, BE32, BE64, Put16, Put32, Put64, PutSigned16, Signed, BeamsOf;
    Put32Back(data, 0);
    Put16Back(data, 4);
    Put16Back(data, 6);
    Put64Back(data, 8);
    Put16Back(data, 16);
    Put16Back(data, 18);
    PutSigned16Back(data, 20);
    PutSigned16Back(data, 22);
    Put32Back(data, 24);
    Put16Back(data, 28);
    Put16Back(data, 30);
  }

  /** Writing back what was decoded gives the packet's own bytes. */
  lemma EncodeDecoded(data: seq<byte>)
    requires DecodeResult(data).Ping?
    ensures Encode(DecodeResult(data).value) == data[..PacketSize(data)]
  {
    HeaderBack(data);
    BeamsBack(data, BE16(data, 18));
  }

  /** Two byte strings that decode to the same ping are the same packet. */
  lemma DecodeInjective(d: seq<byte>, e: seq<byte>)
    requires DecodeResult(d).Ping? && DecodeResult(d) == DecodeResult(e)
    ensures PacketSize(d) == PacketSize(e) && d[..PacketSize(d)] == e[..PacketSize(e)]
  {
    EncodeDecoded(d);
    EncodeDecoded(e);
    assert DecodeResult(d).value.numBeams == BE16(d, 18) && DecodeResult(e).value.numBeams == BE16(e, 18);
  }

  // ---------- Every ping can be sent: what is written is read back ----------

  predicate BeamInRange(b: BeamData, index: nat) {
    && b.beamIndex == index && -0x8000 <= b.pointingAngle < 0x8000 && b.travelTimeUS < TWO_16
    && b.intensityDB < 256 && b.qualityFactor < 256 && b.detectInfo < 256 && b.reserved < 256
  }

  /** The pings the wire format can express. */
  ghost predicate InRange(p: SonarPing) {
    && p.syncPattern == SonarStream.SYNC_MAGIC && p.packetLength < TWO_16 && p.pingCounter < TWO_16
    && p.timestampUS < TWO_64 && p.soundSpeedDM < TWO_16
    && p.numBeams == |p.beams| <= MAX_BEAM_COUNT
    && -0x8000 <= p.tiltAlongTrack < 0x8000 && -0x8000 <= p.tiltAcrossTrack < 0x8000
    && p.samplingFreqHz < TWO_32 && p.pulseLengthUS < TWO_16 && p.transducerDepth < TWO_16
    && forall i :: 0 <= i < |p.beams| ==> BeamInRange(p.beams[i], i)
  }

  lemma Read16Back(s: seq<byte>, i: nat, v: nat)
    requires i + 2 <= |s| && v < TWO_16 && s[i..i + 2] == Put16(v)
    ensures BE16(s, i) == v
  {
    assert s[i] == s[i..i + 2][0] && s[i + 1] == s[i..i + 2][1];
  }

  lemma ReadSigned16Back(s: seq<byte>, i: nat, v: int)
    requires i + 2 <= |s| && -0x8000 <= v < 0x8000 && s[i..i + 2] == PutSigned16(v)
    ensures Signed(BE16(s, i), TWO_16) == v
  {
    hide Put16;
    Read16Back(s, i, v % TWO_16);
  }

  lemma Read32Back(s: seq<byte>, i: nat, v: nat)
    requires i + 4 <= |s| && v < TWO_32 && s[i..i + 4] == Put32(v)
    ensures BE32(s, i) == v
  {
    hide Put16, BE16;
    assert s[i..i + 2] == s[i..i + 4][..2] && s[i + 2..i + 4] == s[i..i + 4][2..];
    Read16Back(s, i, v / TWO_16);
    Read16Back(s, i + 2, v % TWO_16);
  }

  lemma Read64Back(s: seq<byte>, i: nat, v: nat)
    requires i + 8 <= |s| && v < TWO_64 && s[i..i + 8] == Put64(v)
    ensures BE64(s, i) == v
  {
    hide Put32, BE32;
    assert s[i..i + 4] == s[i..i + 8][..4] && s[i + 4..i + 8] == s[i..i + 8][4..];
    Read32Back(s, i, v / TWO_32);
    Read32Back(s, i + 4, v % TWO_32);
  }

  lemma BeamRead(s: seq<byte>, at: nat, b: BeamData, index: nat)
    requires at + BEAM_SIZE <= |s| && BeamInRange(b, index) && s[at..at + BEAM_SIZE] == EncodeBeam(b)
    ensures BeamOf(s, at, index) == b
  {
    hide Put16, PutSigned16, BE16, Signed;
    var e := s[at..at + BEAM_SIZE];
    assert s[at..at + 2] == e[..2] == PutSigned16(b.pointingAngle);
    assert e[2] == Put16(b.travelTimeUS)[0] && e[3] == Put16(b.travelTimeUS)[1];
    assert s[at + 2..at + 4] == e[2..4] == Put16(b.travelTimeUS);
    assert s[at + 4] == e[4] && s[at + 5] == e[5] && s[at + 6] == e[6] && s[at + 7] == e[7];
    ReadSigned16Back(s, at, b.pointingAngle);
    Read16Back(s, at + 2, b.travelTimeUS);
  }

  lemma {:induction false} EncodedBeamAt(beams: seq<BeamData>, i: nat)
    requires i < |beams|
    ensures EncodeBeams(beams)[i * BEAM_SIZE..(i + 1) * BEAM_SIZE] == EncodeBeam(beams[i])
    decreases |beams|
  {
    hide EncodeBeam;
    var n := |beams| - 1;
    if i < n {
      EncodedBeamAt(beams[..n], i);
      assert EncodeBeams(beams)[..n * BEAM_SIZE] == EncodeBeams(beams[..n]);
      assert EncodeBeams(beams)[i * BEAM_SIZE..(i + 1) * BEAM_SIZE]
          == EncodeBeams(beams)[..n * BEAM_SIZE][i * BEAM_SIZE..(i + 1) * BEAM_SIZE];
    }
  }

  lemma BeamsRead(s: seq<byte>, p: SonarPing)
    requires InRange(p) && Encode(p) <= s
    ensures BeamsOf(s, |p.beams|) == p.beams
  {
    hide EncodeBeam, EncodeHeader, BeamOf;
    forall i | 0 <= i < |p.beams| ensures BeamOf(s, FIXED_SIZE + i * BEAM_SIZE, i) == p.beams[i] {
      EncodedBeamAt(p.beams, i);
      var at := FIXED_SIZE + i * BEAM_SIZE;
      assert s[at..at + BEAM_SIZE] == Encode(p)[FIXED_SIZE..][i * BEAM_SIZE..(i + 1) * BEAM_SIZE];
      BeamRead(s, at, p.beams[i], i);
    }
  }

  lemma HeaderSlices(h: seq<byte>, p: SonarPing)
    requires h == EncodeHeader(p)
    ensures h[0..4] == Put32(p.syncPattern) && h[4..6] == Put16(p.packetLength) && h[6..8] == Put16(p.pingCounter)
    ensures h[8..16] == Put64(p.timestampUS) && h[16..18] == Put16(p.soundSpeedDM) && h[18..20] == Put16(p.numBeams)
    ensures h[20..22] == PutSigned16(p.tiltAlongTrack) && h[22..24] == PutSigned16(p.tiltAcrossTrack)
    ensures h[24..28] == Put32(p.samplingFreqHz)
    ensures h[28..30] == Put16(p.pulseLengthUS) && h[30..32] == Put16(p.transducerDepth)
  {
    hide Put16, Put32, Put64, PutSigned16;
  }

  lemma SlicesOfPrefix(s: seq<byte>, h: seq<byte>)
    requires |s| >= FIXED_SIZE && h == s[..FIXED_SIZE]
    ensures forall a, b {:trigger s[a..b]} :: 0 <= a <= b <= FIXED_SIZE ==> s[a..b] == h[a..b]
  {
    forall a, b | 0 <= a <= b <= FIXED_SIZE ensures s[a..b] == h[a..b] {
      assert forall k :: 0 <= k < b - a ==> s[a..b][k] == h[a..b][k];
    }
  }

  lemma HeaderRead(s: seq<byte>, p: SonarPing)
    requires InRange(p) && |s| >= FIXED_SIZE && s[..FIXED_SIZE] == EncodeHeader(p)
    ensures BE32(s, 0) == p.syncPattern && BE16(s, 4) == p.packetLength && BE16(s, 6) == p.pingCounter
    ensures BE64(s, 8) == p.timestampUS && BE16(s, 16) == p.soundSpeedDM && BE16(s, 18) == p.numBeams
    ensures Signed(BE16(s, 20), TWO_16) == p.tiltAlongTrack && Signed(BE16(s, 22), TWO_16) == p.tiltAcrossTrack
    ensures BE32(s, 24) == p.samplingFreqHz
    ensures BE16(s, 28) == p.pulseLengthUS && BE16(s, 30) == p.transducerDepth
  {
    hide Put16, Put32, Put64, PutSigned16, BE16, BE32, BE64, Signed, EncodeHeader;
    var h := s[..FIXED_SIZE];
    HeaderSlices(h, p);
    SlicesOfPrefix(s, h);
    Read32Back(s, 0, p.syncPattern);
    Read16Back(s, 4, p.packetLength);
    Read16Back(s, 6, p.pingCounter);
    Read64Back(s, 8, p.timestampUS);
    Read16Back(s, 16, p.soundSpeedDM);
    Read16Back(s, 18, p.numBeams);
    ReadSigned16Back(s, 20, p.tiltAlongTrack);
    ReadSigned16Back(s, 22, p.tiltAcrossTrack);
    Read32Back(s, 24, p.samplingFreqHz);
    Read16Back(s, 28, p.pulseLengthUS);
    Read16Back(s, 30, p.transducerDepth);
  }

  /** Which byte of a packet says what of its i-th beam. */
  lemma BeamBytes(p: SonarPing, i: nat)
    requires InRange(p) && i < |p.beams|
    ensures var s, at, b := Encode(p), 32 + 8 * i, p.beams[i];
      && at + 8 <= |s|
      && (s[at] as int) * 256 + s[at + 1] == b.pointingAngle % 65536
      && (s[at + 2] as int) * 256 + s[at + 3] == b.travelTimeUS
      && s[at + 4] == b.intensityDB && s[at + 5] == b.qualityFactor
      && s[at + 6] == b.detectInfo && s[at + 7] == b.reserved
  {
    hide EncodeHeader, EncodeBeam, EncodeBeams;
    EncodedBeamAt(p.beams, i);
    var s, at := Encode(p), FIXED_SIZE + i * BEAM_SIZE;
    var e := s[at..at + BEAM_SIZE];
    assert e == EncodeBeams(p.beams)[i * BEAM_SIZE..(i + 1) * BEAM_SIZE];
    OneBeamBytes(p.beams[i], i, e);
    assert forall k :: 0 <= k < |e| ==> e[k] == s[at + k];
  }

  lemma OneBeamBytes(b: BeamData, index: nat, e: seq<byte>)
    requires BeamInRange(b, index) && e == EncodeBeam(b)
    ensures (e[0] as int) * 256 + e[1] == b.pointingAngle % 65536 && (e[2] as int) * 256 + e[3] == b.travelTimeUS
    ensures e[4] == b.intensityDB && e[5] == b.qualityFactor && e[6] == b.detectInfo && e[7] == b.reserved
  {
  }

  /** Every ping in range decodes to itself from its encoding, whatever follows it. */
  lemma DecodeEncoded(p: SonarPing, rest: seq<byte>)
    requires InRange(p)
    ensures DecodeResult(Encode(p) + rest) == Ping(p)
  {
    hide BE16, BE32, BE64, Signed, BeamsOf, EncodeHeader, EncodeBeams;
    var s := Encode(p) + rest;
    assert s[..FIXED_SIZE] == EncodeHeader(p);
    HeaderRead(s, p);
    BeamsRead(s, p);
  }
}
