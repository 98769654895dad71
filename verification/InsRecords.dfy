/** Where delivered INS records come from: each one's own bytes in what was fed, and which byte says what. */
module InsRecords {
  import opened Options
  import opened Bytes
  import opened IntFacts
  import opened InsStream

  /** Byte k of a number, counted from the least. */
  function ByteOf(x: nat, k: nat): nat
    decreases k
  {
    if k == 0 then x % 256 else ByteOf(x / 256, k - 1)
  }

  /** The n bytes from position i on are those of x, least first. */
  ghost predicate HoldsAt(frame: seq<byte>, i: nat, n: nat, x: nat)
    requires i + n <= |frame|
  {
    forall k: nat :: k < n ==> frame[i + k] == ByteOf(x, k)
  }

  /**
   These 32 bytes say d: time, latitude, longitude in eight bytes each, depth in four, roll and pitch in two, negative
   numbers as two's complement; position and attitude are within their ranges.
   */
  ghost predicate Says(frame: seq<byte>, d: INSData) {
    && |frame| == 32
    && d.timestampUS < 0x1_0000_0000_0000_0000 && HoldsAt(frame, 0, 8, d.timestampUS)
    && -900_000_000 <= d.latDeg7 <= 900_000_000 && HoldsAt(frame, 8, 8, d.latDeg7 % 0x1_0000_0000_0000_0000)
    && -1_800_000_000 <= d.lonDeg7 <= 1_800_000_000 && HoldsAt(frame, 16, 8, d.lonDeg7 % 0x1_0000_0000_0000_0000)
    && -0x8000_0000 <= d.depthMM < 0x8000_0000 && HoldsAt(frame, 24, 4, d.depthMM % 0x1_0000_0000)
    && -18_000 <= d.rollCentidg <= 18_000 && HoldsAt(frame, 28, 2, d.rollCentidg % 0x1_0000)
    && -9_000 <= d.pitchCentidg <= 9_000 && HoldsAt(frame, 30, 2, d.pitchCentidg % 0x1_0000)
  }

  /** Record i has its own 32 bytes, from at[i] on; the records follow one another and share no byte. */
  ghost predicate Placed(s: seq<byte>, records: seq<INSData>, at: seq<nat>) {
    && |at| == |records|
    && (forall i :: 0 <= i < |at| ==> at[i] + 32 <= |s| && Says(s[at[i]..at[i] + 32], records[i]))
    && forall i, j :: 0 <= i < j < |at| ==> at[i] + 32 <= at[j]
  }

  ghost predicate SentIn(s: seq<byte>, records: seq<INSData>) {
    exists at :: Placed(s, records, at)
  }

  /** Of all the bytes, the last ones are pending, and the records were sent in those before. */
  ghost predicate ReadFrom(all: seq<byte>, pending: seq<byte>, records: seq<INSData>) {
    && |pending| <= |all| && pending == all[|all| - |pending|..]
    && SentIn(all[..|all| - |pending|], records)
  }

  // ---------- Little-endian words ----------

  lemma LE16Bytes(s: seq<byte>, i: nat)
    requires i + 2 <= |s|
    ensures HoldsAt(s, i, 2, LE16(s, i))
  {
    var x := LE16(s, i);
    assert ByteOf(x, 0) == s[i] && x / 256 == s[i + 1];
    assert ByteOf(x, 1) == ByteOf(x / 256, 0) == s[i + 1];
  }

  lemma LowBytes(hi: nat, lo: nat, k: nat)
    requires lo < TWO_16 && k < 2
    ensures ByteOf(hi * TWO_16 + lo, k) == ByteOf(lo, k)
  {
    var x, q, r := hi * TWO_16 + lo, lo / 256, lo % 256;
    ModUnique(x, 256, hi * 256 + q, r);
    ModUnique(hi * 256 + q, 256, hi, q);
    assert ByteOf(x, 0) == r == ByteOf(lo, 0);
    assert ByteOf(x, 1) == ByteOf(hi * 256 + q, 0) && ByteOf(lo, 1) == ByteOf(q, 0);
  }

  /** Two bytes less of a number leave the bytes behind them. */
  lemma HighBytes(hi: nat, lo: nat, k: nat)
    requires lo < TWO_16
    ensures ByteOf(hi * TWO_16 + lo, k + 2) == ByteOf(hi, k)
  {
    var x := hi * TWO_16 + lo;
    assert x / 256 / 256 == hi;
    assert ByteOf(x, k + 2) == ByteOf(x / 256, k + 1) == ByteOf(x / 256 / 256, k);
  }

  lemma LE32Bytes(s: seq<byte>, i: nat)
    requires i + 4 <= |s|
    ensures HoldsAt(s, i, 4, LE32(s, i))
  {
    hide LE16, ByteOf;
    LE16Bytes(s, i);
    LE16Bytes(s, i + 2);
    forall k: nat | k < 4 ensures s[i + k] == ByteOf(LE32(s, i), k) {
      if k < 2 {
        LowBytes(LE16(s, i + 2), LE16(s, i), k);
      } else {
        HighBytes(LE16(s, i + 2), LE16(s, i), k - 2);
        assert s[i + 2 + (k - 2)] == ByteOf(LE16(s, i + 2), k - 2);
      }
    }
  }

  /** A 64-bit word as its upper 48 bits and its lowest 16, and so on down. */
  lemma WordSplits(s: seq<byte>, i: nat)
    requires i + 8 <= |s|
    ensures LE64(s, i) == (LE32(s, i + 4) * TWO_16 + LE16(s, i + 2)) * TWO_16 + LE16(s, i)
  {
  }

  lemma LE64Bytes(s: seq<byte>, i: nat)
    requires i + 8 <= |s|
    ensures HoldsAt(s, i, 8, LE64(s, i))
  {
    hide LE16, LE32, LE64, ByteOf;
    WordSplits(s, i);
    LE16Bytes(s, i);
    LE16Bytes(s, i + 2);
    LE32Bytes(s, i + 4);
    var top, mid, low := LE32(s, i + 4), LE16(s, i + 2), LE16(s, i);
    forall k: nat | k < 8 ensures s[i + k] == ByteOf(LE64(s, i), k) {
      if k < 2 {
        LowBytes(top * TWO_16 + mid, low, k);
      } else {
        HighBytes(top * TWO_16 + mid, low, k - 2);
        if k < 4 {
          LowBytes(top, mid, k - 2);
          assert s[i + 2 + (k - 2)] == ByteOf(mid, k - 2);
        } else {
          HighBytes(top, mid, k - 4);
          assert s[i + 4 + (k - 4)] == ByteOf(top, k - 4);
        }
      }
    }
  }

  lemma SignedBack(x: nat, size: nat)
    requires x < size && size % 2 == 0
    ensures Signed(x, size) % size == x && -(size / 2) <= Signed(x, size) < size / 2
  {
    if 2 * x >= size {
      ModUnique(x - size, size, -1, x);
    } else {
      ModUnique(x, size, 0, x);
    }
  }

  /** A plausible record says what its bytes say. */
  lemma FieldsSay(s: seq<byte>)
    requires |s| >= 32 && PlausibleFields(FieldsOf(s))
    ensures Says(s[..32], FieldsOf(s))
  {
    hide LE16, LE32, LE64, Signed, ByteOf;
    var frame := s[..32];
    assert s == frame + s[32..];
    FieldsPrefix(frame, s[32..]);
    LE64Bytes(frame, 0);
    LE64Bytes(frame, 8);
    LE64Bytes(frame, 16);
    LE32Bytes(frame, 24);
    LE16Bytes(frame, 28);
    LE16Bytes(frame, 30);
    SignedBack(LE64(frame, 8), TWO_64);
    SignedBack(LE64(frame, 16), TWO_64);
    SignedBack(LE32(frame, 24), TWO_32);
    SignedBack(LE16(frame, 28), TWO_16);
    SignedBack(LE16(frame, 30), TWO_16);
  }

  // ---------- Which timestamps are believed ----------

  /** Away from the ends of the 64-bit range, what is believed is what lies in a window, in microseconds. */
  lemma TimestampWindow(ts: nat, latest: nat, now: nat)
    requires ts < 0x8000_0000_0000_0000 && latest < 0x8000_0000_0000_0000
    ensures latest > 0 ==>
      (ValidTimestamp(ts, latest, now) <==> ts > 0 && latest - 10_000_000 <= ts <= latest + 60_000_000)
    ensures latest == 0 && 31_536_000_000_000 <= now < 0x8000_0000_0000_0000 ==>
      (ValidTimestamp(ts, latest, now) <==> ts > 0 && now - 31_536_000_000_000 <= ts <= now + 60_000_000)
  {
    if latest > 0 {
      NoWrap(ts - latest);
    } else if 31_536_000_000_000 <= now < 0x8000_0000_0000_0000 {
      ModUnique(now - VALID_RANGE_US, TWO_64, 0, now - VALID_RANGE_US);
      ModUnique(now + SECONDS_60, TWO_64, 0, now + SECONDS_60);
    }
  }

  lemma NoWrap(d: int)
    requires -0x8000_0000_0000_0000 < d < 0x8000_0000_0000_0000
    ensures Signed(d % TWO_64, TWO_64) == d
  {
    if d >= 0 {
      ModUnique(d, TWO_64, 0, d);
    } else {
      ModUnique(d, TWO_64, -1, d + TWO_64);
    }
  }

  // ---------- Records in a stretch of bytes ----------

  lemma NothingSent(s: seq<byte>)
    ensures SentIn(s, [])
  {
    assert Placed(s, [], []);
  }

  lemma OneSent(s: seq<byte>)
    requires |s| >= 32 && PlausibleFields(FieldsOf(s))
    ensures SentIn(s[..32], [FieldsOf(s)])
  {
    hide Says;
    FieldsSay(s);
    assert s[..32][0..32] == s[..32];
    assert Placed(s[..32], [FieldsOf(s)], [0]);
  }

  function Behind(at: seq<nat>, n: nat): (r: seq<nat>)
    ensures |r| == |at|
  {
    seq(|at|, i requires 0 <= i < |at| => at[i] + n)
  }

  /** Records sent in one stretch, and then more in the next. */
  lemma SentConcat(s: seq<byte>, x: seq<INSData>, t: seq<byte>, y: seq<INSData>)
    requires SentIn(s, x) && SentIn(t, y)
    ensures SentIn(s + t, x + y)
  {
    hide Says;
    var a :| Placed(s, x, a);
    var b :| Placed(t, y, b);
    var at := a + Behind(b, |s|);
    forall i | 0 <= i < |at| ensures at[i] + 32 <= |s + t| && Says((s + t)[at[i]..at[i] + 32], (x + y)[i]) {
      if i < |a| {
        assert (s + t)[at[i]..at[i] + 32] == s[a[i]..a[i] + 32];
      } else {
        var j := i - |a|;
        assert (s + t)[at[i]..at[i] + 32] == t[b[j]..b[j] + 32];
      }
    }
    assert Placed(s + t, x + y, at);
  }

  /** What reading delivers was sent, in what was read. */
  lemma {:induction false} ScanSent(s: seq<byte>, latest: nat, now: nat)
    ensures var r := Scan(s, latest, now); ReadFrom(s, r.rest, r.records)
    decreases |s|
  {
    hide LE64, ValidTimestamp, FieldsOf, PlausibleFields, SentIn;
    RestIsUndecided(s, latest, now);
    var r := Scan(s, latest, now);
    var read := s[..|s| - |r.rest|];
    if |s| < INS_FRAME_SIZE {
      NothingSent(read);
    } else if !ValidTimestamp(LE64(s, 0), latest, now) {
      var next := NextCandidate(s, 1, latest, now);
      if next.None? {
        NothingSent(read);
      } else {
        Passed(s, next.value, latest, now);
      }
    } else if !PlausibleFields(FieldsOf(s)) {
      Passed(s, 1, latest, now);
    } else {
      ScanSent(s[INS_FRAME_SIZE..], LE64(s, 0), now);
      OneSent(s);
      var rest := Scan(s[INS_FRAME_SIZE..], LE64(s, 0), now);
      var tail := s[INS_FRAME_SIZE..][..|s| - INS_FRAME_SIZE - |rest.rest|];
      SentConcat(s[..INS_FRAME_SIZE], [FieldsOf(s)], tail, rest.records);
      assert read == s[..INS_FRAME_SIZE] + tail;
    }
  }

  /** Bytes that are passed over carry no record. */
  lemma {:induction false} Passed(s: seq<byte>, k: nat, latest: nat, now: nat)
    requires 0 < k <= |s|
    ensures var r := Scan(s[k..], latest, now);
      |r.rest| <= |s| - k && SentIn(s[..|s| - |r.rest|], r.records)
    decreases |s|, 0
  {
    hide LE64, ValidTimestamp, FieldsOf, PlausibleFields, SentIn, Scan;
    ScanSent(s[k..], latest, now);
    var r := Scan(s[k..], latest, now);
    var tail := s[k..][..|s| - k - |r.rest|];
    NothingSent(s[..k]);
    SentConcat(s[..k], [], tail, r.records);
    assert s[..k] + tail == s[..|s| - |r.rest|] && [] + r.records == r.records;
  }

  /** Reading on: of bytes whose tail was pending, more came behind and more was read. */
  lemma ReadOn(all: seq<byte>, pending: seq<byte>, records: seq<INSData>, data: seq<byte>, pending': seq<byte>,
               more: seq<INSData>)
    requires ReadFrom(all, pending, records) && ReadFrom(pending + data, pending', more)
    ensures ReadFrom(all + data, pending', records + more)
  {
    hide SentIn;
    var n, m := |all| - |pending|, |pending + data| - |pending'|;
    SentConcat(all[..n], records, (pending + data)[..m], more);
    assert all + data == all[..n] + (pending + data);
    assert (all + data)[..n + m] == all[..n] + (pending + data)[..m];
  }
}
