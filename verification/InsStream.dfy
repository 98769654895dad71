/** The INS record stream: which timestamps and records are plausible, and how bytes are read into records. */
module InsStream {
  import opened Options
  import opened Bytes

  const INS_FRAME_SIZE := 32
  const VALID_RANGE_US := 31_536_000_000_000
  const SECONDS_10 := 10_000_000
  const SECONDS_60 := 60_000_000

  datatype INSData = INSData(timestampUS: nat, latDeg7: int, lonDeg7: int, depthMM: int, rollCentidg: int, pitchCentidg: int)

  function LE16(s: seq<byte>, i: nat): (v: nat)
    requires i + 2 <= |s|
    ensures v < TWO_16
  {
    (s[i + 1] as int) * 256 + s[i]
  }

  function LE32(s: seq<byte>, i: nat): (v: nat)
    requires i + 4 <= |s|
    ensures v < TWO_32
  {
    LE16(s, i + 2) * TWO_16 + LE16(s, i)
  }

  function LE64(s: seq<byte>, i: nat): (v: nat)
    requires i + 8 <= |s|
    ensures v < TWO_64
  {
    LE32(s, i + 4) * TWO_32 + LE32(s, i)
  }

  /** The difference of two 64-bit words, as int64 arithmetic gives it. */
  function Difference(a: nat, b: nat): int {
    Signed((a - b) % TWO_64, TWO_64)
  }

  /**
   Whether a timestamp is believed: at first it must lie around the clock, later within
   ten seconds before and sixty after the last one accepted.
   */
  predicate ValidTimestamp(ts: nat, latest: nat, now: nat) {
    ts != 0 &&
    if latest > 0 then -SECONDS_10 <= Difference(ts, latest) <= SECONDS_60
    else (now - VALID_RANGE_US) % TWO_64 <= ts <= (now + SECONDS_60) % TWO_64
  }

  function FieldsOf(frame: seq<byte>): INSData
    requires |frame| >= INS_FRAME_SIZE
  {
    INSData(LE64(frame, 0), Signed(LE64(frame, 8), TWO_64), Signed(LE64(frame, 16), TWO_64),
            Signed(LE32(frame, 24), TWO_32), Signed(LE16(frame, 28), TWO_16), Signed(LE16(frame, 30), TWO_16))
  }

  /** Position and attitude lie within their natural ranges (stored as 1e-7 degrees and centidegrees). */
  predicate PlausibleFields(d: INSData) {
    && -900_000_000 <= d.latDeg7 <= 900_000_000 && -1_800_000_000 <= d.lonDeg7 <= 1_800_000_000
    && -18_000 <= d.rollCentidg <= 18_000 && -9_000 <= d.pitchCentidg <= 9_000
  }

  /** What reading a stretch of bytes yields. */
  datatype Reading = Reading(
    records: seq<INSData>,  // delivered, in order
    rest: seq<byte>,        // kept for later
    latest: nat,            // last accepted timestamp
    skipped: nat,           // how often it jumped over a timestamp it did not believe
    invalid: nat)           // how often it jumped past implausible fields

  /** The first place from `from` on where a believable timestamp is complete. */
  function NextCandidate(s: seq<byte>, from: nat, latest: nat, now: nat): (r: Option<nat>)
    ensures r.Some? ==> from <= r.value && r.value + 8 <= |s| && ValidTimestamp(LE64(s, r.value), latest, now)
    ensures r.Some? ==> forall k :: from <= k < r.value ==> !ValidTimestamp(LE64(s, k), latest, now)
    ensures r.None? ==> forall k :: from <= k && k + 8 <= |s| ==> !ValidTimestamp(LE64(s, k), latest, now)
    decreases |s| - from
  {
    if from + 8 > |s| then None
    else if ValidTimestamp(LE64(s, from), latest, now) then Some(from)
    else NextCandidate(s, from + 1, latest, now)
  }

  function Deliver(d: INSData, r: Reading): Reading {
    r.(records := [d] + r.records)
  }

  function Skip(r: Reading): Reading {
    r.(skipped := 1 + r.skipped)
  }

  function Refuse(r: Reading): Reading {
    r.(invalid := 1 + r.invalid)
  }

  /** Reads all the records that pending bytes decide. */
  function Scan(s: seq<byte>, latest: nat, now: nat): (r: Reading)
    decreases |s|
  {
    if |s| < INS_FRAME_SIZE then Reading([], s, latest, 0, 0)
    else if !ValidTimestamp(LE64(s, 0), latest, now) then
      var next := NextCandidate(s, 1, latest, now);
      if next.None? then Reading([], s, latest, 0, 0)
      else Skip(Scan(s[next.value..], latest, now))
    else if !PlausibleFields(FieldsOf(s)) then Refuse(Scan(s[1..], latest, now))
    else Deliver(FieldsOf(s), Scan(s[INS_FRAME_SIZE..], LE64(s, 0), now))
  }

  // ---------- Chunking does not matter ----------

  function Then(a: Reading, b: Reading): Reading {
    Reading(a.records + b.records, b.rest, b.latest, a.skipped + b.skipped, a.invalid + b.invalid)
  }

  lemma LE64Prefix(a: seq<byte>, b: seq<byte>, i: nat)
    requires i + 8 <= |a|
    ensures LE64(a + b, i) == LE64(a, i)
  {
  }

  lemma FieldsPrefix(a: seq<byte>, b: seq<byte>)
    requires |a| >= INS_FRAME_SIZE
    ensures FieldsOf(a + b) == FieldsOf(a)
  {
  }

  lemma CandidateStays(a: seq<byte>, b: seq<byte>, from: nat, latest: nat, now: nat)
    requires NextCandidate(a, from, latest, now).Some?
    ensures NextCandidate(a + b, from, latest, now) == NextCandidate(a, from, latest, now)
  {
    hide LE64, ValidTimestamp;
    var k, k' := NextCandidate(a, from, latest, now), NextCandidate(a + b, from, latest, now);
    LE64Prefix(a, b, k.value);
    if k'.Some? && k'.value < k.value {
      LE64Prefix(a, b, k'.value);
    }
  }

  /** Reading in two portions is reading at once. */
  lemma {:induction false} ScanCompose(a: seq<byte>, b: seq<byte>, latest: nat, now: nat)
    ensures var first := Scan(a, latest, now);
      Scan(a + b, latest, now) == Then(first, Scan(first.rest + b, first.latest, now))
    decreases |a|
  {
    hide LE64, ValidTimestamp, FieldsOf, PlausibleFields, NextCandidate;
    if |a| >= INS_FRAME_SIZE {
      LE64Prefix(a, b, 0);
      FieldsPrefix(a, b);
      if !ValidTimestamp(LE64(a, 0), latest, now) {
        var next := NextCandidate(a, 1, latest, now);
        if next.Some? {
          CandidateStays(a, b, 1, latest, now);
          assert (a + b)[next.value..] == a[next.value..] + b;
          ScanCompose(a[next.value..], b, latest, now);
        }
      } else if !PlausibleFields(FieldsOf(a)) {
        assert (a + b)[1..] == a[1..] + b;
        ScanCompose(a[1..], b, latest, now);
      } else {
        assert (a + b)[INS_FRAME_SIZE..] == a[INS_FRAME_SIZE..] + b;
        ScanCompose(a[INS_FRAME_SIZE..], b, LE64(a, 0), now);
      }
    }
  }

  // ---------- The clock matters only before the first record ----------

  lemma {:induction false} CandidateClockFree(s: seq<byte>, from: nat, latest: nat, now: nat, now': nat)
    requires latest > 0
    ensures NextCandidate(s, from, latest, now) == NextCandidate(s, from, latest, now')
    decreases |s| - from
  {
    hide LE64, Difference;
    if from + 8 <= |s| {
      CandidateClockFree(s, from + 1, latest, now, now');
    }
  }

  /** Once a record was accepted, the clock has no say in what is read. */
  lemma {:induction false} ScanClockFree(s: seq<byte>, latest: nat, now: nat, now': nat)
    requires latest > 0
    ensures Scan(s, latest, now) == Scan(s, latest, now') && Scan(s, latest, now).latest > 0
    decreases |s|
  {
    hide LE64, Difference, FieldsOf, PlausibleFields, NextCandidate;
    if |s| >= INS_FRAME_SIZE {
      if !ValidTimestamp(LE64(s, 0), latest, now) {
        CandidateClockFree(s, 1, latest, now, now');
        var next := NextCandidate(s, 1, latest, now);
        if next.Some? {
          ScanClockFree(s[next.value..], latest, now, now');
        }
      } else if !PlausibleFields(FieldsOf(s)) {
        ScanClockFree(s[1..], latest, now, now');
      } else {
        ScanClockFree(s[INS_FRAME_SIZE..], LE64(s, 0), now, now');
      }
    }
  }

  // ---------- One step of a reading ----------

  lemma ShortIsKept(p: seq<byte>, latest: nat, now: nat)
    requires |p| < INS_FRAME_SIZE
    ensures Scan(p, latest, now) == Reading([], p, latest, 0, 0)
  {
  }

  lemma StuckIsKept(p: seq<byte>, latest: nat, now: nat)
    requires |p| >= INS_FRAME_SIZE
    requires !ValidTimestamp(LE64(p, 0), latest, now) && NextCandidate(p, 1, latest, now).None?
    ensures Scan(p, latest, now) == Reading([], p, latest, 0, 0)
  {
  }

  lemma StepSkip(all: Reading, done: Reading, p: seq<byte>, latest: nat, now: nat, k: nat) returns (done': Reading)
    requires |p| >= INS_FRAME_SIZE && all == Then(done, Scan(p, latest, now))
    requires !ValidTimestamp(LE64(p, 0), latest, now) && NextCandidate(p, 1, latest, now) == Some(k)
    ensures k <= |p| && all == Then(done', Scan(p[k..], latest, now))
    ensures done' == done.(skipped := done.skipped + 1)
  {
    done' := done.(skipped := done.skipped + 1);
  }

  lemma StepRefuse(all: Reading, done: Reading, p: seq<byte>, latest: nat, now: nat) returns (done': Reading)
    requires |p| >= INS_FRAME_SIZE && all == Then(done, Scan(p, latest, now))
    requires ValidTimestamp(LE64(p, 0), latest, now) && !PlausibleFields(FieldsOf(p))
    ensures all == Then(done', Scan(p[1..], latest, now))
    ensures done' == done.(invalid := done.invalid + 1)
  {
    done' := done.(invalid := done.invalid + 1);
  }

  lemma StepDeliver(all: Reading, done: Reading, p: seq<byte>, latest: nat, now: nat) returns (done': Reading)
    requires |p| >= INS_FRAME_SIZE && all == Then(done, Scan(p, latest, now))
    requires ValidTimestamp(LE64(p, 0), latest, now) && PlausibleFields(FieldsOf(p))
    ensures all == Then(done', Scan(p[INS_FRAME_SIZE..], LE64(p, 0), now))
    ensures done' == done.(records := done.records + [FieldsOf(p)])
  {
    hide LE64, ValidTimestamp, PlausibleFields, FieldsOf, NextCandidate;
    done' := done.(records := done.records + [FieldsOf(p)]);
    var r := Scan(p[INS_FRAME_SIZE..], LE64(p, 0), now);
    assert done.records + ([FieldsOf(p)] + r.records) == done'.records + r.records;
  }

  // ---------- What is delivered ----------

  /** Every record is plausible, and its timestamp is believed given the one before it. */
  ghost predicate Chained(records: seq<INSData>, latest: nat, now: nat) {
    records == [] ||
    (ValidTimestamp(records[0].timestampUS, latest, now) && PlausibleFields(records[0])
     && Chained(records[1..], records[0].timestampUS, now))
  }

  /** What is kept is a tail of the input that decides nothing yet. */
  lemma {:induction false} RestIsUndecided(s: seq<byte>, latest: nat, now: nat)
    ensures var r := Scan(s, latest, now);
      && |r.rest| <= |s| && r.rest == s[|s| - |r.rest|..]
      && (|r.rest| < INS_FRAME_SIZE || NextCandidate(r.rest, 0, r.latest, now) == None)
      && |s| >= |r.rest| + INS_FRAME_SIZE * |r.records| + r.skipped + r.invalid
    decreases |s|
  {
    hide LE64, ValidTimestamp, PlausibleFields, FieldsOf;
    if |s| >= INS_FRAME_SIZE {
      if !ValidTimestamp(LE64(s, 0), latest, now) {
        var next := NextCandidate(s, 1, latest, now);
        if next.Some? {
          RestIsUndecided(s[next.value..], latest, now);
        }
      } else if !PlausibleFields(FieldsOf(s)) {
        RestIsUndecided(s[1..], latest, now);
      } else {
        RestIsUndecided(s[INS_FRAME_SIZE..], LE64(s, 0), now);
      }
    }
  }

  /** Delivered records are chained, and the last one's timestamp is remembered. */
  lemma {:induction false} RecordsAreChained(s: seq<byte>, latest: nat, now: nat)
    ensures var r := Scan(s, latest, now);
      && Chained(r.records, latest, now)
      && r.latest == LatestAfter(r.records, |r.records|, latest)
    decreases |s|
  {
    hide LE64, ValidTimestamp, PlausibleFields, NextCandidate;
    if |s| >= INS_FRAME_SIZE {
      if !ValidTimestamp(LE64(s, 0), latest, now) {
        var next := NextCandidate(s, 1, latest, now);
        if next.Some? {
          RecordsAreChained(s[next.value..], latest, now);
        }
      } else if !PlausibleFields(FieldsOf(s)) {
        RecordsAreChained(s[1..], latest, now);
      } else {
        RecordsAreChained(s[INS_FRAME_SIZE..], LE64(s, 0), now);
        ChainedCons(FieldsOf(s), Scan(s[INS_FRAME_SIZE..], LE64(s, 0), now).records, latest, now);
      }
    }
  }

  lemma ChainedCons(d: INSData, rest: seq<INSData>, latest: nat, now: nat)
    requires ValidTimestamp(d.timestampUS, latest, now) && PlausibleFields(d)
    requires Chained(rest, d.timestampUS, now)
    ensures Chained([d] + rest, latest, now)
    ensures LatestAfter([d] + rest, |rest| + 1, latest) == LatestAfter(rest, |rest|, d.timestampUS)
  {
    assert ([d] + rest)[1..] == rest;
  }

  /** The last accepted timestamp once n records of a stream were read. */
  function LatestAfter(records: seq<INSData>, n: nat, latest: nat): nat
    requires n <= |records|
  {
    if n == 0 then latest else records[n - 1].timestampUS
  }

  /** The second record's timestamp lies within ten seconds before and sixty after the first one's. */
  predicate Follows(d: INSData, next: INSData) {
    -SECONDS_10 <= Difference(next.timestampUS, d.timestampUS) <= SECONDS_60
  }

  /** Of everything ever accepted, each record follows the one before it; the last timestamp is remembered. */
  ghost predicate Steady(records: seq<INSData>, latest: nat) {
    && latest == LatestAfter(records, |records|, 0)
    && (forall i :: 0 <= i < |records| ==> records[i].timestampUS > 0 && PlausibleFields(records[i]))
    && forall i, j :: 0 <= i < j < |records| && j == i + 1 ==> Follows(records[i], records[j])
  }

  /** What a reading delivers keeps the whole history steady, whatever the clock says. */
  lemma {:induction false} SteadyChained(records: seq<INSData>, latest: nat, more: seq<INSData>, now: nat)
    requires Steady(records, latest) && Chained(more, latest, now)
    ensures Steady(records + more, LatestAfter(more, |more|, latest))
    decreases |more|
  {
    hide PlausibleFields, Difference;
    if more == [] {
      assert records + more == records;
    } else {
      SteadyStep(records, latest, more[0], now);
      SteadyChained(records + [more[0]], more[0].timestampUS, more[1..], now);
      assert records + [more[0]] + more[1..] == records + more;
    }
  }

  lemma SteadyStep(records: seq<INSData>, latest: nat, d: INSData, now: nat)
    requires Steady(records, latest) && ValidTimestamp(d.timestampUS, latest, now) && PlausibleFields(d)
    ensures Steady(records + [d], d.timestampUS)
  {
    hide PlausibleFields, Difference;
    if records != [] {
      assert Follows(records[|records| - 1], d);
    }
  }

  // ---------- Clean streams ----------

  ghost predicate Sized(frames: seq<seq<byte>>) {
    forall k :: 0 <= k < |frames| ==> |frames[k]| == INS_FRAME_SIZE
  }

  ghost function AllFields(frames: seq<seq<byte>>): (r: seq<INSData>)
    requires Sized(frames)
    ensures |r| == |frames|
  {
    seq(|frames|, k requires 0 <= k < |frames| => FieldsOf(frames[k]))
  }

  /** Full-size records that are plausible one after the other. */
  ghost predicate CleanRecords(frames: seq<seq<byte>>, latest: nat, now: nat) {
    Sized(frames) && Chained(AllFields(frames), latest, now)
  }

  /** Of a clean stream, whole records are delivered and a part of the next one is kept. */
  lemma {:induction false} CleanScan(frames: seq<seq<byte>>, p: seq<byte>, latest: nat, now: nat)
    requires CleanRecords(frames, latest, now) && p <= Flatten(frames)
    ensures var r, n := Scan(p, latest, now), |p| / INS_FRAME_SIZE;
      && n <= |frames| && r.records == AllFields(frames)[..n]
      && r.rest == p[n * INS_FRAME_SIZE..] && r.skipped == r.invalid == 0
    decreases |frames|
  {
    hide LE64, ValidTimestamp, PlausibleFields, FieldsOf;
    if frames == [] {
      assert Flatten(frames) == [];
    } else if |p| >= INS_FRAME_SIZE {
      var f, rest := frames[0], frames[1..];
      assert frames == [f] + rest;
      FlattenCons(f, rest);
      var q := p[INS_FRAME_SIZE..];
      assert p == f + q && q <= Flatten(rest);
      FirstRecord(f, q);
      assert AllFields(frames)[0] == FieldsOf(f) && AllFields(frames)[1..] == AllFields(rest);
      CleanScan(rest, q, LE64(p, 0), now);
      assert |p| / INS_FRAME_SIZE == |q| / INS_FRAME_SIZE + 1;
    } else {
      assert |p| / INS_FRAME_SIZE == 0;
    }
  }

  lemma FirstRecord(f: seq<byte>, q: seq<byte>)
    requires |f| == INS_FRAME_SIZE
    ensures LE64(f + q, 0) == LE64(f, 0) == FieldsOf(f).timestampUS && FieldsOf(f + q) == FieldsOf(f)
  {
    LE64Prefix(f, q, 0);
    FieldsPrefix(f, q);
  }

  /** Of a clean stream read in portions, each portion delivers exactly the records it completes. */
  lemma CleanStep(frames: seq<seq<byte>>, p: seq<byte>, data: seq<byte>, latest: nat, now: nat)
    requires CleanRecords(frames, latest, now) && p + data <= Flatten(frames)
    ensures var all, n, m := AllFields(frames), |p| / INS_FRAME_SIZE, |p + data| / INS_FRAME_SIZE;
      && n <= m <= |frames|
      && Scan(p[n * INS_FRAME_SIZE..] + data, LatestAfter(all, n, latest), now)
         == Reading(all[n..m], (p + data)[m * INS_FRAME_SIZE..], LatestAfter(all, m, latest), 0, 0)
  {
    hide Scan, NextCandidate, Chained, Flatten;
    var all, n, m := AllFields(frames), |p| / INS_FRAME_SIZE, |p + data| / INS_FRAME_SIZE;
    assert p <= p + data;
    CleanScan(frames, p, latest, now);
    RecordsAreChained(p, latest, now);
    CleanScan(frames, p + data, latest, now);
    RecordsAreChained(p + data, latest, now);
    ScanCompose(p, data, latest, now);
    var next := Scan(p[n * INS_FRAME_SIZE..] + data, LatestAfter(all, n, latest), now);
    assert all[..m] == all[..n] + next.records;
    assert next.records == all[..m][n..] == all[n..m];
  }
}
