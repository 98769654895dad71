/**
 The framing format read off a whole byte stream at once.  Parse is the reference
 the sliding-window assembler is measured against: it tries every position in turn,
 knows nothing of buffers, chunks or scan offsets, and reports what it claimed.
 */
module SonarStream {
  import opened Bytes

  const SYNC_WORD_SIZE := 4
  const HEADER_SIZE := 20
  const MIN_FRAME := 40
  const SYNC_MAGIC := 0x534F4E52

  datatype Event =
    | Accepted(at: nat, frame: seq<byte>)
    | Rejected(at: nat)
  {
    /** First position the event does not claim. */
    function End(): nat {
      match this
      case Accepted(at, frame) => at + |frame|
      case Rejected(at) => at + 1
    }
  }

  predicate SyncAt(s: seq<byte>, i: nat) {
    i + SYNC_WORD_SIZE <= |s| && BE32(s, i) == SYNC_MAGIC
  }

  /** The length the header at position i carries. */
  function StatedLength(s: seq<byte>, i: nat): nat
    requires i + HEADER_SIZE <= |s|
  {
    BE16(s, i + 4)
  }

  predicate LengthAllowed(n: nat, limit: nat) {
    MIN_FRAME <= n <= limit
  }

  /** What a stream holds from position pos on, as far as its bytes decide it. */
  function Parse(s: seq<byte>, limit: nat, pos: nat): seq<Event>
    decreases |s| - pos
  {
    if pos + HEADER_SIZE > |s| then []
    else if !SyncAt(s, pos) then Parse(s, limit, pos + 1)
    else
      var n := StatedLength(s, pos);
      if !LengthAllowed(n, limit) then [Rejected(pos)] + Parse(s, limit, pos + 1)
      else if pos + n > |s| then []
      else [Accepted(pos, s[pos..pos + n])] + Parse(s, limit, pos + n)
  }

  function FramesOf(trace: seq<Event>): seq<seq<byte>> {
    if trace == [] then []
    else
      var rest := FramesOf(trace[..|trace| - 1]);
      match trace[|trace| - 1]
      case Accepted(_, frame) => rest + [frame]
      case Rejected(_) => rest
  }

  function Rejections(trace: seq<Event>): nat {
    if trace == [] then 0
    else Rejections(trace[..|trace| - 1]) + if trace[|trace| - 1].Rejected? then 1 else 0
  }

  /** Where the last event of a trace ends. */
  function TraceEnd(trace: seq<Event>): nat {
    if trace == [] then 0 else trace[|trace| - 1].End()
  }

  /** No complete sync word starts in [lo, hi). */
  ghost predicate NoSync(s: seq<byte>, lo: nat, hi: nat) {
    forall i :: lo <= i < hi ==> !SyncAt(s, i)
  }

  /** s followed by t: a name for the quantifier below to be instantiated by. */
  function Extend(s: seq<byte>, t: seq<byte>): seq<byte> {
    s + t
  }

  /**
   The part of s before pos is settled as trace: whatever bytes follow, parsing the
   longer stream gives trace and then whatever parsing from pos gives.
   */
  ghost predicate Settled(s: seq<byte>, limit: nat, trace: seq<Event>, pos: nat) {
    forall t: seq<byte> {:trigger Extend(s, t)} ::
      Parse(Extend(s, t), limit, 0) == trace + Parse(Extend(s, t), limit, pos)
  }

  lemma SettledStart(limit: nat)
    ensures Settled([], limit, [], 0)
  {
    forall t: seq<byte> ensures Parse(Extend([], t), limit, 0) == [] + Parse(Extend([], t), limit, 0) {
    }
  }

  lemma SettledNow(s: seq<byte>, limit: nat, trace: seq<Event>, pos: nat)
    requires Settled(s, limit, trace, pos)
    ensures Parse(s, limit, 0) == trace + Parse(s, limit, pos)
  {
    assert Extend(s, []) == s;
  }

  lemma SettledGrow(s: seq<byte>, limit: nat, trace: seq<Event>, pos: nat, more: seq<byte>)
    requires Settled(s, limit, trace, pos)
    ensures Settled(s + more, limit, trace, pos)
  {
    forall t: seq<byte> ensures Parse(Extend(s + more, t), limit, 0) == trace + Parse(Extend(s + more, t), limit, pos) {
      assert Extend(s + more, t) == Extend(s, more + t);
    }
  }

  lemma SyncAtGrow(s: seq<byte>, t: seq<byte>, i: nat)
    requires i + SYNC_WORD_SIZE <= |s|
    ensures SyncAt(Extend(s, t), i) == SyncAt(s, i)
  {
  }

  /** Positions where no sync word starts may be skipped in one go. */
  lemma {:induction false} ParseSkip(s: seq<byte>, limit: nat, lo: nat, hi: nat)
    requires lo <= hi
    requires NoSync(s, lo, hi)
    ensures Parse(s, limit, lo) == Parse(s, limit, hi)
    decreases hi - lo
  {
    if lo < hi {
      ParseSkip(s, limit, lo + 1, hi);
      assert !SyncAt(s, lo);
    }
  }

  lemma SettledSkip(s: seq<byte>, limit: nat, trace: seq<Event>, pos: nat, next: nat)
    requires Settled(s, limit, trace, pos)
    requires pos <= next
    requires next + SYNC_WORD_SIZE - 1 <= |s| || next == pos
    requires NoSync(s, pos, next)
    ensures Settled(s, limit, trace, next)
  {
    forall t: seq<byte> ensures Parse(Extend(s, t), limit, 0) == trace + Parse(Extend(s, t), limit, next) {
      forall i: nat | pos <= i < next ensures !SyncAt(Extend(s, t), i) {
        SyncAtGrow(s, t, i);
      }
      ParseSkip(Extend(s, t), limit, pos, next);
    }
  }

  lemma SettledReject(s: seq<byte>, limit: nat, trace: seq<Event>, pos: nat)
    requires Settled(s, limit, trace, pos)
    requires pos + HEADER_SIZE <= |s| && SyncAt(s, pos) && !LengthAllowed(StatedLength(s, pos), limit)
    ensures Settled(s, limit, trace + [Rejected(pos)], pos + 1)
  {
    forall t: seq<byte>
      ensures Parse(Extend(s, t), limit, 0) == trace + [Rejected(pos)] + Parse(Extend(s, t), limit, pos + 1)
    {
      SyncAtGrow(s, t, pos);
      assert StatedLength(Extend(s, t), pos) == StatedLength(s, pos);
      assert Parse(Extend(s, t), limit, pos) == [Rejected(pos)] + Parse(Extend(s, t), limit, pos + 1);
    }
  }

  lemma SettledAccept(s: seq<byte>, limit: nat, trace: seq<Event>, pos: nat, n: nat)
    requires Settled(s, limit, trace, pos)
    requires pos + HEADER_SIZE <= |s| && SyncAt(s, pos)
    requires n == StatedLength(s, pos) && LengthAllowed(n, limit) && pos + n <= |s|
    ensures Settled(s, limit, trace + [Accepted(pos, s[pos..pos + n])], pos + n)
  {
    var e := Accepted(pos, s[pos..pos + n]);
    forall t: seq<byte> ensures Parse(Extend(s, t), limit, 0) == trace + [e] + Parse(Extend(s, t), limit, pos + n) {
      SyncAtGrow(s, t, pos);
      assert StatedLength(Extend(s, t), pos) == n;
      assert Extend(s, t)[pos..pos + n] == s[pos..pos + n];
      assert Parse(Extend(s, t), limit, pos) == [e] + Parse(Extend(s, t), limit, pos + n);
    }
  }

  lemma {:induction false} FramesOfConcat(a: seq<Event>, b: seq<Event>)
    ensures FramesOf(a + b) == FramesOf(a) + FramesOf(b)
  {
    if b == [] {
      assert a + b == a;
    } else {
      FramesOfConcat(a, b[..|b| - 1]);
      assert (a + b)[..|a + b| - 1] == a + b[..|b| - 1];
    }
  }

  /** What is read of a stream is read of every longer stream. */
  lemma {:induction false} ParseGrows(s: seq<byte>, t: seq<byte>, limit: nat, pos: nat)
    ensures Parse(s, limit, pos) <= Parse(Extend(s, t), limit, pos)
    decreases |s| - pos
  {
    hide BE32, BE16, SyncFrom;
    if pos + HEADER_SIZE <= |s| {
      SyncAtGrow(s, t, pos);
      LengthGrow(s, t, pos);
      var n := StatedLength(s, pos);
      if !SyncAt(s, pos) {
        ParseGrows(s, t, limit, pos + 1);
      } else if !LengthAllowed(n, limit) {
        ParseGrows(s, t, limit, pos + 1);
      } else if pos + n <= |s| {
        ParseGrows(s, t, limit, pos + n);
        assert Extend(s, t)[pos..pos + n] == s[pos..pos + n];
      }
    }
  }

  lemma LengthGrow(s: seq<byte>, t: seq<byte>, i: nat)
    requires i + HEADER_SIZE <= |s|
    ensures StatedLength(Extend(s, t), i) == StatedLength(s, i)
  {
  }

  lemma FramesOfPrefix(a: seq<Event>, b: seq<Event>)
    requires a <= b
    ensures FramesOf(a) <= FramesOf(b)
  {
    FramesOfConcat(a, b[|a|..]);
    assert a + b[|a|..] == b;
  }

  /** Reading goes on where a read part of the trace ends. */
  lemma {:induction false} ParseResumes(s: seq<byte>, limit: nat, pos: nat, trace: seq<Event>)
    requires trace <= Parse(s, limit, pos)
    ensures Parse(s, limit, pos) == trace + Parse(s, limit, if trace == [] then pos else TraceEnd(trace))
    decreases |s| - pos
  {
    hide BE32, BE16;
    if trace != [] {
      if !SyncAt(s, pos) {
        ParseResumes(s, limit, pos + 1, trace);
      } else {
        var e := Parse(s, limit, pos)[0];
        assert trace == [e] + trace[1..];
        ParseResumes(s, limit, e.End(), trace[1..]);
      }
    }
  }

  /** Whatever a stream holds settles it, up to where the last event ends. */
  lemma SettledByParse(s: seq<byte>, limit: nat)
    ensures Settled(s, limit, Parse(s, limit, 0), TraceEnd(Parse(s, limit, 0)))
  {
    hide Parse;
    var trace := Parse(s, limit, 0);
    forall t: seq<byte>
      ensures Parse(Extend(s, t), limit, 0) == trace + Parse(Extend(s, t), limit, TraceEnd(trace))
    {
      ParseGrows(s, t, limit, 0);
      ParseResumes(Extend(s, t), limit, 0, trace);
    }
  }

  /** The first sync word of s at or behind i, or the end of s when there is none. */
  function SyncFrom(s: seq<byte>, i: nat): (r: nat)
    ensures i <= r
    ensures r < |s| ==> SyncAt(s, r)
    decreases |s| - i
  {
    if i >= |s| || SyncAt(s, i) then i else SyncFrom(s, i + 1)
  }

  lemma {:induction false} SyncFromIs(s: seq<byte>, i: nat, r: nat)
    requires i <= r <= |s| && NoSync(s, i, r) && (r < |s| ==> SyncAt(s, r))
    ensures SyncFrom(s, i) == r
    decreases r - i
  {
    if i < r {
      assert !SyncAt(s, i);
      SyncFromIs(s, i + 1, r);
    }
  }
}
