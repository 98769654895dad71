/** What Parse promises, stated without running it: the one leftmost reading of a stream. */
module LeftmostReading {
  import opened Bytes
  import opened SonarStream

  /** The bytes of s bear the event out. */
  ghost predicate Justified(s: seq<byte>, limit: nat, e: Event) {
    match e
    case Accepted(at, frame) =>
      && at + |frame| <= |s| && MIN_FRAME <= |frame| && SyncAt(s, at)
      && frame == s[at..at + |frame|]
      && StatedLength(s, at) == |frame| && LengthAllowed(|frame|, limit)
    case Rejected(at) =>
      at + HEADER_SIZE <= |s| && SyncAt(s, at) && !LengthAllowed(StatedLength(s, at), limit)
  }

  /** Events claim disjoint ranges, left to right, from position from on. */
  ghost predicate InOrder(trace: seq<Event>, from: nat) {
    && (trace != [] ==> from <= trace[0].at)
    && forall i, j :: 0 <= i < j < |trace| ==> trace[i].End() <= trace[j].at
  }

  /** A header whose frame is not all here yet. */
  ghost predicate Incomplete(s: seq<byte>, limit: nat, q: nat) {
    && q + HEADER_SIZE <= |s| && SyncAt(s, q)
    && LengthAllowed(StatedLength(s, q), limit) && q + StatedLength(s, q) > |s|
  }

  /** Position p lies inside an event, or behind a frame that has to be waited for. */
  ghost predicate AccountedFor(s: seq<byte>, limit: nat, trace: seq<Event>, from: nat, p: nat) {
    || (exists i :: 0 <= i < |trace| && trace[i].at <= p < trace[i].End())
    || (exists q :: from <= q <= p && (forall i :: 0 <= i < |trace| ==> trace[i].End() <= q) && Incomplete(s, limit, q))
  }

  /** trace reads s from pos on, taking every sync word it is not inside or waiting behind a frame for. */
  ghost predicate Leftmost(s: seq<byte>, limit: nat, pos: nat, trace: seq<Event>) {
    && (forall i :: 0 <= i < |trace| ==> Justified(s, limit, trace[i]))
    && InOrder(trace, pos)
    && (forall p :: pos <= p && p + HEADER_SIZE <= |s| && SyncAt(s, p) ==> AccountedFor(s, limit, trace, pos, p))
  }

  lemma LeftmostSkip(s: seq<byte>, limit: nat, pos: nat, trace: seq<Event>)
    requires pos + HEADER_SIZE <= |s| && !SyncAt(s, pos)
    ensures Leftmost(s, limit, pos, trace) == Leftmost(s, limit, pos + 1, trace)
  {
    assert trace != [] && Justified(s, limit, trace[0]) ==> trace[0].at != pos;
    forall p | pos + 1 <= p
      ensures AccountedFor(s, limit, trace, pos, p) == AccountedFor(s, limit, trace, pos + 1, p)
    {
    }
  }

  lemma InOrderCons(e: Event, rest: seq<Event>)
    requires e.Accepted? ==> |e.frame| > 0
    ensures InOrder([e] + rest, e.at) == InOrder(rest, e.End())
  {
    var trace := [e] + rest;
    assert forall i :: 0 <= i < |rest| ==> trace[i + 1] == rest[i];
    assert forall i :: 1 <= i < |trace| ==> trace[i] == rest[i - 1];
  }

  lemma AccountedCons(s: seq<byte>, limit: nat, e: Event, rest: seq<Event>, p: nat)
    requires InOrder(rest, e.End()) && e.at <= p
    ensures AccountedFor(s, limit, [e] + rest, e.at, p) == (p < e.End() || AccountedFor(s, limit, rest, e.End(), p))
  {
    hide Incomplete;
    var trace := [e] + rest;
    assert forall i :: 0 <= i < |rest| ==> trace[i + 1] == rest[i];
    assert forall i :: 1 <= i < |trace| ==> trace[i] == rest[i - 1];
    if p < e.End() {
      assert trace[0].at <= p < trace[0].End();
    }
  }

  lemma LeftmostCons(s: seq<byte>, limit: nat, pos: nat, e: Event, rest: seq<Event>)
    requires e.at == pos && Justified(s, limit, e)
    ensures Leftmost(s, limit, pos, [e] + rest) == Leftmost(s, limit, e.End(), rest)
  {
    var trace := [e] + rest;
    InOrderCons(e, rest);
    hide Justified, AccountedFor, InOrder;
    assert forall i :: 0 <= i < |rest| ==> trace[i + 1] == rest[i];
    assert forall i :: 1 <= i < |trace| ==> trace[i] == rest[i - 1];
    if InOrder(rest, e.End()) {
      forall p | pos <= p {
        AccountedCons(s, limit, e, rest, p);
      }
    }
  }

  lemma LeftmostWait(s: seq<byte>, limit: nat, pos: nat)
    requires pos + HEADER_SIZE > |s| || Incomplete(s, limit, pos)
    ensures Leftmost(s, limit, pos, [])
  {
  }

  /** Parse meets the declarative reading ... */
  lemma {:induction false} ParseIsLeftmost(s: seq<byte>, limit: nat, pos: nat)
    ensures Leftmost(s, limit, pos, Parse(s, limit, pos))
    decreases |s| - pos
  {
    hide Leftmost;
    if pos + HEADER_SIZE > |s| || Incomplete(s, limit, pos) {
      LeftmostWait(s, limit, pos);
    } else {
      if !SyncAt(s, pos) {
        ParseIsLeftmost(s, limit, pos + 1);
        LeftmostSkip(s, limit, pos, Parse(s, limit, pos));
      } else {
        var n := StatedLength(s, pos);
        if !LengthAllowed(n, limit) {
          ParseIsLeftmost(s, limit, pos + 1);
          LeftmostCons(s, limit, pos, Rejected(pos), Parse(s, limit, pos + 1));
        } else {
          ParseIsLeftmost(s, limit, pos + n);
          LeftmostCons(s, limit, pos, Accepted(pos, s[pos..pos + n]), Parse(s, limit, pos + n));
        }
      }
    }
  }

  /** The event a leftmost reading must open with when a header stands at pos. */
  lemma LeftmostHead(s: seq<byte>, limit: nat, pos: nat, trace: seq<Event>)
    requires Leftmost(s, limit, pos, trace)
    requires pos + HEADER_SIZE <= |s| && SyncAt(s, pos)
    ensures Incomplete(s, limit, pos) ==> trace == []
    ensures !Incomplete(s, limit, pos) ==> trace != [] && trace[0].at == pos && Justified(s, limit, trace[0])
  {
    hide BE32, BE16;
    assert AccountedFor(s, limit, trace, pos, pos);
    if trace != [] {
      var e := trace[0];
      assert Justified(s, limit, e) && pos <= e.at;
      assert forall i :: 0 <= i < |trace| ==> e.at <= trace[i].at;
    }
  }

  lemma LeftmostShort(s: seq<byte>, limit: nat, pos: nat, trace: seq<Event>)
    requires Leftmost(s, limit, pos, trace) && pos + HEADER_SIZE > |s|
    ensures trace == []
  {
    assert trace != [] ==> Justified(s, limit, trace[0]);
  }

  lemma HeadIsForced(s: seq<byte>, limit: nat, pos: nat, e: Event)
    requires e.at == pos && Justified(s, limit, e)
    ensures pos + HEADER_SIZE <= |s| && Parse(s, limit, pos) == [e] + Parse(s, limit, e.End())
  {
  }

  /** ... and is the only reading that does. */
  lemma {:induction false} LeftmostIsParse(s: seq<byte>, limit: nat, pos: nat, trace: seq<Event>)
    requires Leftmost(s, limit, pos, trace)
    ensures trace == Parse(s, limit, pos)
    decreases |s| - pos
  {
    hide Leftmost, Justified, SyncAt, LengthAllowed;
    if pos + HEADER_SIZE > |s| {
      LeftmostShort(s, limit, pos, trace);
    } else if !SyncAt(s, pos) {
      LeftmostSkip(s, limit, pos, trace);
      LeftmostIsParse(s, limit, pos + 1, trace);
    } else {
      LeftmostHead(s, limit, pos, trace);
      if trace != [] {
        var e, rest := trace[0], trace[1..];
        assert trace == [e] + rest;
        HeadIsForced(s, limit, pos, e);
        LeftmostCons(s, limit, pos, e, rest);
        LeftmostIsParse(s, limit, e.End(), rest);
      }
    }
  }
}
