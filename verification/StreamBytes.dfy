/** The bytes of a stream: those of its frames, and those no frame took. */
module StreamBytes {
  import opened Bytes
  import opened SonarStream
  import opened LeftmostReading

  /** Position p belongs to a frame of the trace. */
  ghost predicate InFrame(trace: seq<Event>, p: nat) {
    exists i :: 0 <= i < |trace| && trace[i].Accepted? && trace[i].at <= p < trace[i].End()
  }

  /** The positions before pos that no frame of the trace took. */
  ghost function Skipped(trace: seq<Event>, pos: nat): set<nat> {
    set p: nat | p < pos && !InFrame(trace, p)
  }

  ghost predicate From(lo: nat, p: nat) {
    lo <= p
  }

  ghost function Range(lo: nat, hi: nat): set<nat> {
    set p: nat | p < hi && From(lo, p)
  }

  lemma {:induction false} RangeSize(lo: nat, hi: nat)
    requires lo <= hi
    ensures |Range(lo, hi)| == hi - lo
    decreases hi - lo
  {
    if lo < hi {
      RangeSize(lo, hi - 1);
      assert Range(lo, hi) == Range(lo, hi - 1) + {hi - 1};
    }
  }

  lemma InFrameSnoc(trace: seq<Event>, e: Event, p: nat)
    ensures InFrame(trace + [e], p) == (InFrame(trace, p) || (e.Accepted? && e.at <= p < e.End()))
  {
    var all := trace + [e];
    assert all[|trace|] == e;
    if InFrame(trace, p) {
      var i :| 0 <= i < |trace| && trace[i].Accepted? && trace[i].at <= p < trace[i].End();
      assert all[i] == trace[i];
    }
  }

  lemma SkippedReject(init: seq<Event>, e: Event, pos: nat)
    requires e.Rejected?
    ensures Skipped(init + [e], pos) == Skipped(init, pos)
  {
    hide InFrame;
    forall p: nat ensures InFrame(init + [e], p) == InFrame(init, p) {
      InFrameSnoc(init, e, p);
    }
  }

  lemma SkippedAccept(init: seq<Event>, e: Event, pos: nat)
    requires e.Accepted? && e.End() <= pos && InOrder(init, 0) && TraceEnd(init) <= e.at
    ensures |Skipped(init + [e], pos)| == |Skipped(init, e.at)| + (pos - e.End())
  {
    hide InFrame, InOrder, TraceEnd;
    NothingBehind(init, e.at);
    forall p: nat ensures InFrame(init + [e], p) == (InFrame(init, p) || e.at <= p < e.End()) {
      InFrameSnoc(init, e, p);
    }
    RangeSize(e.End(), pos);
    assert Skipped(init + [e], pos) == Skipped(init, e.at) + Range(e.End(), pos);
    assert Skipped(init, e.at) * Range(e.End(), pos) == {};
  }

  /** Frames claimed in order share no byte, so lengths and skipped positions add up. */
  lemma {:induction false} FramesAndGaps(trace: seq<Event>, pos: nat)
    requires InOrder(trace, 0) && TraceEnd(trace) <= pos
    ensures |Flatten(FramesOf(trace))| + |Skipped(trace, pos)| == pos
    decreases |trace|
  {
    hide Skipped;
    if trace == [] {
      EverythingSkipped(pos);
      assert FramesOf(trace) == [];
    } else {
      var init, e := trace[..|trace| - 1], trace[|trace| - 1];
      assert trace == init + [e];
      PrefixInOrder(init, [e], 0);
      if e.Rejected? {
        EndBefore(trace);
        FramesAndGaps(init, pos);
        SkippedReject(init, e, pos);
      } else {
        EndBefore(trace);
        FramesAndGaps(init, e.at);
        FlattenSnoc(FramesOf(init), e.frame);
        SkippedAccept(init, e, pos);
      }
    }
  }

  lemma EverythingSkipped(pos: nat)
    ensures |Skipped([], pos)| == pos
  {
    RangeSize(0, pos);
    assert Skipped([], pos) == Range(0, pos);
  }

  lemma EndBefore(trace: seq<Event>)
    requires InOrder(trace, 0) && trace != []
    ensures TraceEnd(trace[..|trace| - 1]) <= trace[|trace| - 1].at
  {
    if |trace| > 1 {
      assert trace[|trace| - 2].End() <= trace[|trace| - 1].at;
    }
  }

  lemma NothingBehind(trace: seq<Event>, at: nat)
    requires InOrder(trace, 0) && TraceEnd(trace) <= at
    ensures forall p: nat :: p >= at ==> !InFrame(trace, p)
  {
    forall i | 0 <= i < |trace| ensures trace[i].End() <= at {
      if i < |trace| - 1 {
        assert trace[i].End() <= trace[|trace| - 1].at;
      }
    }
  }

  lemma PrefixInOrder(a: seq<Event>, b: seq<Event>, from: nat)
    requires InOrder(a + b, from)
    ensures InOrder(a, from)
  {
    forall i, j | 0 <= i < j < |a| ensures a[i].End() <= a[j].at {
      assert (a + b)[i] == a[i] && (a + b)[j] == a[j];
    }
    assert a != [] ==> (a + b)[0] == a[0];
  }
}
