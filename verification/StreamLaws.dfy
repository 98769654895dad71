/** How Parse reads clean streams: whole frames, one behind the other. */
module StreamLaws {
  import opened Bytes
  import opened SonarStream
  import opened AssemblerHistory
  import opened ResetLaws

  /** The trace of frames laid end to end from position at. */
  function CleanTrace(frames: seq<seq<byte>>, at: nat): (r: seq<Event>)
    ensures |r| == |frames|
  {
    if frames == [] then [] else [Accepted(at, frames[0])] + CleanTrace(frames[1..], at + |frames[0]|)
  }

  /** Whatever sync-like bytes the payloads hold, clean frames are read back one by one. */
  lemma {:induction false} CleanParse(before: seq<byte>, frames: seq<seq<byte>>, limit: nat)
    requires AllWellFormed(frames, limit)
    ensures Parse(before + Flatten(frames), limit, |before|) == CleanTrace(frames, |before|)
    decreases |frames|
  {
    hide BE32, BE16;
    if frames == [] {
      assert Flatten(frames) == [];
    } else {
      var f, rest, pos := frames[0], frames[1..], |before|;
      assert frames == [f] + rest;
      FlattenCons(f, rest);
      var s := before + Flatten(frames);
      assert s == (before + f) + Flatten(rest);
      assert s[pos..pos + |f|] == f;
      HeaderInside(before, f, Flatten(rest));
      assert WellFormed(frames[0], limit);
      CleanParse(before + f, rest, limit);
    }
  }

  lemma HeaderInside(before: seq<byte>, f: seq<byte>, after: seq<byte>)
    requires |f| >= HEADER_SIZE
    ensures var s := before + f + after;
      SyncAt(s, |before|) == SyncAt(f, 0) && StatedLength(s, |before|) == StatedLength(f, 0)
  {
  }

  lemma {:induction false} CleanFrames(frames: seq<seq<byte>>, at: nat)
    ensures FramesOf(CleanTrace(frames, at)) == frames
    ensures Rejections(CleanTrace(frames, at)) == 0
    ensures TraceEnd(CleanTrace(frames, at)) == if frames == [] then 0 else at + |Flatten(frames)|
    decreases |frames|
  {
    if frames != [] {
      CleanSnoc(frames[..|frames| - 1], frames[|frames| - 1], at);
      assert frames[..|frames| - 1] + [frames[|frames| - 1]] == frames;
      CleanFrames(frames[..|frames| - 1], at);
    }
  }

  lemma {:induction false} CleanSnoc(frames: seq<seq<byte>>, last: seq<byte>, at: nat)
    ensures CleanTrace(frames + [last], at) == CleanTrace(frames, at) + [Accepted(at + |Flatten(frames)|, last)]
    decreases |frames|
  {
    if frames == [] {
      assert Flatten(frames) == [];
      assert [] + [last] == [last] && [last][1..] == [];
    } else {
      var f, rest := frames[0], frames[1..];
      assert frames == [f] + rest;
      assert (frames + [last])[1..] == rest + [last];
      FlattenCons(f, rest);
      CleanSnoc(rest, last, at + |f|);
    }
  }

  /** What is left to parse of a clean stream starts at a sync word, unless nothing is left. */
  lemma CleanNext(frames: seq<seq<byte>>, limit: nat, whole: seq<byte>, trace: seq<Event>, p: nat)
    requires AllWellFormed(frames, limit) && whole == Flatten(frames)
    requires CleanTrace(frames, 0) == trace + Parse(whole, limit, p)
    requires TraceEnd(trace) <= p < |whole|
    ensures SyncAt(whole, p)
  {
    hide StatedLength, BE32, Parse;
    var j := |trace|;
    CleanPrefix(frames, j);
    assert CleanTrace(frames, 0)[..j] == trace;
    if j < |frames| {
      ParseStartsAfter(whole, limit, p);
      assert CleanTrace(frames, 0)[j] == Parse(whole, limit, p)[0];
      HeaderInside(Flatten(frames[..j]), frames[j], Flatten(frames[j + 1..]));
      assert WellFormed(frames[j], limit);
    }
  }

  /** In a clean stream the scan never runs out of sync words: it waits exactly at a frame boundary. */
  lemma CleanNeverBarren(s: seq<byte>, t: seq<byte>, frames: seq<seq<byte>>, limit: nat, trace: seq<Event>, p: nat)
    requires AllWellFormed(frames, limit) && s + t == Flatten(frames)
    requires Settled(s, limit, trace, p) && TraceEnd(trace) <= p && p + SYNC_WORD_SIZE <= |s|
    ensures !NoSync(s, p, |s|)
  {
    hide Parse, CleanTrace, BE32, AllWellFormed;
    var whole := Extend(s, t);
    assert [] + Flatten(frames) == whole;
    CleanParse([], frames, limit);
    CleanNext(frames, limit, whole, trace, p);
    SyncAtGrow(s, t, p);
    assert SyncAt(s, p);
  }

  lemma CleanPrefix(frames: seq<seq<byte>>, j: nat)
    requires j <= |frames|
    ensures TraceEnd(CleanTrace(frames, 0)[..j]) == |Flatten(frames[..j])|
    ensures j == |frames| ==> frames[..j] == frames
    ensures j < |frames| ==> CleanTrace(frames, 0)[j].at == |Flatten(frames[..j])|
    ensures j < |frames| ==> Flatten(frames) == Flatten(frames[..j]) + frames[j] + Flatten(frames[j + 1..])
  {
    CleanAppend(frames[..j], frames[j..], 0);
    FlattenConcat(frames[..j], frames[j..]);
    assert frames[..j] + frames[j..] == frames;
    CleanFrames(frames[..j], 0);
    if j < |frames| {
      assert frames[j..] == [frames[j]] + frames[j + 1..];
      FlattenCons(frames[j], frames[j + 1..]);
    }
  }

  lemma {:induction false} CleanAppend(xs: seq<seq<byte>>, ys: seq<seq<byte>>, at: nat)
    ensures CleanTrace(xs + ys, at) == CleanTrace(xs, at) + CleanTrace(ys, at + |Flatten(xs)|)
    decreases |xs|
  {
    if xs == [] {
      assert xs + ys == ys && Flatten(xs) == [];
    } else {
      var x, rest := xs[0], xs[1..];
      assert xs == [x] + rest && xs + ys == [x] + (rest + ys);
      FlattenCons(x, rest);
      CleanAppend(rest, ys, at + |x|);
    }
  }
}
