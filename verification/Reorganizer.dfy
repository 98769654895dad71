/**
 The point-cloud reorganizer: a cache by ping counter, a heap by time and a first-in
 first-out list of counters that together hold the frames submitted last.
 */
module Reorganizer {
  import opened FrameHeap

  type Cache = map<uint16, PointCloudFrame>

  function Counters(log: seq<PointCloudFrame>): (r: seq<uint16>)
    ensures |r| == |log|
  {
    seq(|log|, i requires 0 <= i < |log| => log[i].pingCounter)
  }

  /** No counter comes back within n submissions. */
  ghost predicate DistinctWindows(log: seq<PointCloudFrame>, n: nat) {
    forall i, j :: 0 <= i < j < |log| && j - i <= n ==> log[i].pingCounter != log[j].pingCounter
  }

  ghost predicate KeysOk(cache: Cache) {
    forall k :: k in cache ==> cache[k].pingCounter == k
  }

  /** The frames in the cache. */
  ghost function Held(cache: Cache): multiset<PointCloudFrame> {
    multiset(cache.Values)
  }

  /** The cache holds exactly the submissions from start on, one for each counter. */
  ghost predicate Mirrors(log: seq<PointCloudFrame>, start: nat, cache: Cache) {
    && start <= |log| && |cache| == |log| - start
    && (forall i :: start <= i < |log| ==> log[i].pingCounter in cache && cache[log[i].pingCounter] == log[i])
    && (forall k :: k in cache ==> cache[k] in log[start..])
    && (forall i, j :: start <= i < j < |log| ==> log[i].pingCounter != log[j].pingCounter)
  }

  function Min(a: nat, b: nat): nat {
    if a < b then a else b
  }

  /** What dropping the oldest counters leaves, once at most n frames are cached. */
  ghost function Evicted(cache: Cache, order: seq<uint16>, n: nat): (Cache, seq<uint16>)
    decreases |order|
  {
    if |cache| <= n || order == [] then (cache, order) else Evicted(cache - {order[0]}, order[1..], n)
  }

  // ---------- What the three structures say about each other ----------

  lemma HeldInsert(cache: Cache, f: PointCloudFrame)
    requires KeysOk(cache) && f.pingCounter !in cache
    ensures Held(cache[f.pingCounter := f]) == Held(cache) + multiset{f}
  {
    var c := cache[f.pingCounter := f];
    assert f !in cache.Values;
    assert c.Values == cache.Values + {f} by {
      assert c[f.pingCounter] == f;
      forall v | v in cache.Values ensures v in c.Values {
        var k :| k in cache && cache[k] == v;
        assert c[k] == v;
      }
    }
  }

  lemma HeldRemove(cache: Cache, k: uint16)
    requires KeysOk(cache) && k in cache
    ensures Held(cache) == Held(cache - {k}) + multiset{cache[k]}
  {
    var c := cache - {k};
    assert cache[k] !in c.Values;
    assert cache.Values == c.Values + {cache[k]} by {
      forall v | v in cache.Values && v != cache[k] ensures v in c.Values {
        var j :| j in cache && cache[j] == v;
        assert c[j] == v;
      }
    }
  }

  lemma HeldReplace(cache: Cache, f: PointCloudFrame)
    requires KeysOk(cache) && f.pingCounter in cache
    ensures Held(cache[f.pingCounter := f]) + multiset{cache[f.pingCounter]} == Held(cache) + multiset{f}
  {
    var k := f.pingCounter;
    HeldRemove(cache, k);
    HeldInsert(cache - {k}, f);
    assert (cache - {k})[k := f] == cache[k := f];
  }

  /** While windows are distinct, a counter is cached exactly when it came up among the last n. */
  lemma CollisionIsRepeat(log: seq<PointCloudFrame>, start: nat, cache: Cache, n: nat, f: PointCloudFrame)
    requires KeysOk(cache) && Mirrors(log, start, cache) && |log| - start == Min(|log|, n)
    requires DistinctWindows(log, n)
    ensures DistinctWindows(log + [f], n) <==> f.pingCounter !in cache
  {
    var log' := log + [f];
    if f.pingCounter in cache {
      var i :| 0 <= i < |log[start..]| && log[start..][i] == cache[f.pingCounter];
      assert log'[start + i].pingCounter == log'[|log|].pingCounter;
    } else {
      forall i, j | 0 <= i < j < |log'| && j - i <= n ensures log'[i].pingCounter != log'[j].pingCounter {
        if j < |log| {
          assert log[i].pingCounter != log[j].pingCounter;
        } else {
          assert start <= i && log[i].pingCounter in cache;
        }
      }
    }
  }

  lemma RepeatStays(log: seq<PointCloudFrame>, n: nat, f: PointCloudFrame)
    requires !DistinctWindows(log, n)
    ensures !DistinctWindows(log + [f], n)
  {
    var i, j :| 0 <= i < j < |log| && j - i <= n && log[i].pingCounter == log[j].pingCounter;
    assert (log + [f])[i].pingCounter == (log + [f])[j].pingCounter;
  }

  lemma MirrorsInsert(log: seq<PointCloudFrame>, start: nat, cache: Cache, f: PointCloudFrame)
    requires Mirrors(log, start, cache) && f.pingCounter !in cache
    ensures Mirrors(log + [f], start, cache[f.pingCounter := f])
  {
    var log', c := log + [f], cache[f.pingCounter := f];
    assert log'[start..] == log[start..] + [f];
    assert log'[|log|] == f;
  }

  lemma MirrorsEvict(log: seq<PointCloudFrame>, start: nat, cache: Cache)
    requires KeysOk(cache) && Mirrors(log, start, cache) && start < |log|
    ensures log[start].pingCounter in cache
    ensures Mirrors(log, start + 1, cache - {log[start].pingCounter})
  {
    var k := log[start].pingCounter;
    var c := cache - {k};
    assert log[start..] == [log[start]] + log[start + 1..];
    forall j | j in c ensures c[j] in log[start + 1..] {
      assert cache[j] in log[start..] && cache[j] != log[start];
    }
    assert c.Keys == cache.Keys - {k};
  }

  lemma {:induction false} DistinctOnce(s: seq<PointCloudFrame>, f: PointCloudFrame)
    requires forall i, j :: 0 <= i < j < |s| ==> s[i] != s[j]
    ensures multiset(s)[f] == if f in s then 1 else 0
  {
    if s != [] {
      var init := s[..|s| - 1];
      assert s == init + [s[|s| - 1]];
      DistinctOnce(init, f);
    }
  }

  /** A cache that mirrors the log holds its last submissions, each once. */
  lemma MirrorsHeld(log: seq<PointCloudFrame>, start: nat, cache: Cache)
    requires KeysOk(cache) && Mirrors(log, start, cache)
    ensures Held(cache) == multiset(log[start..])
  {
    var s := log[start..];
    forall f ensures Held(cache)[f] == multiset(s)[f] {
      DistinctOnce(s, f);
      if f in s {
        var i :| 0 <= i < |s| && s[i] == f;
        assert log[start + i] == f && cache[f.pingCounter] == f;
      }
    }
  }

  /** What heap, cache and order say about the submissions, between any two steps. */
  ghost predicate Linked(heap: seq<PointCloudFrame>, cache: Cache, order: seq<uint16>,
                         log: seq<PointCloudFrame>, start: nat, stale: multiset<PointCloudFrame>, n: nat)
  {
    && Ordered(heap, |heap|)
    && KeysOk(cache)
    && (forall k :: k in cache ==> k in order)
    && multiset(heap) == Held(cache) + stale
    && start <= |log| && order == Counters(log)[start..]
    && (stale == multiset{} ==> Mirrors(log, start, cache))
    && (stale == multiset{} <==> DistinctWindows(log, n))
  }

  lemma LinkedEmpty(n: nat)
    ensures Linked([], map[], [], [], 0, multiset{}, n)
  {
  }

  lemma OrderStep(log: seq<PointCloudFrame>, start: nat, order: seq<uint16>)
    requires start <= |log| && order == Counters(log)[start..] && order != []
    ensures start < |log| && order[0] == log[start].pingCounter && order[1..] == Counters(log)[start + 1..]
  {
  }

  /** Every frame in the cache is in the heap. */
  lemma CachedInHeap(heap: seq<PointCloudFrame>, cache: Cache, order: seq<uint16>,
                     log: seq<PointCloudFrame>, start: nat, stale: multiset<PointCloudFrame>, n: nat, k: uint16)
    requires Linked(heap, cache, order, log, start, stale, n) && k in cache
    ensures cache[k] in heap
  {
    assert cache[k] in Held(cache);
    assert cache[k] in multiset(heap);
  }

  lemma TakeOne(all: multiset<PointCloudFrame>, all': multiset<PointCloudFrame>, held: multiset<PointCloudFrame>,
                held': multiset<PointCloudFrame>, stale: multiset<PointCloudFrame>, f: PointCloudFrame)
    requires all == held + stale && held == held' + multiset{f} && all == all' + multiset{f}
    ensures all' == held' + stale
  {
    assert all' == all - multiset{f};
  }

  /** Dropping the oldest counter keeps keys, order and mirror. */
  lemma EvictKeys(cache: Cache, order: seq<uint16>, log: seq<PointCloudFrame>, start: nat)
    requires KeysOk(cache) && (forall k :: k in cache ==> k in order) && order != []
    requires start <= |log| && order == Counters(log)[start..]
    ensures KeysOk(cache - {order[0]}) && forall k :: k in cache - {order[0]} ==> k in order[1..]
    ensures start + 1 <= |log| && order[1..] == Counters(log)[start + 1..]
    ensures Mirrors(log, start, cache) ==> Mirrors(log, start + 1, cache - {order[0]})
  {
    hide Mirrors;
    OrderStep(log, start, order);
    assert order == [order[0]] + order[1..];
    if Mirrors(log, start, cache) {
      MirrorsEvict(log, start, cache);
    }
  }

  /** Dropping the oldest counter, together with the frame cached under it, if any. */
  lemma EvictKeeps(heap: seq<PointCloudFrame>, cache: Cache, order: seq<uint16>,
                   log: seq<PointCloudFrame>, start: nat, stale: multiset<PointCloudFrame>, n: nat,
                   heap': seq<PointCloudFrame>)
    requires Linked(heap, cache, order, log, start, stale, n) && order != []
    requires Ordered(heap', |heap'|)
    requires if order[0] in cache then multiset(heap) == multiset(heap') + multiset{cache[order[0]]} else heap' == heap
    ensures Linked(heap', cache - {order[0]}, order[1..], log, start + 1, stale, n)
  {
    hide Mirrors, DistinctWindows, Held, Ordered, Counters, KeysOk;
    EvictKeys(cache, order, log, start);
    var k := order[0];
    if k in cache {
      HeldRemove(cache, k);
      TakeOne(multiset(heap), multiset(heap'), Held(cache), Held(cache - {k}), stale, cache[k]);
    } else {
      assert cache - {k} == cache;
    }
  }

  /** Taking a frame in: if its counter was cached, the frame it replaces goes stale. */
  lemma InsertKeeps(heap: seq<PointCloudFrame>, cache: Cache, order: seq<uint16>,
                    log: seq<PointCloudFrame>, start: nat, stale: multiset<PointCloudFrame>, n: nat,
                    f: PointCloudFrame, heap': seq<PointCloudFrame>)
    requires Linked(heap, cache, order, log, start, stale, n)
    requires stale == multiset{} ==> |cache| == Min(|log|, n)
    requires Ordered(heap', |heap'|) && multiset(heap') == multiset(heap) + multiset{f}
    ensures var k := f.pingCounter;
      Linked(heap', cache[k := f], order + [k], log + [f], start, WithStale(stale, cache, k), n)
  {
    hide Mirrors, DistinctWindows, Held, Ordered;
    var k := f.pingCounter;
    var cache', stale' := cache[k := f], WithStale(stale, cache, k);
    assert Counters(log + [f])[start..] == Counters(log)[start..] + [k];
    if k in cache {
      HeldReplace(cache, f);
      assert cache[k] in stale';
      assert multiset(heap') == Held(cache') + stale' by {
        assert Held(cache') == Held(cache) + multiset{f} - multiset{cache[k]};
      }
    } else {
      HeldInsert(cache, f);
    }
    assert multiset(heap') == Held(cache') + stale';
    assert stale' == multiset{} ==> stale == multiset{} && k !in cache;
    if stale == multiset{} {
      MirrorsSize(log, start, cache);
      CollisionIsRepeat(log, start, cache, n, f);
      if k !in cache {
        MirrorsInsert(log, start, cache, f);
      }
    } else {
      RepeatStays(log, n, f);
    }
  }

  lemma MirrorsSize(log: seq<PointCloudFrame>, start: nat, cache: Cache)
    requires Mirrors(log, start, cache)
    ensures |cache| == |log| - start
  {
  }

  ghost function WithStale(stale: multiset<PointCloudFrame>, cache: Cache, k: uint16): multiset<PointCloudFrame> {
    if k in cache then stale + multiset{cache[k]} else stale
  }

  /** A cache that is too large leaves something to evict. */
  lemma SomethingToEvict(cache: Cache, order: seq<uint16>)
    requires (forall k :: k in cache ==> k in order) && |cache| > 0
    ensures order != []
  {
    assert cache.Keys != {};
    var k :| k in cache;
  }

  class Reorganizer {
    const maxCacheFrames: nat
    var frameHeap: seq<PointCloudFrame>
    var cache: Cache
    var frameOrder: seq<uint16>

    ghost var log: seq<PointCloudFrame>            // the frames taken in since the last flush
    ghost var start: nat                           // how many of their counters have left frameOrder
    ghost var stale: multiset<PointCloudFrame>     // frames left in the heap when their counter came back

    ghost predicate Valid()
      reads this
    {
      && Linked(frameHeap, cache, frameOrder, log, start, stale, maxCacheFrames)
      && |cache| <= maxCacheFrames
      && (stale == multiset{} ==> |cache| == Min(|log|, maxCacheFrames))
    }

    constructor (maxCacheFrames: nat)
      ensures Valid() && this.maxCacheFrames == maxCacheFrames
      ensures log == [] && cache == map[] && frameHeap == [] && frameOrder == [] && stale == multiset{}
    {
      hide Linked;
      LinkedEmpty(maxCacheFrames);
      this.maxCacheFrames := maxCacheFrames;
      frameHeap, cache, frameOrder := [], map[], [];
      log, start, stale := [], 0, multiset{};
    }

    /** Drops the oldest counter, and the frame cached under it from cache and heap. */
    method EvictOldest()
      requires Linked(frameHeap, cache, frameOrder, log, start, stale, maxCacheFrames)
      modifies this`frameHeap, this`cache, this`frameOrder, this`start
      ensures Linked(frameHeap, cache, frameOrder, log, start, stale, maxCacheFrames)
      ensures if old(frameOrder) == [] then frameOrder == [] && cache == old(cache)
              else frameOrder == old(frameOrder)[1..] && cache == old(cache) - {old(frameOrder)[0]}
    {
      hide Linked, Mirrors, DistinctWindows, Held, Counters;
      LinkedFacts(frameHeap, cache, frameOrder, log, start, stale, maxCacheFrames);
      if |frameOrder| == 0 {
        return;
      }
      var oldestPing := frameOrder[0];
      var remaining := frameHeap;
      if oldestPing in cache {
        var f := cache[oldestPing];
        CachedInHeap(frameHeap, cache, frameOrder, log, start, stale, maxCacheFrames, oldestPing);
        var i := IndexOf(frameHeap, f);
        remaining := Remove(frameHeap, i);
      }
      EvictKeeps(frameHeap, cache, frameOrder, log, start, stale, maxCacheFrames, remaining);
      frameOrder := frameOrder[1..];
      cache := cache - {oldestPing};
      frameHeap := remaining;
      start := start + 1;
    }

    /** Takes a frame in and evicts until the cache is back to size. */
    method SubmitFrame(frame: PointCloudFrame?)
      requires Valid()
      modifies this
      ensures Valid()
      ensures frame == null || frame.numPoints == 0 ==> unchanged(this)
      ensures frame != null && frame.numPoints != 0 ==>
        && log == old(log) + [frame]
        && stale == WithStale(old(stale), old(cache), frame.pingCounter)
        && (cache, frameOrder) == Evicted(old(cache)[frame.pingCounter := frame],
                                          old(frameOrder) + [frame.pingCounter], maxCacheFrames)
    {
      hide Linked, Mirrors, DistinctWindows, Held, Counters;
      if frame == null || frame.numPoints == 0 {
        return;
      }
      LinkedFacts(frameHeap, cache, frameOrder, log, start, stale, maxCacheFrames);
      ghost var heap0 := frameHeap;
      var pushed := Push(frameHeap, frame);
      InsertKeeps(frameHeap, cache, frameOrder, log, start, stale, maxCacheFrames, frame, pushed);
      stale := WithStale(stale, cache, frame.pingCounter);
      cache := cache[frame.pingCounter := frame];
      frameHeap := pushed;
      frameOrder := frameOrder + [frame.pingCounter];
      log := log + [frame];
      ghost var c0, o0 := cache, frameOrder;
      while |cache| > maxCacheFrames
        invariant Linked(frameHeap, cache, frameOrder, log, start, stale, maxCacheFrames)
        invariant stale == multiset{} ==> |cache| >= Min(|log|, maxCacheFrames)
        invariant Evicted(c0, o0, maxCacheFrames) == Evicted(cache, frameOrder, maxCacheFrames)
        invariant log == old(log) + [frame]
        invariant stale == WithStale(old(stale), old(cache), frame.pingCounter)
        decreases |frameOrder|
      {
        LinkedFacts(frameHeap, cache, frameOrder, log, start, stale, maxCacheFrames);
        SomethingToEvict(cache, frameOrder);
        OneLess(cache, frameOrder[0]);
        EvictOldest();
      }
      LinkedFacts(frameHeap, cache, frameOrder, log, start, stale, maxCacheFrames);
    }

    /** The heap's frames, earliest first; nothing changes. */
    method GetOrderedFrames() returns (result: seq<PointCloudFrame>)
      requires Valid()
      ensures InTimeOrder(result) && multiset(result) == Held(cache) + stale
      ensures DistinctWindows(log, maxCacheFrames) ==>
        multiset(result) == multiset(log[|log| - Min(|log|, maxCacheFrames)..])
    {
      LinkedFacts(frameHeap, cache, frameOrder, log, start, stale, maxCacheFrames);
      hide Linked, Mirrors, DistinctWindows, Counters, Held;
      result := Drain(frameHeap);
    }

    /** Hands out everything, earliest first, and starts afresh. */
    method Flush() returns (result: seq<PointCloudFrame>)
      requires Valid()
      modifies this
      ensures Valid() && cache == map[] && frameHeap == [] && frameOrder == [] && log == [] && stale == multiset{}
      ensures InTimeOrder(result) && multiset(result) == old(Held(cache)) + old(stale)
    {
      LinkedFacts(frameHeap, cache, frameOrder, log, start, stale, maxCacheFrames);
      hide Linked, Held;
      LinkedEmpty(maxCacheFrames);
      result := Drain(frameHeap);
      cache, frameHeap, frameOrder := map[], [], [];
      log, start, stale := [], 0, multiset{};
    }
  }

  /** The heap holds the cached frames and nothing else exactly when no counter came back too soon. */
  lemma HeapMirrorsCacheIff(r: Reorganizer)
    requires r.Valid()
    ensures multiset(r.frameHeap) == Held(r.cache) <==> DistinctWindows(r.log, r.maxCacheFrames)
    ensures Held(r.cache) <= multiset(r.frameHeap)
  {
    hide Mirrors, Held, DistinctWindows;
    LinkedFacts(r.frameHeap, r.cache, r.frameOrder, r.log, r.start, r.stale, r.maxCacheFrames);
    assert r.stale == Held(r.cache) + r.stale - Held(r.cache);
  }

  /** While no counter comes back too soon, the cache is the window of the last submissions, each under its counter. */
  lemma CacheIsWindow(r: Reorganizer)
    requires r.Valid() && DistinctWindows(r.log, r.maxCacheFrames)
    ensures var first := |r.log| - Min(|r.log|, r.maxCacheFrames);
      && |r.cache| == |r.log| - first
      && forall i :: first <= i < |r.log| ==>
           r.log[i].pingCounter in r.cache && r.cache[r.log[i].pingCounter] == r.log[i]
  {
    hide Held, Ordered;
    MirrorsSize(r.log, r.start, r.cache);
  }

  /**
   Two frames with one counter, one after the other: the cache holds the second under it, while the heap, and what is
   read out in order, still hold both.
   */
  method StaleFrameStays(f: PointCloudFrame, g: PointCloudFrame, n: nat)
    returns (r: Reorganizer, ordered: seq<PointCloudFrame>)
    requires f.pingCounter == g.pingCounter && f.numPoints != 0 && g.numPoints != 0 && n >= 1
    ensures r.Valid() && r.cache == map[f.pingCounter := g] && r.stale == multiset{f}
    ensures multiset(r.frameHeap) == multiset(ordered) == multiset{f, g}
  {
    hide Linked, Mirrors, DistinctWindows, Counters;
    var k := f.pingCounter;
    r := new Reorganizer(n);
    r.SubmitFrame(f);
    assert map[][k := f] == map[k := f] && |map[k := f]| == 1;
    assert r.cache == map[k := f];
    r.SubmitFrame(g);
    assert r.cache == map[k := g] by {
      assert map[k := f][k := g] == map[k := g] && |map[k := g]| == 1;
    }
    HeldOne(k, g);
    ordered := r.GetOrderedFrames();
    LinkedFacts(r.frameHeap, r.cache, r.frameOrder, r.log, r.start, r.stale, r.maxCacheFrames);
  }

  lemma HeldOne(k: uint16, f: PointCloudFrame)
    ensures Held(map[k := f]) == multiset{f}
  {
    var c := map[k := f];
    assert c.Values == {f} by {
      assert c[k] == f;
    }
  }

  /** The place of a frame in the heap, by identity. */
  method IndexOf(heap: seq<PointCloudFrame>, f: PointCloudFrame) returns (i: nat)
    requires f in heap
    ensures i < |heap| && heap[i] == f && f !in heap[..i]
  {
    i := 0;
    while heap[i] != f
      invariant 0 <= i < |heap| && f !in heap[..i]
      decreases |heap| - i
    {
      assert exists k :: 0 <= k < |heap| && heap[k] == f && k != i;
      i := i + 1;
    }
  }

  lemma OneLess(cache: Cache, k: uint16)
    ensures |cache - {k}| >= |cache| - 1
  {
    var c := cache - {k};
    assert cache.Keys <= c.Keys + {k};
    SubsetSize(cache.Keys, c.Keys + {k});
  }

  lemma {:induction false} SubsetSize<T>(a: set<T>, b: set<T>)
    requires a <= b
    ensures |a| <= |b|
    decreases |a|
  {
    if a != {} {
      var x :| x in a;
      SubsetSize(a - {x}, b - {x});
    }
  }

  /** What the users of Linked need of it. */
  lemma LinkedFacts(heap: seq<PointCloudFrame>, cache: Cache, order: seq<uint16>,
                    log: seq<PointCloudFrame>, start: nat, stale: multiset<PointCloudFrame>, n: nat)
    requires Linked(heap, cache, order, log, start, stale, n)
    ensures Ordered(heap, |heap|) && multiset(heap) == Held(cache) + stale
    ensures forall k :: k in cache ==> k in order
    ensures stale == multiset{} <==> DistinctWindows(log, n)
    ensures stale == multiset{} ==> |cache| == |log| - start && Held(cache) == multiset(log[start..])
  {
    if stale == multiset{} {
      MirrorsHeld(log, start, cache);
    }
  }
}
