/** The frame heap: a binary min-heap on timestamps, with the sift operations of container/heap. */
module FrameHeap {
  type uint16 = x: int | 0 <= x < 0x1_0000

  /** A frame is known by its identity; the heap orders frames by time. */
  class PointCloudFrame {
    const timestampUS: nat
    const pingCounter: uint16
    const numPoints: int

    constructor (timestampUS: nat, pingCounter: uint16, numPoints: int)
      ensures this.timestampUS == timestampUS && this.pingCounter == pingCounter && this.numPoints == numPoints
    {
      this.timestampUS, this.pingCounter, this.numPoints := timestampUS, pingCounter, numPoints;
    }
  }

  predicate Less(h: seq<PointCloudFrame>, i: nat, j: nat)
    requires i < |h| && j < |h|
  {
    h[i].timestampUS < h[j].timestampUS
  }

  function Swap(h: seq<PointCloudFrame>, i: nat, j: nat): (r: seq<PointCloudFrame>)
    requires i < |h| && j < |h|
    ensures |r| == |h|
  {
    h[i := h[j]][j := h[i]]
  }

  function Parent(j: nat): (p: nat)
    ensures p <= j && (j > 0 ==> p < j)
  {
    if j == 0 then 0 else (j - 1) / 2
  }

  /** Entry k is not before its parent. */
  ghost predicate Fits(h: seq<PointCloudFrame>, k: nat)
    requires k < |h|
  {
    h[Parent(k)].timestampUS <= h[k].timestampUS
  }

  /** The first n entries form a heap. */
  ghost predicate Ordered(h: seq<PointCloudFrame>, n: nat) {
    n <= |h| && forall k :: 0 <= k < n ==> Fits(h, k)
  }

  /** The first n entries form a heap once the entry at i finds its place. */
  ghost predicate OrderedExcept(h: seq<PointCloudFrame>, n: nat, i: nat) {
    && n <= |h| && i < n
    && (forall k :: 0 <= k < n && k != i && Parent(k) != i ==> Fits(h, k))
    && (i > 0 ==> forall k :: 0 < k < n && Parent(k) == i ==> h[Parent(i)].timestampUS <= h[k].timestampUS)
  }

  /** Nothing below i comes before it. */
  ghost predicate Above(h: seq<PointCloudFrame>, n: nat, i: nat) {
    n <= |h| && forall k :: 0 < k < n && Parent(k) == i ==> Fits(h, k)
  }

  lemma SwapKeeps(h: seq<PointCloudFrame>, i: nat, j: nat, n: nat)
    requires i < n <= |h| && j < n
    ensures multiset(Swap(h, i, j)) == multiset(h) && Swap(h, i, j)[n..] == h[n..]
  {
  }

  /** The children of i are at 2i+1 and 2i+2. */
  lemma Children(i: nat, k: nat)
    requires k > 0
    ensures Parent(k) == i <==> k == 2 * i + 1 || k == 2 * i + 2
    ensures Parent(k) < k
  {
  }

  lemma UpStep(h: seq<PointCloudFrame>, n: nat, j: nat)
    requires OrderedExcept(h, n, j) && Above(h, n, j) && j > 0 && Less(h, j, Parent(j))
    ensures OrderedExcept(Swap(h, Parent(j), j), n, Parent(j)) && Above(Swap(h, Parent(j), j), n, Parent(j))
  {
    hide Parent;
    var i := Parent(j);
    var h' := Swap(h, i, j);
    forall k | 0 <= k < n && k != i && Parent(k) != i ensures Fits(h', k) {
      assert k != j;
      if Parent(k) != j {
        assert Fits(h, k);
      }
    }
    forall k | 0 < k < n && Parent(k) == i ensures Fits(h', k) {
      if k != j {
        assert Fits(h, k);
      }
    }
    if i > 0 {
      assert Fits(h, i);
      forall k | 0 < k < n && Parent(k) == i ensures h'[Parent(i)].timestampUS <= h'[k].timestampUS {
        if k != j {
          assert Fits(h, k);
        }
      }
    }
  }

  lemma UpDone(h: seq<PointCloudFrame>, n: nat, j: nat)
    requires OrderedExcept(h, n, j) && Above(h, n, j) && (j == 0 || !Less(h, j, Parent(j)))
    ensures Ordered(h, n)
  {
    hide Parent;
  }

  /** j is the child of i that comes first. */
  ghost predicate FirstChild(h: seq<PointCloudFrame>, n: nat, i: nat, j: nat) {
    && n <= |h| && 0 < j < n && Parent(j) == i
    && forall k :: 0 < k < n && Parent(k) == i ==> h[j].timestampUS <= h[k].timestampUS
  }

  lemma DownStep(h: seq<PointCloudFrame>, n: nat, i: nat, j: nat)
    requires OrderedExcept(h, n, i) && FirstChild(h, n, i, j) && Less(h, j, i)
    ensures OrderedExcept(Swap(h, i, j), n, j) && Fits(Swap(h, i, j), j)
  {
    hide Parent;
    var h' := Swap(h, i, j);
    forall k | 0 <= k < n && k != j && Parent(k) != j ensures Fits(h', k) {
      if k != i && Parent(k) != i {
        assert Fits(h, k);
      }
    }
    forall k | 0 < k < n && Parent(k) == j ensures h'[Parent(j)].timestampUS <= h'[k].timestampUS {
      assert Fits(h, k);
    }
  }

  lemma DownDone(h: seq<PointCloudFrame>, n: nat, i: nat, j: nat)
    requires OrderedExcept(h, n, i) && FirstChild(h, n, i, j) && !Less(h, j, i)
    ensures Above(h, n, i)
  {
    hide Parent;
  }

  lemma PlacedIsOrdered(h: seq<PointCloudFrame>, n: nat, i: nat)
    requires OrderedExcept(h, n, i) && Above(h, n, i) && Fits(h, i)
    ensures Ordered(h, n)
  {
    hide Parent;
  }

  lemma LeafIsAbove(h: seq<PointCloudFrame>, n: nat, i: nat)
    requires n <= |h| && 2 * i + 1 >= n
    ensures Above(h, n, i)
  {
  }

  lemma FirstOfTwo(h: seq<PointCloudFrame>, n: nat, i: nat, j: nat)
    requires n <= |h| && 2 * i + 1 < n
    requires j == if 2 * i + 2 < n && Less(h, 2 * i + 2, 2 * i + 1) then 2 * i + 2 else 2 * i + 1
    ensures FirstChild(h, n, i, j)
  {
    forall k | 0 < k < n && Parent(k) == i ensures h[j].timestampUS <= h[k].timestampUS {
      Children(i, k);
    }
  }

  /** Sifts entry j0 up. */
  method Up(h0: seq<PointCloudFrame>, j0: nat, ghost n: nat) returns (h: seq<PointCloudFrame>)
    requires OrderedExcept(h0, n, j0) && Above(h0, n, j0)
    ensures Ordered(h, n) && |h| == |h0| && h[n..] == h0[n..] && multiset(h) == multiset(h0)
  {
    hide OrderedExcept, Above, Ordered, Swap;
    OrderedSize(h0, n, j0);
    h := h0;
    var j: nat := j0;
    while true
      invariant j < n <= |h| == |h0| && multiset(h) == multiset(h0) && h[n..] == h0[n..]
      invariant OrderedExcept(h, n, j) && Above(h, n, j)
      decreases j
    {
      var i: nat := if j == 0 then 0 else (j - 1) / 2;
      if i == j || !Less(h, j, i) {
        UpDone(h, n, j);
        return;
      }
      UpStep(h, n, j);
      SwapKeeps(h, i, j, n);
      h := Swap(h, i, j);
      j := i;
    }
  }

  lemma OrderedSize(h: seq<PointCloudFrame>, n: nat, i: nat)
    requires OrderedExcept(h, n, i)
    ensures i < n <= |h|
  {
  }

  /** Sifts entry i0 down among the first n; moved says whether it went anywhere. */
  method Down(h0: seq<PointCloudFrame>, i0: nat, n: nat) returns (h: seq<PointCloudFrame>, moved: bool)
    requires OrderedExcept(h0, n, i0)
    ensures |h| == |h0| && h[n..] == h0[n..] && multiset(h) == multiset(h0)
    ensures if moved then Ordered(h, n) else h == h0 && Above(h, n, i0)
  {
    hide OrderedExcept, Above, Ordered, Swap, Fits, FirstChild, Parent;
    OrderedSize(h0, n, i0);
    h := h0;
    var i := i0;
    while true
      invariant i0 <= i < n <= |h| == |h0| && multiset(h) == multiset(h0) && h[n..] == h0[n..]
      invariant OrderedExcept(h, n, i)
      invariant if i == i0 then h == h0 else Fits(h, i)
      decreases n - i
    {
      var j1 := 2 * i + 1;
      if j1 >= n {
        LeafIsAbove(h, n, i);
        break;
      }
      var j := j1;
      var j2 := j1 + 1;
      if j2 < n && Less(h, j2, j1) {
        j := j2;
      }
      FirstOfTwo(h, n, i, j);
      if !Less(h, j, i) {
        DownDone(h, n, i, j);
        break;
      }
      DownStep(h, n, i, j);
      SwapKeeps(h, i, j, n);
      h := Swap(h, i, j);
      i := j;
    }
    moved := i > i0;
    if moved {
      PlacedIsOrdered(h, n, i);
    }
  }

  /** In a heap the entry at the front comes first. */
  lemma {:induction false} FrontIsFirst(h: seq<PointCloudFrame>, n: nat, k: nat)
    requires Ordered(h, n) && k < n
    ensures h[0].timestampUS <= h[k].timestampUS
    decreases k
  {
    if k > 0 {
      assert Fits(h, k);
      FrontIsFirst(h, n, Parent(k));
    }
  }

  method Push(h0: seq<PointCloudFrame>, x: PointCloudFrame) returns (h: seq<PointCloudFrame>)
    requires Ordered(h0, |h0|)
    ensures Ordered(h, |h|) && multiset(h) == multiset(h0) + multiset{x} && |h| == |h0| + 1
  {
    hide Parent;
    h := h0 + [x];
    PushedExcept(h0, x);
    h := Up(h, |h| - 1, |h|);
  }

  lemma PushedExcept(h: seq<PointCloudFrame>, x: PointCloudFrame)
    requires Ordered(h, |h|)
    ensures OrderedExcept(h + [x], |h| + 1, |h|) && Above(h + [x], |h| + 1, |h|)
  {
    hide Parent;
    var h' := h + [x];
    forall k | 0 <= k < |h'| && k != |h| && Parent(k) != |h| ensures Fits(h', k) {
      assert Fits(h, k);
    }
  }

  /** The last entry put in place of entry i has to find its place. */
  lemma SwapLast(h: seq<PointCloudFrame>, i: nat)
    requires Ordered(h, |h|) && i < |h| - 1
    ensures OrderedExcept(Swap(h, i, |h| - 1), |h| - 1, i)
  {
    hide Parent;
    var n := |h| - 1;
    var h' := Swap(h, i, n);
    forall k | 0 <= k < n && k != i && Parent(k) != i ensures Fits(h', k) {
      assert Fits(h, k);
    }
    if i > 0 {
      forall k | 0 < k < n && Parent(k) == i ensures h'[Parent(i)].timestampUS <= h'[k].timestampUS {
        assert Fits(h, k) && Fits(h, i);
      }
    }
  }

  lemma AtFrontFits(h: seq<PointCloudFrame>)
    requires h != []
    ensures Fits(h, 0)
  {
  }

  /** Cutting off the last entry leaves a heap and all the others. */
  lemma CutLast(h: seq<PointCloudFrame>, n: nat)
    requires |h| == n + 1 && Ordered(h, n)
    ensures Ordered(h[..n], n) && multiset(h) == multiset(h[..n]) + multiset{h[n]}
  {
    hide Parent;
    assert h == h[..n] + [h[n]];
    forall k | 0 <= k < n ensures Fits(h[..n], k) {
      assert Fits(h, k);
    }
  }

  /** Takes out the entry that comes first. */
  method Pop(h0: seq<PointCloudFrame>) returns (h: seq<PointCloudFrame>, x: PointCloudFrame)
    requires Ordered(h0, |h0|) && h0 != []
    ensures Ordered(h, |h|) && |h| == |h0| - 1 && multiset(h0) == multiset(h) + multiset{x}
    ensures forall f :: f in h0 ==> x.timestampUS <= f.timestampUS
  {
    hide Ordered, OrderedExcept, Above, Swap, Fits;
    forall f | f in h0 ensures h0[0].timestampUS <= f.timestampUS {
      var k :| 0 <= k < |h0| && h0[k] == f;
      FrontIsFirst(h0, |h0|, k);
    }
    var n := |h0| - 1;
    SwapKeeps(h0, 0, n, |h0|);
    SwapsEnds(h0, 0);
    h := Swap(h0, 0, n);
    if n > 0 {
      SwapLast(h0, 0);
      ghost var h1 := h;
      var moved;
      h, moved := Down(h, 0, n);
      assert h[n] == h[n..][0] == h1[n..][0];
      if !moved {
        AtFrontFits(h);
        PlacedIsOrdered(h, n, 0);
      }
    } else {
      NoneIsOrdered(h);
    }
    CutLast(h, n);
    x := h[n];
    h := h[..n];
  }

  lemma SwapsEnds(h: seq<PointCloudFrame>, i: nat)
    requires i < |h|
    ensures Swap(h, i, |h| - 1)[|h| - 1] == h[i]
  {
  }

  lemma NoneIsOrdered(h: seq<PointCloudFrame>)
    ensures Ordered(h, 0)
  {
  }

  lemma Fewer(h: seq<PointCloudFrame>, n: nat)
    requires Ordered(h, n + 1)
    ensures Ordered(h, n)
  {
  }

  /** Takes out entry i, wherever it is. */
  method Remove(h0: seq<PointCloudFrame>, i: nat) returns (h: seq<PointCloudFrame>)
    requires Ordered(h0, |h0|) && i < |h0|
    ensures Ordered(h, |h|) && |h| == |h0| - 1 && multiset(h0) == multiset(h) + multiset{h0[i]}
  {
    hide Ordered, OrderedExcept, Above, Swap, Fits;
    h := h0;
    var n := |h| - 1;
    if n != i {
      SwapKeeps(h, i, n, |h|);
      SwapsEnds(h, i);
      SwapLast(h, i);
      h := Swap(h, i, n);
      ghost var h1 := h;
      var moved;
      h, moved := Down(h, i, n);
      if !moved {
        h := Up(h, i, n);
      }
      assert h[n] == h[n..][0] == h1[n..][0];
    } else {
      Fewer(h, n);
    }
    CutLast(h, n);
    h := h[..n];
  }

  /** Times never go back. */
  ghost predicate InTimeOrder(s: seq<PointCloudFrame>) {
    forall i, j :: 0 <= i < j < |s| ==> s[i].timestampUS <= s[j].timestampUS
  }

  /** Pops a copy of the heap empty: its frames, earliest first. */
  method Drain(heap: seq<PointCloudFrame>) returns (result: seq<PointCloudFrame>)
    requires Ordered(heap, |heap|)
    ensures InTimeOrder(result) && multiset(result) == multiset(heap) && |result| == |heap|
  {
    hide Ordered;
    var tmpHeap := heap;
    result := [];
    while |tmpHeap| > 0
      invariant Ordered(tmpHeap, |tmpHeap|) && |result| + |tmpHeap| == |heap|
      invariant multiset(result) + multiset(tmpHeap) == multiset(heap)
      invariant InTimeOrder(result)
      invariant forall a, b :: a in result && b in tmpHeap ==> a.timestampUS <= b.timestampUS
      decreases |tmpHeap|
    {
      ghost var before := tmpHeap;
      var x;
      tmpHeap, x := Pop(tmpHeap);
      forall b | b in tmpHeap ensures b in before {
        assert b in multiset(tmpHeap);
        assert b in multiset(before);
      }
      assert x in multiset(before);
      result := result + [x];
    }
  }
}
