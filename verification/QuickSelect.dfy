/** In-place quickselect by distance, and the choice of the nearest neighbours built on it. */
module QuickSelect {
  import opened Variogram

  datatype DistItem = DistItem(pt: SamplePoint, dist: real)

  /** Everything in [a, b) is at most as far as everything in [c, d). */
  ghost predicate Separated(s: seq<DistItem>, a: int, b: int, c: int, d: int)
    requires 0 <= a <= b <= |s| && 0 <= c <= d <= |s|
  {
    forall i, j :: a <= i < b && c <= j < d ==> s[i].dist <= s[j].dist
  }

  /** s' rearranges s, and only inside [lo, hi]. */
  ghost predicate Rearranged(s: seq<DistItem>, s': seq<DistItem>, lo: int, hi: int) {
    && |s'| == |s| && 0 <= lo && hi < |s|
    && multiset(s') == multiset(s)
    && (forall i :: 0 <= i < |s| && (i < lo || i > hi) ==> s'[i] == s[i])
    && lo <= hi + 1 && multiset(s'[lo..hi + 1]) == multiset(s[lo..hi + 1])
  }

  lemma SwapRearranges(s: seq<DistItem>, i: int, j: int, lo: int, hi: int)
    requires 0 <= lo <= i <= j <= hi < |s|
    ensures Rearranged(s, s[i := s[j]][j := s[i]], lo, hi)
  {
    var s' := s[i := s[j]][j := s[i]];
    var m, m' := s[lo..hi + 1], s'[lo..hi + 1];
    assert m' == m[i - lo := s[j]][j - lo := s[i]];
  }

  lemma RearrangedTrans(s: seq<DistItem>, s': seq<DistItem>, s'': seq<DistItem>, lo: int, hi: int)
    requires Rearranged(s, s', lo, hi) && Rearranged(s', s'', lo, hi)
    ensures Rearranged(s, s'', lo, hi)
  {
  }

  lemma StillInside(s: seq<DistItem>, s': seq<DistItem>, lo: int, hi: int, j: int) returns (j': int)
    requires Rearranged(s, s', lo, hi) && 0 <= j < |s|
    ensures 0 <= j' < |s| && s'[j] == s[j'] && (if lo <= j <= hi then lo <= j' <= hi else j' == j)
  {
    if lo <= j <= hi {
      var m, m' := s[lo..hi + 1], s'[lo..hi + 1];
      assert s'[j] == m'[j - lo] && m'[j - lo] in multiset(m');
      assert s'[j] in m;
      var k :| 0 <= k < |m| && m[k] == s'[j];
      j' := lo + k;
    } else {
      j' := j;
    }
  }

  /** Rearranging inside one side of a cut, or either, keeps the two sides separated. */
  lemma SeparatedKept(s: seq<DistItem>, s': seq<DistItem>, lo: int, hi: int, a: int, cut: int, b: int)
    requires Rearranged(s, s', lo, hi) && 0 <= a <= cut <= b <= |s| && a <= lo && hi < b
    requires cut <= lo || cut > hi
    requires Separated(s, a, cut, cut, b)
    ensures Separated(s', a, cut, cut, b)
  {
    forall i, j | a <= i < cut && cut <= j < b ensures s'[i].dist <= s'[j].dist {
      var i' := StillInside(s, s', lo, hi, i);
      var j' := StillInside(s, s', lo, hi, j);
    }
  }

  /** Splits [lo, hi] around the distance of its last item. */
  method PartitionItems(items: array<DistItem>, lo: int, hi: int) returns (p: int)
    requires 0 <= lo <= hi < items.Length
    modifies items
    ensures lo <= p <= hi
    ensures Rearranged(old(items[..]), items[..], lo, hi)
    ensures forall k :: lo <= k < p ==> items[k].dist <= items[p].dist
    ensures forall k :: p < k <= hi ==> items[p].dist < items[k].dist
  {
    hide Rearranged;
    var pivot := items[hi].dist;
    var i := lo;
    RearrangedRefl(items[..], lo, hi);
    var j := lo;
    while j < hi
      invariant lo <= i <= j <= hi
      invariant Rearranged(old(items[..]), items[..], lo, hi)
      invariant forall k :: lo <= k < i ==> items[k].dist <= pivot
      invariant forall k :: i <= k < j ==> items[k].dist > pivot
      invariant items[hi].dist == pivot
    {
      if items[j].dist <= pivot {
        Exchange(items, i, j, lo, hi);
        i := i + 1;
      }
      j := j + 1;
    }
    Exchange(items, i, hi, lo, hi);
    return i;
  }

  lemma RearrangedRefl(s: seq<DistItem>, lo: int, hi: int)
    requires 0 <= lo <= hi + 1 <= |s|
    ensures Rearranged(s, s, lo, hi)
  {
  }

  method Exchange(items: array<DistItem>, i: int, j: int, ghost lo: int, ghost hi: int)
    requires 0 <= lo <= i <= j <= hi < items.Length
    modifies items
    ensures items[..] == old(items[..])[i := old(items[j])][j := old(items[i])]
    ensures forall s :: Rearranged(s, old(items[..]), lo, hi) ==> Rearranged(s, items[..], lo, hi)
  {
    hide Rearranged;
    items[i], items[j] := items[j], items[i];
    assert items[..] == old(items[..])[i := old(items[j])][j := old(items[i])];
    SwapRearranges(old(items[..]), i, j, lo, hi);
    forall s | Rearranged(s, old(items[..]), lo, hi) ensures Rearranged(s, items[..], lo, hi) {
      RearrangedTrans(s, old(items[..]), items[..], lo, hi);
    }
  }

  /** Rearranges [lo, hi] so that what lies before place k is at most as far as what lies from k on. */
  method QuickSelectItems(items: array<DistItem>, lo0: int, hi0: int, k: int)
    requires 0 <= lo0 <= hi0 + 1 <= items.Length
    modifies items
    ensures Rearranged(old(items[..]), items[..], lo0, hi0)
    ensures lo0 <= k <= hi0 ==> Separated(items[..], lo0, k, k, hi0 + 1)
  {
    hide Rearranged;
    var lo, hi := lo0, hi0;
    RearrangedRefl(items[..], lo, hi);
    while lo < hi
      invariant lo0 <= lo <= hi + 1 <= hi0 + 1
      invariant lo0 <= k <= hi0 ==> lo <= k <= hi
      invariant Rearranged(old(items[..]), items[..], lo0, hi0)
      invariant Separated(items[..], lo0, lo, lo, hi0 + 1)
      invariant Separated(items[..], lo0, hi + 1, hi + 1, hi0 + 1)
      decreases hi - lo
    {
      ghost var s := items[..];
      var pivot := PartitionItems(items, lo, hi);
      PartitionKeeps(old(items[..]), s, items[..], lo0, hi0, lo, hi, pivot);
      if pivot == k {
        return;
      } else if pivot < k {
        lo := pivot + 1;
      } else {
        hi := pivot - 1;
      }
    }
  }

  lemma PartitionKeeps(s0: seq<DistItem>, s: seq<DistItem>, s': seq<DistItem>, lo0: int, hi0: int, lo: int, hi: int, p: int)
    requires 0 <= lo0 <= lo <= p <= hi <= hi0 < |s0| == |s| == |s'|
    requires Rearranged(s0, s, lo0, hi0) && Rearranged(s, s', lo, hi)
    requires Separated(s, lo0, lo, lo, hi0 + 1) && Separated(s, lo0, hi + 1, hi + 1, hi0 + 1)
    requires forall k :: lo <= k < p ==> s'[k].dist <= s'[p].dist
    requires forall k :: p < k <= hi ==> s'[p].dist < s'[k].dist
    ensures Rearranged(s0, s', lo0, hi0)
    ensures Separated(s', lo0, p, p, hi0 + 1) && Separated(s', lo0, p + 1, p + 1, hi0 + 1)
    ensures Separated(s', lo0, lo, lo, hi0 + 1) && Separated(s', lo0, hi + 1, hi + 1, hi0 + 1)
  {
    hide Rearranged;
    SeparatedKept(s, s', lo, hi, lo0, lo, hi0 + 1);
    SeparatedKept(s, s', lo, hi, lo0, hi + 1, hi0 + 1);
    SplitAt(s', lo0, hi0, lo, hi, p);
    Widen(s, s', lo, hi, lo0, hi0);
    RearrangedTrans(s0, s, s', lo0, hi0);
  }

  /** Cuts around [lo, hi] and a split of [lo, hi] at p make cuts on both sides of p. */
  lemma SplitAt(s: seq<DistItem>, lo0: int, hi0: int, lo: int, hi: int, p: int)
    requires 0 <= lo0 <= lo <= p <= hi <= hi0 < |s|
    requires Separated(s, lo0, lo, lo, hi0 + 1) && Separated(s, lo0, hi + 1, hi + 1, hi0 + 1)
    requires forall k :: lo <= k < p ==> s[k].dist <= s[p].dist
    requires forall k :: p < k <= hi ==> s[p].dist < s[k].dist
    ensures Separated(s, lo0, p, p, hi0 + 1) && Separated(s, lo0, p + 1, p + 1, hi0 + 1)
  {
  }

  lemma Widen(s: seq<DistItem>, s': seq<DistItem>, lo: int, hi: int, lo0: int, hi0: int)
    requires Rearranged(s, s', lo, hi) && 0 <= lo0 <= lo <= hi <= hi0 < |s|
    ensures Rearranged(s, s', lo0, hi0)
  {
    var a, b, c := s[lo0..lo], s[lo..hi + 1], s[hi + 1..hi0 + 1];
    var a', b', c' := s'[lo0..lo], s'[lo..hi + 1], s'[hi + 1..hi0 + 1];
    assert a' == a && c' == c;
    assert s[lo0..hi0 + 1] == a + b + c && s'[lo0..hi0 + 1] == a' + b' + c';
  }
}
