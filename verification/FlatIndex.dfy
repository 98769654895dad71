/** Row-major indices of two-dimensional tables kept in one flat sequence. */
module FlatIndex {
  import opened IntFacts

  /** Where row r, column c of a matrix with rows of length w lies in a flat array. */
  function Ix(w: nat, r: nat, c: nat): nat {
    r * w + c
  }

  lemma IxBound(w: nat, h: nat, r: nat, c: nat)
    requires r < h && c < w
    ensures Ix(w, r, c) < h * w
  {
    assert (h - 1 - r) * w >= 0;
  }

  lemma IxBelow(w: nat, r: nat, c: nat, r': nat, c': nat)
    requires c < w && r < r'
    ensures Ix(w, r, c) < Ix(w, r', c')
  {
    var d := r' - r;
    assert r' * w == r * w + d * w;
    assert d * w >= w by {
      assert (d - 1) * w >= 0;
    }
  }

  lemma IxInjective(w: nat, r: nat, c: nat, r': nat, c': nat)
    requires c < w && c' < w && Ix(w, r, c) == Ix(w, r', c')
    ensures r == r' && c == c'
  {
    if r < r' {
      IxBelow(w, r, c, r', c');
    } else if r' < r {
      IxBelow(w, r', c', r, c);
    }
  }

  /** In an h-by-w matrix every place has an index of its own. */
  lemma IxFacts(w: nat, h: nat)
    ensures forall r, c {:trigger Ix(w, r, c)} :: 0 <= r < h && 0 <= c < w ==> Ix(w, r, c) < h * w
    ensures forall r, c, r', c' {:trigger Ix(w, r, c), Ix(w, r', c')} ::
              0 <= r < h && 0 <= c < w && 0 <= r' < h && 0 <= c' < w && Ix(w, r, c) == Ix(w, r', c')
              ==> r == r' && c == c'
  {
    forall r, c | 0 <= r < h && 0 <= c < w ensures Ix(w, r, c) < h * w {
      IxBound(w, h, r, c);
    }
    forall r, c, r', c' | 0 <= r < h && 0 <= c < w && 0 <= r' < h && 0 <= c' < w && Ix(w, r, c) == Ix(w, r', c')
      ensures r == r' && c == c'
    {
      IxInjective(w, r, c, r', c');
    }
  }

  lemma IxParts(w: nat, r: nat, c: nat)
    requires c < w
    ensures Ix(w, r, c) / w == r && Ix(w, r, c) % w == c
  {
    ModUnique(r * w + c, w, r, c);
  }

  /** Every index of the table is the place of some row and column. */
  lemma IxBack(w: nat, h: nat, k: nat)
    requires w > 0 && k < h * w
    ensures k / w < h && k % w < w && Ix(w, k / w, k % w) == k
  {
    if k / w >= h {
      ProductGap(w, h - 1, k / w);
    }
  }

  lemma IxNext(w: nat, r: nat, c: nat)
    ensures Ix(w, r, c + 1) == Ix(w, r, c) + 1
  {
  }

  lemma IxRowEnd(w: nat, r: nat)
    ensures Ix(w, r, w) == Ix(w, r + 1, 0)
  {
  }

  lemma IxTableEnd(w: nat, h: nat)
    ensures Ix(w, h, 0) == h * w && Ix(w, 0, 0) == 0
  {
  }
}
