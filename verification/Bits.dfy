/** Bit strings read from bytes, most significant bit first, as numbers. */
module Bits {
  import opened Bytes
  import opened IntFacts

  function Pow2(n: nat): (p: nat)
    ensures p > 0
  {
    if n == 0 then 1 else 2 * Pow2(n - 1)
  }

  /** Bit i of the data. */
  function BitAt(data: seq<byte>, i: nat): (b: nat)
    requires i < 8 * |data|
    ensures b < 2
  {
    data[i / 8] / Pow2(7 - i % 8) % 2
  }

  /** The big-endian value of the n bits from bit off on. */
  function BitsValue(data: seq<byte>, off: nat, n: nat): (v: nat)
    requires off + n <= 8 * |data|
    ensures v < Pow2(n)
  {
    if n == 0 then 0 else 2 * BitsValue(data, off, n - 1) + BitAt(data, off + n - 1)
  }

  lemma {:induction false} PowSum(a: nat, b: nat)
    ensures Pow2(a + b) == Pow2(a) * Pow2(b)
  {
    if b > 0 {
      PowSum(a, b - 1);
      assert Pow2(a) * (2 * Pow2(b - 1)) == 2 * (Pow2(a) * Pow2(b - 1));
    }
  }

  lemma PowSmall()
    ensures Pow2(0) == 1 && Pow2(1) == 2 && Pow2(2) == 4 && Pow2(3) == 8 && Pow2(4) == 16
    ensures Pow2(5) == 32 && Pow2(6) == 64 && Pow2(7) == 128 && Pow2(8) == 256
  {
    assert Pow2(3) == 2 * Pow2(2) && Pow2(4) == 2 * Pow2(3) && Pow2(5) == 2 * Pow2(4);
    assert Pow2(6) == 2 * Pow2(5) && Pow2(7) == 2 * Pow2(6) && Pow2(8) == 2 * Pow2(7);
  }

  lemma PowWords()
    ensures Pow2(16) == TWO_16 && Pow2(32) == TWO_32 && Pow2(63) == TWO_63 && Pow2(64) == TWO_64
  {
    PowSmall();
    PowSum(8, 8);
    PowSum(16, 16);
    PowSum(32, 32);
    assert Pow2(64) == 2 * Pow2(63);
  }

  lemma {:induction false} PowMonotone(a: nat, b: nat)
    requires a <= b
    ensures Pow2(a) <= Pow2(b)
  {
    PowSum(a, b - a);
    assert Pow2(a) * Pow2(b - a) >= Pow2(a) * 1;
  }

  lemma PowStep(b: nat)
    requires b > 0
    ensures Pow2(b) == 2 * Pow2(b - 1)
  {
  }

  // ---------- Reading ----------

  /** Reading a bits and then b bits is reading a + b bits. */
  lemma {:induction false} BitsCompose(data: seq<byte>, off: nat, a: nat, b: nat)
    requires off + a + b <= 8 * |data|
    ensures BitsValue(data, off, a + b) == BitsValue(data, off, a) * Pow2(b) + BitsValue(data, off + a, b)
  {
    hide BitAt;
    if b == 0 {
      assert Pow2(0) == 1;
    } else {
      BitsCompose(data, off, a, b - 1);
      PowStep(b);
      TwiceProduct(BitsValue(data, off, a), Pow2(b - 1));
    }
  }

  predicate SameBit(d: seq<byte>, i: nat, e: seq<byte>, j: nat, k: nat)
    requires i + k < 8 * |d| && j + k < 8 * |e|
  {
    BitAt(d, i + k) == BitAt(e, j + k)
  }

  /** Equal numbers are equal bit strings. */
  lemma {:induction false} BitsInjective(d: seq<byte>, i: nat, e: seq<byte>, j: nat, n: nat)
    requires i + n <= 8 * |d| && j + n <= 8 * |e|
    ensures BitsValue(d, i, n) == BitsValue(e, j, n) <==>
            forall k :: 0 <= k < n ==> SameBit(d, i, e, j, k)
  {
    hide BitAt, Pow2;
    if n > 0 {
      BitsInjective(d, i, e, j, n - 1);
      assert SameBit(d, i, e, j, n - 1) == (BitAt(d, i + n - 1) == BitAt(e, j + n - 1));
    }
  }

  lemma BitInByte(data: seq<byte>, off: nat, k: nat)
    requires off % 8 + k < 8 && off + k < 8 * |data|
    ensures off / 8 < |data| && BitAt(data, off + k) == data[off / 8] / Pow2(7 - off % 8 - k) % 2
  {
    assert (off + k) / 8 == off / 8 && (off + k) % 8 == off % 8 + k;
  }

  lemma ChunkStep(x: nat, s: nat, b: nat)
    requires b > 0
    ensures 2 * (x / Pow2(s + 1) % Pow2(b - 1)) + x / Pow2(s) % 2 == x / Pow2(s) % Pow2(b)
  {
    PowStep(s + 1);
    PowStep(b);
    HalfDiv(x, Pow2(s));
    HalfMod(x / Pow2(s), Pow2(b - 1));
  }

  /** Bits p to p+b of one byte are what a shift and a mask cut out of it. */
  lemma {:induction false} ByteChunk(data: seq<byte>, off: nat, b: nat)
    requires 0 < b && off + b <= 8 * |data| && off % 8 + b <= 8
    ensures off / 8 < |data|
    ensures BitsValue(data, off, b) == data[off / 8] / Pow2(8 - off % 8 - b) % Pow2(b)
  {
    hide BitAt, Pow2;
    BitInByte(data, off, b - 1);
    ChunkStep(data[off / 8], 8 - off % 8 - b, b);
    if b == 1 {
      assert Pow2(0) == 1 by { PowSmall(); }
      assert BitsValue(data, off, 0) == 0;
    } else {
      ByteChunk(data, off, b - 1);
    }
  }

  /** Shifting a 64-bit register left by b and filling in e loses only the bits past 64. */
  lemma ShiftIn(r: nat, b: nat, e: nat)
    requires b <= 8 && e < Pow2(b)
    ensures r % TWO_64 * Pow2(b) % TWO_64 + e == (r * Pow2(b) + e) % TWO_64
  {
    PowWords();
    PowSum(b, 64 - b);
    ShiftInBy(r, Pow2(b), Pow2(64 - b), e);
  }

  lemma ShiftInBy(r: nat, p: nat, k: nat, e: nat)
    requires p > 0 && k > 0 && p * k == TWO_64 && e < p
    ensures r % TWO_64 * p % TWO_64 + e == (r * p + e) % TWO_64
  {
    var q, x := r / TWO_64, r % TWO_64;
    var q2, y := x * p / TWO_64, x * p % TWO_64;
    MultipleRest(p, k, x, q2, y);
    assert (TWO_64 * q + x) * p == TWO_64 * (q * p) + x * p;
    ModUnique(r * p + e, TWO_64, q * p + q2, y + e);
  }

  /** What is left of a multiple of p after taking away multiples of p * k is a multiple of p. */
  lemma MultipleRest(p: nat, k: nat, x: nat, q: int, y: nat)
    requires p > 0 && x * p == p * k * q + y && y < p * k
    ensures y <= p * k - p
  {
    var m := x - k * q;
    assert p * m == x * p - p * k * q;
    if m < k {
      ProductGap(p, m, k);
    } else if m > k {
      ProductGap(p, k, m);
    }
  }
}
