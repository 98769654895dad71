/** A reader of bit fields from a byte slice. */
module BitReader {
  import opened Bytes
  import opened IntFacts
  import opened Bits

  datatype Read<T> = Ok(value: T) | Overflow

  /** The signed number an n-bit two's complement field denotes. */
  function TwosComplement(x: nat, n: nat): int {
    if n > 0 && x >= Pow2(n - 1) then x - Pow2(n) else x
  }

  /** byte | (bit << k), for a single bit. */
  function OrBit(x: byte, k: nat, bit: nat): (r: byte)
    requires k < 8 && bit < 2
  {
    PowSmall();
    if bit == 1 && x / Pow2(k) % 2 == 0 then OrBound(x, k); x + Pow2(k) else x
  }

  lemma OrBound(x: byte, k: nat)
    requires k < 8 && x / Pow2(k) % 2 == 0
    ensures x + Pow2(k) < 256
  {
    hide Pow2;
    PowSplit(k, 8);
    OrBelow(x, Pow2(k), Pow2(8 - k), 256);
  }

  lemma PowSplit(k: nat, n: nat)
    requires k < n
    ensures Pow2(n) == Pow2(k) * Pow2(n - k) && Pow2(n - k) % 2 == 0
    ensures Pow2(8) == 256
  {
    hide Pow2;
    PowSmall();
    PowSum(k, n - k);
    PowStep(n - k);
  }

  lemma OrBelow(x: nat, p: nat, w: nat, bound: nat)
    requires p > 0 && bound == p * w && x < bound && w % 2 == 0 && x / p % 2 == 0
    ensures x + p < bound
  {
    var q := x / p;
    assert x == p * q + x % p;
    assert p * (q + 2) == p * q + 2 * p;
    if q < w {
      if q + 2 < w {
        ProductGap(p, q + 2, w);
      }
    } else if q > w {
      ProductGap(p, w, q);
    }
  }

  /** The least width that holds v. */
  ghost predicate IsBitLength(v: nat, n: nat) {
    v < Pow2(n) && (n > 0 ==> Pow2(n - 1) <= v)
  }

  method BitLen(v0: nat) returns (n: nat)
    ensures IsBitLength(v0, n)
  {
    hide Pow2;
    var v: nat := v0;
    n := 0;
    assert Pow2(0) == 1 by { PowSmall(); }
    while v > 0
      invariant v == v0 / Pow2(n)
      invariant n > 0 ==> Pow2(n - 1) <= v0
    {
      HalfDiv(v0, Pow2(n));
      PowStep(n + 1);
      QuotientPositive(v0, Pow2(n));
      n := n + 1;
      v := v / 2;
    }
    QuotientZero(v0, Pow2(n));
  }

  lemma QuotientPositive(v: nat, p: nat)
    requires p > 0 && v / p > 0
    ensures p <= v
  {
  }

  lemma QuotientZero(v: nat, p: nat)
    requires p > 0 && v / p == 0
    ensures v < p
  {
  }

  class BitReader {
    const data: seq<byte>
    var offset: nat

    constructor (data: seq<byte>)
      ensures this.data == data && offset == 0
    {
      this.data, offset := data, 0;
    }

    function Length(): nat {
      8 * |data|
    }

    /** Reads the next n bits as a big-endian number, kept to 64 bits. */
    method ReadBits(n: nat) returns (r: Read<nat>)
      modifies this
      ensures n > 0 && old(offset) + n > Length() ==> r == Overflow && offset == old(offset)
      ensures n == 0 ==> r == Ok(0) && offset == old(offset)
      ensures n > 0 && old(offset) + n <= Length() ==>
        r == Ok(BitsValue(data, old(offset), n) % TWO_64) && offset == old(offset) + n
    {
      hide BitsValue, Pow2;
      if n == 0 {
        return Ok(0);
      }
      if offset + n > Length() {
        return Overflow;
      }
      var result: nat := 0;
      var remaining := n;
      BitsNone(data, offset);
      while remaining > 0
        invariant 0 <= remaining <= n && offset == old(offset) + (n - remaining)
        invariant result == BitsValue(data, old(offset), n - remaining) % TWO_64
      {
        var byteIdx, bitIdx := offset / 8, offset % 8;
        var bitsInCurrentByte: nat := 8 - bitIdx;
        var bitsToRead: nat := remaining;
        if bitsToRead > bitsInCurrentByte {
          bitsToRead := bitsInCurrentByte;
        }
        var shift: nat := bitsInCurrentByte - bitsToRead;
        var extracted: nat := data[byteIdx] / Pow2(shift) % Pow2(bitsToRead);
        ChunkReadIn(data, old(offset), n - remaining, bitsToRead, result, extracted);
        result := result * Pow2(bitsToRead) % TWO_64 + extracted;
        offset := offset + bitsToRead;
        remaining := remaining - bitsToRead;
      }
      return Ok(result);
    }

    /** Shifting the next chunk into the register extends the number read. */
    static lemma ChunkReadIn(data: seq<byte>, start: nat, done: nat, b: nat, result: nat, extracted: nat)
      requires 0 < b && start + done + b <= 8 * |data| && (start + done) % 8 + b <= 8
      requires result == BitsValue(data, start, done) % TWO_64
      requires var off := start + done; extracted == data[off / 8] / Pow2(8 - off % 8 - b) % Pow2(b)
      ensures result * Pow2(b) % TWO_64 + extracted == BitsValue(data, start, done + b) % TWO_64
    {
      hide BitsValue, Pow2;
      ByteChunk(data, start + done, b);
      BitsCompose(data, start, done, b);
      ShiftIn(BitsValue(data, start, done), b, extracted);
    }

    lemma BitsNone(data: seq<byte>, off: nat)
      requires off <= 8 * |data|
      ensures BitsValue(data, off, 0) == 0
    {
    }

    method ReadUint(n: nat) returns (r: Read<nat>)
      modifies this
      ensures n > 0 && old(offset) + n > Length() ==> r == Overflow && offset == old(offset)
      ensures n == 0 ==> r == Ok(0) && offset == old(offset)
      ensures n > 0 && old(offset) + n <= Length() ==>
        && offset == old(offset) + n && r == Ok(BitsValue(data, old(offset), n) % TWO_64)
        && (n <= 64 ==> r == Ok(BitsValue(data, old(offset), n)))
    {
      hide BitsValue, Pow2;
      r := ReadBits(n);
      if n <= 64 {
        PowMonotone(n, 64);
      }
      PowWords();
    }

    /** Reads the next n bits as a two's complement number; of more than 64 bits the last 64 count. */
    method ReadInt(n: nat) returns (r: Read<int>)
      modifies this
      ensures n > 0 && old(offset) + n > Length() ==> r == Overflow && offset == old(offset)
      ensures n == 0 ==> r == Ok(0) && offset == old(offset)
      ensures n > 0 && old(offset) + n <= Length() ==>
        && offset == old(offset) + n
        && r == Ok(if n <= 64 then TwosComplement(BitsValue(data, old(offset), n), n)
                   else Signed(BitsValue(data, old(offset), n) % TWO_64, TWO_64))
    {
      hide BitsValue, Pow2;
      var read := ReadUint(n);
      if read.Overflow? {
        return Overflow;
      }
      var val := read.value;
      // A one shifted out of the word tests no bit.
      if 0 < n <= 64 {
        SignExtended(val, n);
        if val / Pow2(n - 1) % 2 != 0 {
          val := val + (TWO_64 - Pow2(n));
        }
      }
      return Ok(Signed(val, TWO_64));
    }

    /**
     Reads a number constrained to [min, max], encoded as the distance from min in the
     least width that holds max - min (clause 11.5 of ITU-T X.691).  n is that width.
     All arithmetic is that of 64-bit words.
     */
    method ReadConstrainedWholeNumber(min: nat, max: nat) returns (r: Read<nat>, ghost n: nat)
      requires min < TWO_64 && max < TWO_64
      modifies this
      ensures var range := (max - min) % TWO_64; n <= 64 && IsBitLength(range, n)
      ensures max == min ==> r == Ok(min) && offset == old(offset)
      ensures max != min && old(offset) + n > Length() ==> r == Overflow && offset == old(offset)
      ensures max != min && old(offset) + n <= Length() ==>
        r == Ok((min + BitsValue(data, old(offset), n)) % TWO_64) && offset == old(offset) + n
    {
      hide BitsValue, Pow2;
      var rangeVal: nat := (max - min) % TWO_64;
      var nBits := BitLen(rangeVal);
      n := nBits;
      WidthFits(rangeVal, n);
      if rangeVal == 0 {
        SameWord(min, max);
        return Ok(min), n;
      }
      var val := ReadUint(nBits);
      if val.Overflow? {
        return Overflow, n;
      }
      return Ok((min + val.value) % TWO_64), n;
    }

    /** Reads the next n bits one by one into bytes, left-aligned; running dry uses up what is left. */
    method ReadBitField(n: nat) returns (r: Read<seq<byte>>)
      modifies this
      ensures old(offset) + n > Length() && n > 0 ==>
        r == Overflow && offset == (if old(offset) <= Length() then Length() else old(offset))
      ensures n == 0 ==> r == Ok([]) && offset == old(offset)
      ensures n > 0 && old(offset) + n <= Length() ==>
        && offset == old(offset) + n && r.Ok? && |r.value| == (n + 7) / 8
        && (forall k :: 0 <= k < n ==> SameBit(r.value, 0, data, old(offset), k))
        && (forall k :: n <= k < 8 * |r.value| ==> BitAt(r.value, k) == 0)
    {
      hide BitsValue, Pow2, BitAt, OrBit;
      var buf: seq<byte> := seq((n + 7) / 8, _ => 0);
      ZeroBits(buf);
      var i: nat := 0;
      while i < n
        invariant 0 <= i <= n && |buf| == (n + 7) / 8
        invariant offset == old(offset) + i
        invariant i > 0 ==> offset <= Length()
        invariant forall k :: 0 <= k < i ==> SameBit(buf, 0, data, old(offset), k)
        invariant forall k :: i <= k < 8 * |buf| ==> BitAt(buf, k) == 0
      {
        var bit := ReadUint(1);
        if bit.Overflow? {
          return Overflow;
        }
        OneBit(data, offset - 1);
        var byteIdx, bitIdx := i / 8, 7 - i % 8;
        OrBitSets(buf, i, bit.value);
        ghost var before := buf;
        buf := buf[byteIdx := OrBit(buf[byteIdx], bitIdx, bit.value)];
        FieldStep(before, buf, data, old(offset), i);
        i := i + 1;
      }
      return Ok(buf);
    }
  }

  lemma WidthFits(v: nat, n: nat)
    requires v < TWO_64 && IsBitLength(v, n)
    ensures n <= 64 && (v == 0 <==> n == 0)
  {
    hide Pow2;
    assert Pow2(0) == 1 by { PowSmall(); }
    PowWords();
    if n > 64 {
      PowMonotone(64, n - 1);
    }
  }

  lemma SameWord(min: nat, max: nat)
    requires min < TWO_64 && max < TWO_64 && (max - min) % TWO_64 == 0
    ensures max == min
  {
  }

  lemma ZeroBits(buf: seq<byte>)
    requires forall k :: 0 <= k < |buf| ==> buf[k] == 0
    ensures forall k :: 0 <= k < 8 * |buf| ==> BitAt(buf, k) == 0
  {
    forall k | 0 <= k < 8 * |buf| ensures BitAt(buf, k) == 0 {
      ModUnique(0, Pow2(7 - k % 8), 0, 0);
    }
  }

  lemma OneBit(data: seq<byte>, off: nat)
    requires off < 8 * |data|
    ensures BitsValue(data, off, 1) == BitAt(data, off)
  {
    assert BitsValue(data, off, 0) == 0;
  }

  /** Or-ing a bit into a place that is zero sets that bit and no other. */
  lemma OrBitSets(buf: seq<byte>, i: nat, bit: nat)
    requires i < 8 * |buf| && bit < 2 && BitAt(buf, i) == 0
    ensures var buf' := buf[i / 8 := OrBit(buf[i / 8], 7 - i % 8, bit)];
      BitAt(buf', i) == bit && forall k :: 0 <= k < 8 * |buf| && k != i ==> BitAt(buf', k) == BitAt(buf, k)
  {
    var x, t := buf[i / 8], 7 - i % 8;
    var buf' := buf[i / 8 := OrBit(x, t, bit)];
    if bit == 1 {
      forall k | 0 <= k < 8 * |buf| ensures BitAt(buf', k) == if k == i then 1 else BitAt(buf, k) {
        if k / 8 == i / 8 {
          AddedBit(x, t, 7 - k % 8);
        }
      }
    }
  }

  lemma FieldStep(buf: seq<byte>, buf': seq<byte>, data: seq<byte>, off: nat, i: nat)
    requires i < 8 * |buf| && |buf'| == |buf| && off + i < 8 * |data|
    requires forall k :: 0 <= k < i ==> SameBit(buf, 0, data, off, k)
    requires BitAt(buf', i) == BitAt(data, off + i)
    requires forall k :: 0 <= k < 8 * |buf| && k != i ==> BitAt(buf', k) == BitAt(buf, k)
    ensures forall k :: 0 <= k < i + 1 ==> SameBit(buf', 0, data, off, k)
  {
    hide BitAt;
    forall k | 0 <= k < i + 1 ensures SameBit(buf', 0, data, off, k) {
      if k < i {
        assert SameBit(buf, 0, data, off, k);
      }
    }
  }

  lemma DivPlusMultiple(x: nat, p: nat, m: nat, s: nat)
    requires p > 0 && s == p * m
    ensures (x + s) / p == x / p + m
  {
    assert p * (x / p + m) == p * (x / p) + p * m;
    ModUnique(x + s, p, x / p + m, x % p);
  }

  lemma {:induction false} HighBitsStay(x: nat, t: nat, k: nat)
    requires k > t && x / Pow2(t) % 2 == 0
    ensures (x + Pow2(t)) / Pow2(k) == x / Pow2(k)
    decreases k
  {
    hide Pow2;
    PowStep(k);
    HalfDiv(x, Pow2(k - 1));
    HalfDiv(x + Pow2(t), Pow2(k - 1));
    if k == t + 1 {
      DivPlusMultiple(x, Pow2(t), 1, Pow2(t));
    } else {
      HighBitsStay(x, t, k - 1);
    }
  }

  lemma LowBits(x: nat, t: nat, k: nat)
    requires k <= t
    ensures (x + Pow2(t)) / Pow2(k) == x / Pow2(k) + (if k == t then 1 else 2 * Pow2(t - k - 1))
  {
    hide Pow2;
    if k == t {
      DivPlusMultiple(x, Pow2(k), 1, Pow2(t));
    } else {
      PowSum(k, t - k);
      PowStep(t - k);
      DivPlusMultiple(x, Pow2(k), Pow2(t - k), Pow2(t));
    }
  }

  /** Adding 2^t to a byte whose bit t is zero changes bit t and no other. */
  lemma AddedBit(x: byte, t: nat, k: nat)
    requires t < 8 && k < 8 && x / Pow2(t) % 2 == 0
    ensures (x + Pow2(t)) / Pow2(k) % 2 == if k == t then 1 else x / Pow2(k) % 2
  {
    hide Pow2;
    if k > t {
      HighBitsStay(x, t, k);
    } else if k < t {
      LowBitsKeep(x, t, k);
    } else {
      OwnBitFlips(x, t);
    }
  }

  lemma LowBitsKeep(x: nat, t: nat, k: nat)
    requires k < t
    ensures (x + Pow2(t)) / Pow2(k) % 2 == x / Pow2(k) % 2
  {
    hide Pow2;
    LowBits(x, t, k);
    SameParity(x / Pow2(k), (x + Pow2(t)) / Pow2(k), Pow2(t - k - 1));
  }

  lemma OwnBitFlips(x: nat, t: nat)
    requires x / Pow2(t) % 2 == 0
    ensures (x + Pow2(t)) / Pow2(t) % 2 == 1
  {
    hide Pow2;
    LowBits(x, t, t);
    NextParity(x / Pow2(t), (x + Pow2(t)) / Pow2(t));
  }

  lemma SameParity(a: nat, b: nat, m: nat)
    requires b == a + 2 * m
    ensures b % 2 == a % 2
  {
  }

  lemma NextParity(a: nat, b: nat)
    requires a % 2 == 0 && b == a + 1
    ensures b % 2 == 1
  {
  }

  /** What a minimal-width encoding of v - min reads back as: v itself, and nothing above max goes unnoticed. */
  lemma ConstrainedRoundTrip(min: nat, max: nat, v: nat, bits: nat, n: nat)
    requires min <= max < TWO_64 && IsBitLength((max - min) % TWO_64, n) && bits < Pow2(n)
    ensures min <= v <= max && bits == v - min ==> (min + bits) % TWO_64 == v
    ensures bits <= max - min <==> min <= (min + bits) % TWO_64 <= max
  {
    hide Pow2;
    WidthFits(max - min, n);
    PowMonotone(n, 64);
    PowWords();
    if min + bits >= TWO_64 {
      ModUnique(min + bits, TWO_64, 1, min + bits - TWO_64);
    }
  }

  /** Setting all bits above the n-th, when the n-th is set, gives the two's complement. */
  lemma SignExtended(val: nat, n: nat)
    requires 0 < n <= 64 && val < Pow2(n)
    ensures Pow2(n) <= TWO_64
    ensures val / Pow2(n - 1) % 2 != 0 <==> val >= Pow2(n - 1)
    ensures Signed(if val / Pow2(n - 1) % 2 != 0 then val + (TWO_64 - Pow2(n)) else val, TWO_64) == TwosComplement(val, n)
  {
    hide Pow2;
    PowStep(n);
    PowMonotone(n, 64);
    PowMonotone(n - 1, 63);
    PowWords();
    var p := Pow2(n - 1);
    if val >= p {
      ModUnique(val, p, 1, val - p);
    } else {
      ModUnique(val, p, 0, val);
    }
  }
}
