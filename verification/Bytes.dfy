/** Bytes and the fixed-width integers the wire formats are made of. */
module Bytes {
  type byte = x: int | 0 <= x < 256

  const TWO_16 := 0x1_0000
  const TWO_32 := 0x1_0000_0000
  const TWO_63 := 0x8000_0000_0000_0000
  const TWO_64 := 0x1_0000_0000_0000_0000

  /** The big-endian 16-bit word at index i. */
  function BE16(s: seq<byte>, i: nat): (v: nat)
    requires i + 2 <= |s|
    ensures v < TWO_16
  {
    (s[i] as int) * 256 + s[i + 1]
  }

  /** The big-endian 32-bit word at index i. */
  function BE32(s: seq<byte>, i: nat): (v: nat)
    requires i + 4 <= |s|
    ensures v < TWO_32
  {
    BE16(s, i) * TWO_16 + BE16(s, i + 2)
  }

  /** A word, one of `size` many, read as two's complement. */
  function Signed(x: int, size: nat): int {
    if 2 * x >= size then x - size else x
  }

  function Flatten<T>(parts: seq<seq<T>>): seq<T> {
    if parts == [] then [] else Flatten(parts[..|parts| - 1]) + parts[|parts| - 1]
  }

  lemma FlattenSnoc<T>(parts: seq<seq<T>>, last: seq<T>)
    ensures Flatten(parts + [last]) == Flatten(parts) + last
  {
    assert (parts + [last])[..|parts|] == parts;
  }

  lemma {:induction false} FlattenCons<T>(first: seq<T>, parts: seq<seq<T>>)
    ensures Flatten([first] + parts) == first + Flatten(parts)
  {
    if parts == [] {
      assert [first] + parts == [] + [first];
      FlattenSnoc([], first);
    } else {
      var n := |parts| - 1;
      FlattenCons(first, parts[..n]);
      FlattenSnoc([first] + parts[..n], parts[n]);
      assert [first] + parts[..n] + [parts[n]] == [first] + parts;
    }
  }

  lemma {:induction false} FlattenConcat<T>(xs: seq<seq<T>>, ys: seq<seq<T>>)
    ensures Flatten(xs + ys) == Flatten(xs) + Flatten(ys)
  {
    if ys == [] {
      assert xs + ys == xs;
    } else {
      var n := |ys| - 1;
      FlattenConcat(xs, ys[..n]);
      assert (xs + ys)[..|xs + ys| - 1] == xs + ys[..n];
    }
  }

  /** One more part of a list. */
  lemma FlattenTake<T>(parts: seq<seq<T>>, i: nat)
    requires i < |parts|
    ensures Flatten(parts[..i + 1]) == Flatten(parts[..i]) + parts[i]
  {
    assert parts[..i + 1] == parts[..i] + [parts[i]];
    FlattenSnoc(parts[..i], parts[i]);
  }

  lemma FlattenNone<T>(parts: seq<seq<T>>)
    ensures Flatten(parts[..0]) == []
  {
  }

  lemma FlattenPrefix<T>(parts: seq<seq<T>>, i: nat)
    requires i <= |parts|
    ensures Flatten(parts[..i]) <= Flatten(parts)
  {
    FlattenConcat(parts[..i], parts[i..]);
    assert parts[..i] + parts[i..] == parts;
  }
}
