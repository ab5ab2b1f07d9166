/**
 * Python `bytes` as a sequence of bytes, each the integer 0..255 that indexing a `bytes`
 * object yields: the slicing rules the decoders rely on,
 * and little-endian integers of a fixed byte width (what `struct` packs and unpacks).
 */
module Bytes {

  type byte = b: int | 0 <= b < 256

  function Min(a: int, b: int): int { if a <= b then a else b }

  /** `s[i:]`: a start past the end gives `b''`; a negative start counts from the end. */
  function Drop(s: seq<byte>, i: int): (r: seq<byte>)
    ensures 0 <= i <= |s| ==> r == s[i..]
    ensures i >= |s| ==> r == []
    ensures i < 0 ==> r == s[if -i >= |s| then 0 else |s| + i..]
  {
    if i >= |s| then []
    else if i >= 0 then s[i..]
    else if -i >= |s| then s
    else s[|s| + i..]
  }

  /** `s[:n]` for `n >= 0`: at most the first `n` bytes. */
  function Take(s: seq<byte>, n: nat): (r: seq<byte>)
    ensures |r| == Min(n, |s|) && r == s[..|r|]
  {
    if n <= |s| then s[..n] else s
  }

  /** `s[i:j]` for `i, j >= 0`: an end past the data is clamped to it. */
  function Slice(s: seq<byte>, i: nat, j: nat): (r: seq<byte>)
    ensures i <= j <= |s| ==> r == s[i..j]
    ensures i <= |s| <= j ==> r == s[i..]
    ensures j <= i || |s| <= i ==> r == []
  {
    Take(Drop(s, i), if j <= i then 0 else j - i)
  }

  /** Number of values representable in `n` bytes. */
  function Pow256(n: nat): (r: nat)
    ensures r >= 1
  {
    if n == 0 then 1 else 256 * Pow256(n - 1)
  }

  /** The unsigned little-endian value of `s` (`struct` codes 'B', 'I', 'Q'). */
  function Unsigned(s: seq<byte>): nat
  {
    if s == [] then 0 else s[0] + 256 * Unsigned(s[1..])
  }

  /** The two's-complement little-endian value of `s` (`struct` codes 'b', 'h', 'i'). */
  function Signed(s: seq<byte>): int
  {
    var u := Unsigned(s);
    if 2 * u >= Pow256(|s|) then u - Pow256(|s|) else u
  }

  /** The `width` low bytes of `u`, least significant first. */
  function LowBytes(u: nat, width: nat): (r: seq<byte>)
    ensures |r| == width
  {
    if width == 0 then [] else [u % 256] + LowBytes(u / 256, width - 1)
  }

  predicate FitsSigned(v: int, width: nat)
  {
    -(Pow256(width) as int) <= 2 * v < Pow256(width)
  }

  predicate FitsUnsigned(v: int, width: nat)
  {
    0 <= v < Pow256(width)
  }

  /**
   * `v` on `width` bytes, little-endian, in two's complement when negative: what `struct.pack`
   * writes for a value in range of the field.
   */
  function Encode(v: int, width: nat): (r: seq<byte>)
    requires FitsSigned(v, width) || FitsUnsigned(v, width)
    ensures |r| == width
  {
    LowBytes(if v < 0 then v + Pow256(width) else v, width)
  }

  lemma {:induction false} UnsignedBound(s: seq<byte>)
    ensures Unsigned(s) < Pow256(|s|)
  {
    if s != [] {
      UnsignedBound(s[1..]);
    }
  }

  lemma {:induction false} LowBytesValue(u: nat, width: nat)
    requires u < Pow256(width)
    ensures Unsigned(LowBytes(u, width)) == u
  {
    if width > 0 {
      var r := LowBytes(u, width);
      assert r[1..] == LowBytes(u / 256, width - 1);
      assert u / 256 < Pow256(width - 1);
      LowBytesValue(u / 256, width - 1);
      assert Unsigned(r) == r[0] as nat + 256 * Unsigned(r[1..]);
    }
  }

  lemma DivMod256(a: nat, b: nat)
    requires a < 256
    ensures (a + 256 * b) % 256 == a && (a + 256 * b) / 256 == b
  {
  }

  lemma {:induction false} LowBytesOfUnsigned(s: seq<byte>)
    ensures LowBytes(Unsigned(s), |s|) == s
  {
    if s != [] {
      var u := Unsigned(s);
      var tail := Unsigned(s[1..]);
      assert u == s[0] + 256 * tail;
      DivMod256(s[0], tail);
      LowBytesOfUnsigned(s[1..]);
      assert LowBytes(u, |s|) == [u % 256] + LowBytes(u / 256, |s| - 1);
    }
  }

  /** Round trip for an unsigned value that fits: `Unsigned(Encode(v, width)) == v`. */
  lemma EncodeUnsigned(v: int, width: nat)
    requires FitsUnsigned(v, width)
    ensures Unsigned(Encode(v, width)) == v
  {
    LowBytesValue(v, width);
  }

  /** Round trip for a signed value that fits: `Signed(Encode(v, width)) == v`. */
  lemma EncodeSigned(v: int, width: nat)
    requires FitsSigned(v, width)
    ensures Signed(Encode(v, width)) == v
  {
    LowBytesValue(if v < 0 then v + Pow256(width) else v, width);
  }

  /** A byte string is the encoding of its own unsigned value: the encoding is injective. */
  lemma EncodeOfUnsigned(s: seq<byte>)
    ensures FitsUnsigned(Unsigned(s), |s|) && Encode(Unsigned(s), |s|) == s
  {
    UnsignedBound(s);
    LowBytesOfUnsigned(s);
  }

  /** The signed value of a byte string fits its width, and the byte string is its encoding. */
  lemma EncodeOfSigned(s: seq<byte>)
    ensures FitsSigned(Signed(s), |s|) && Encode(Signed(s), |s|) == s
  {
    UnsignedBound(s);
    LowBytesOfUnsigned(s);
  }
}
