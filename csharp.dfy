/**
 * Length-prefixed strings in the layout of .NET `BinaryWriter`: a 7-bit variable-length
 * quantity (least significant group first, high bit set on every byte but the last) giving
 * the length, then that many raw bytes.
 */
module CSharp {
  import opened Bytes

  /** The byte carries the continuation bit: `digit & 0x80` is set. */
  predicate Continues(digit: byte)
  {
    digit >= 0x80
  }

  /** The 7 payload bits of a byte, `digit & 0x7f`. */
  function Low7(digit: byte): (v: nat)
    ensures v < 0x80
  {
    digit % 0x80
  }

  function Pow128(k: nat): (r: nat)
    ensures r >= 1
  {
    if k == 0 then 1 else 128 * Pow128(k - 1)
  }

  /**
   * The value and the number of bytes that `_vlq_deserialize` reads: groups are taken
   * from the front until a byte without the continuation bit, or until the data runs out.
   */
  function VlqDecode(data: seq<byte>): (r: (nat, nat))
    ensures r.1 <= |data|
  {
    if data == [] then (0, 0)
    else if !Continues(data[0]) then (Low7(data[0]), 1)
    else
      var (n, k) := VlqDecode(data[1..]);
      (Low7(data[0]) + 128 * n, k + 1)
  }

  /** The bytes `_vlq_serialize(n)` produces for `n >= 0`. */
  function VlqEncode(n: nat): seq<byte>
  {
    if n < 128 then [n] else [n % 128 + 0x80] + VlqEncode(n / 128)
  }

  /** `_vlq_deserialize(_vlq_serialize(n) + rest) == (n, len(_vlq_serialize(n)))`: trailing bytes are ignored. */
  lemma {:induction false} VlqRoundTrip(n: nat, rest: seq<byte>)
    ensures VlqDecode(VlqEncode(n) + rest) == (n, |VlqEncode(n)|)
  {
    var e := VlqEncode(n) + rest;
    if n >= 128 {
      var q, r := n / 128, n % 128;
      assert e[0] == r + 0x80 && Continues(e[0]);
      assert Low7(e[0]) == r;
      assert e[1..] == VlqEncode(q) + rest;
      VlqRoundTrip(q, rest);
      assert n == r + 128 * q;
    }
  }

  /** The encoding is never empty, every byte but the last carries the continuation bit, the last does not. */
  lemma {:induction false} VlqEncodeShape(n: nat)
    ensures |VlqEncode(n)| >= 1
    ensures forall i :: 0 <= i < |VlqEncode(n)| - 1 ==> Continues(VlqEncode(n)[i])
    ensures !Continues(VlqEncode(n)[|VlqEncode(n)| - 1])
  {
    if n >= 128 {
      VlqEncodeShape(n / 128);
      var e := VlqEncode(n);
      assert forall i :: 1 <= i < |e| ==> e[i] == VlqEncode(n / 128)[i - 1];
    }
  }

  /**
   * The encoding uses the minimal number of 7-bit groups: `n < 128^len`, and one group fewer
   * would not do. A single byte exactly when `n < 128`.
   */
  lemma {:induction false} VlqEncodeMinimal(n: nat)
    ensures n < Pow128(|VlqEncode(n)|)
    ensures |VlqEncode(n)| > 1 ==> n >= Pow128(|VlqEncode(n)| - 1)
    ensures |VlqEncode(n)| == 1 <==> n < 128
  {
    if n >= 128 {
      VlqEncodeMinimal(n / 128);
    }
  }

  /**
   * `_vlq_deserialize` never fails and stops at the first byte with the high bit clear: it
   * consumes nothing on empty input, consumes all the input when every byte continues, and
   * otherwise ends exactly on the first terminating byte.
   */
  lemma {:induction false} VlqDecodeStops(data: seq<byte>)
    ensures data == [] ==> VlqDecode(data) == (0, 0)
    ensures data != [] ==> VlqDecode(data).1 >= 1
    ensures forall i :: 0 <= i < VlqDecode(data).1 - 1 ==> Continues(data[i])
    ensures 0 < VlqDecode(data).1 < |data| ==> !Continues(data[VlqDecode(data).1 - 1])
    ensures (forall i :: 0 <= i < |data| ==> Continues(data[i])) ==> VlqDecode(data).1 == |data|
  {
    if data != [] && Continues(data[0]) {
      VlqDecodeStops(data[1..]);
      var k := VlqDecode(data).1;
      assert forall i :: 1 <= i < k - 1 ==> data[i] == data[1..][i - 1];
      if forall i :: 0 <= i < |data| ==> Continues(data[i]) {
        assert forall i :: 0 <= i < |data[1..]| ==> data[1..][i] == data[i + 1];
      }
    }
  }

  /** Bytes after the terminating byte do not change what `_vlq_deserialize` returns. */
  lemma {:induction false} VlqDecodeIgnoresTail(data: seq<byte>, rest: seq<byte>)
    requires VlqDecode(data).1 > 0 && !Continues(data[VlqDecode(data).1 - 1])
    ensures VlqDecode(data + rest) == VlqDecode(data)
  {
    if Continues(data[0]) {
      assert (data + rest)[1..] == data[1..] + rest;
      VlqDecodeIgnoresTail(data[1..], rest);
    }
  }

  /** `VlqDecode` of a suffix, unfolded by one byte. */
  lemma DecodeAt(data: seq<byte>, i: nat)
    requires i < |data|
    ensures !Continues(data[i]) ==> VlqDecode(data[i..]) == (Low7(data[i]), 1)
    ensures Continues(data[i]) ==>
              VlqDecode(data[i..]) == (Low7(data[i]) + 128 * VlqDecode(data[i + 1..]).0, VlqDecode(data[i + 1..]).1 + 1)
  {
    assert data[i..][1..] == data[i + 1..];
  }

  /**
   * The state `_vlq_deserialize`'s loop ends in when it stands at byte `i` with the value `n`
   * assembled so far and the next group due at `shift`.
   */
  function DecodeLoop(data: seq<byte>, i: nat, n: nat, shift: nat): (nat, nat)
    decreases |data| - i
  {
    if i >= |data| then (n, i)
    else if !Continues(data[i]) then (n + Low7(data[i]) * shift, i + 1)
    else DecodeLoop(data, i + 1, n + Low7(data[i]) * shift, shift * 128)
  }

  /** Proof step for `DecodeLoopSpec`: regrouping the value after one more 7-bit group. */
  lemma GroupDistrib(n: nat, shift: nat, low: nat, t: nat)
    ensures (n + low * shift) + (shift * 128) * t == n + shift * (low + 128 * t)
  {
  }

  /** Proof step for `VlqDeserialize`: a new 7-bit group stays below the next shift. */
  lemma GroupBound(n: nat, shift: nat, low: nat)
    requires n < shift && low < 128
    ensures n + low * shift < shift * 128
  {
    assert low * shift <= 127 * shift;
  }

  /** The loop from byte `i` adds `shift` times the value of the rest of the groups. */
  lemma {:induction false} DecodeLoopSpec(data: seq<byte>, i: nat, n: nat, shift: nat)
    requires i <= |data|
    ensures DecodeLoop(data, i, n, shift) == (n + shift * VlqDecode(data[i..]).0, i + VlqDecode(data[i..]).1)
    decreases |data| - i
  {
    if i < |data| {
      DecodeAt(data, i);
      var low := Low7(data[i]);
      if Continues(data[i]) {
        DecodeLoopSpec(data, i + 1, n + low * shift, shift * 128);
        GroupDistrib(n, shift, low, VlqDecode(data[i + 1..]).0);
      } else {
        assert low * shift == shift * low;
      }
    }
  }

  /**
   * `_vlq_deserialize`: the loop of the source, with `n |= group << 7*i` written as an addition
   * (the invariant `n < shift` says the group lands on bits that are still clear).
   */
  method VlqDeserialize(data: seq<byte>) returns (n: nat, nbytes: nat)
    ensures (n, nbytes) == VlqDecode(data)
  {
    DecodeLoopSpec(data, 0, 0, 1);
    n, nbytes := 0, 0;
    var shift: nat := 1;
    var i := 0;
    while i < |data|
      invariant i <= |data| && nbytes == i && n < shift
      invariant DecodeLoop(data, i, n, shift) == VlqDecode(data)
    {
      var digit := data[i];
      GroupBound(n, shift, Low7(digit));
      n := n + Low7(digit) * shift;
      nbytes := nbytes + 1;
      if !Continues(digit) {
        break;
      }
      shift := shift * 128;
      i := i + 1;
    }
  }

  /** `_vlq_serialize`: emit the low 7 bits, shift right by 7, flag the byte when more follow. */
  method VlqSerialize(n: nat) returns (data: seq<byte>)
    ensures data == VlqEncode(n)
  {
    var m := n;
    data := [];
    while true
      invariant data + VlqEncode(m) == VlqEncode(n)
      decreases m
    {
      ghost var before := m;
      var val := m % 128;   // n & 0x7f
      m := m / 128;         // n >>= 7
      var digit := if m != 0 then val + 0x80 else val;  // val | 0x80 if n else val
      if m != 0 {
        assert VlqEncode(before) == [digit] + VlqEncode(m);
      } else {
        assert VlqEncode(before) == [digit];
      }
      ghost var prefix := data;
      data := data + [digit];
      assert (prefix + [digit]) + VlqEncode(m) == prefix + ([digit] + VlqEncode(m));
      if m == 0 {
        assert data == VlqEncode(n);
        break;
      }
    }
  }

  /**
   * `parse_string(data)`: the string `data[nbytes:nbytes+length]` (cut short when the data
   * ends early) and the size `nbytes + length`, which is reported even when it exceeds the data.
   */
  function ParseString(data: seq<byte>): (r: (seq<byte>, nat))
    ensures var (length, nbytes) := VlqDecode(data);
            && r.1 == nbytes + length && |r.0| <= length
            && (r.1 <= |data| ==> r.0 == data[nbytes..r.1])
  {
    var (length, nbytes) := VlqDecode(data);
    (Slice(data, nbytes, nbytes + length), nbytes + length)
  }

  /** `serialize_string(s)`: the VLQ of the length, then the bytes. */
  function SerializeString(s: seq<byte>): (r: seq<byte>)
    ensures |r| == |VlqEncode(|s|)| + |s| && r[|VlqEncode(|s|)|..] == s
  {
    VlqEncode(|s|) + s
  }

  /** `parse_string(serialize_string(s) + rest) == (s, len(serialize_string(s)))`. */
  lemma ParseStringRoundTrip(s: seq<byte>, rest: seq<byte>)
    ensures ParseString(SerializeString(s) + rest) == (s, |SerializeString(s)|)
  {
    var e := VlqEncode(|s|);
    assert SerializeString(s) + rest == e + (s + rest);
    VlqRoundTrip(|s|, s + rest);
    assert (e + (s + rest))[|e|..|e| + |s|] == s;
  }

  /**
   * On short input `parse_string` truncates silently: the string is whatever of the declared
   * bytes is present, shorter than declared exactly when the reported size exceeds the data.
   */
  lemma ParseStringTruncates(data: seq<byte>)
    ensures ParseString(data).1 == VlqDecode(data).1 + VlqDecode(data).0
    ensures |ParseString(data).0| == Min(VlqDecode(data).0, |data| - VlqDecode(data).1)
    ensures ParseString(data).0 == data[VlqDecode(data).1..VlqDecode(data).1 + |ParseString(data).0|]
    ensures |ParseString(data).0| < VlqDecode(data).0 <==> ParseString(data).1 > |data|
  {
    var length := VlqDecode(data).0;
    var nbytes := VlqDecode(data).1;
    var rest := Drop(data, nbytes);
    assert rest == data[nbytes..];
    var s := Take(rest, if nbytes + length <= nbytes then 0 else length);
    assert ParseString(data).0 == s;
    assert s == rest[..|s|];
  }
}
