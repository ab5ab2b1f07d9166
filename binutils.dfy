/**
 * Fixed-width little-endian fields (`binutils.parse_fmt`, `binutils.read_data_fmt`).
 *
 * A format is a sequence of `struct` codes. The slice taken from the buffer is
 * `struct.calcsize(fmt)` long, which is the NATIVE size (items aligned to their own size on a
 * 64-bit build), while the unpacking uses the standard little-endian sizes of `'<' + fmt`
 * (no padding). The two agree for every format the decoders use except `'IQ'`.
 */
module BinUtils {
  import opened Wrappers
  import opened Bytes
  import opened Streams

  /** The `struct` format characters used by the decoders. */
  datatype Code =
    | Int8    // 'b'
    | UInt8   // 'B'
    | Int16   // 'h'
    | Int32   // 'i'
    | UInt32  // 'I'
    | UInt64  // 'Q'

  function Width(c: Code): nat
  {
    match c
    case Int8 => 1
    case UInt8 => 1
    case Int16 => 2
    case Int32 => 4
    case UInt32 => 4
    case UInt64 => 8
  }

  predicate IsSigned(c: Code)
  {
    c == Int8 || c == Int16 || c == Int32
  }

  /** `c * count`: Python repeats a format string, and a count that is not positive gives `''`. */
  function Repeat(c: Code, count: int): (fmt: seq<Code>)
    ensures |fmt| == (if count <= 0 then 0 else count)
    ensures forall k :: 0 <= k < |fmt| ==> fmt[k] == c
    decreases count
  {
    if count <= 0 then [] else [c] + Repeat(c, count - 1)
  }

  /** Size of `'<' + fmt`: the standard widths added up, without padding. */
  function StandardSize(fmt: seq<Code>): nat
  {
    if fmt == [] then 0 else Width(fmt[0]) + StandardSize(fmt[1..])
  }

  /** Padding native mode puts before an item at `offset`: each item is aligned to its own size. */
  function Padding(offset: nat, c: Code): nat
  {
    match c
    case Int8 => 0
    case UInt8 => 0
    case Int16 => offset % 2
    case Int32 => (4 - offset % 4) % 4
    case UInt32 => (4 - offset % 4) % 4
    case UInt64 => (8 - offset % 8) % 8
  }

  function NativeEnd(fmt: seq<Code>, offset: nat): nat
  {
    if fmt == [] then offset
    else NativeEnd(fmt[1..], offset + Padding(offset, fmt[0]) + Width(fmt[0]))
  }

  /** `struct.calcsize(fmt)` in native mode. */
  function NativeSize(fmt: seq<Code>): nat
  {
    NativeEnd(fmt, 0)
  }

  /** Every item of `fmt`, laid out from `offset`, is already aligned: native mode adds no padding. */
  predicate AlignedFrom(fmt: seq<Code>, offset: nat)
  {
    fmt == [] || (Padding(offset, fmt[0]) == 0 && AlignedFrom(fmt[1..], offset + Width(fmt[0])))
  }

  /** One field: unsigned for 'B', 'I', 'Q', two's complement for 'b', 'h', 'i'. */
  function FieldValue(chunk: seq<byte>, c: Code): int
    requires |chunk| == Width(c)
  {
    if IsSigned(c) then Signed(chunk) else Unsigned(chunk)
  }

  /** `struct.unpack('<' + fmt, chunk)` on a chunk of exactly the standard size. */
  function Unpack(chunk: seq<byte>, fmt: seq<Code>): (values: seq<int>)
    requires |chunk| == StandardSize(fmt)
    ensures |values| == |fmt|
  {
    if fmt == [] then []
    else [FieldValue(chunk[..Width(fmt[0])], fmt[0])] + Unpack(chunk[Width(fmt[0])..], fmt[1..])
  }

  /** `parse_fmt(data, fmt)`: slice `calcsize(fmt)` bytes, then unpack them as `'<' + fmt`. */
  function ParseFmt(data: seq<byte>, fmt: seq<Code>): (r: Result<seq<int>>)
    ensures r.Ok? ==> |r.value| == |fmt|
  {
    var chunk := Take(data, NativeSize(fmt));
    if |chunk| != StandardSize(fmt) then Err(StructError) else Ok(Unpack(chunk, fmt))
  }

  /** Each value fits the field it is packed into. */
  predicate Packable(values: seq<int>, fmt: seq<Code>)
  {
    |values| == |fmt| &&
    forall k :: 0 <= k < |fmt| ==>
      if IsSigned(fmt[k]) then FitsSigned(values[k], Width(fmt[k])) else FitsUnsigned(values[k], Width(fmt[k]))
  }

  /** `struct.pack('<' + fmt, *values)` for values in range. */
  function Pack(values: seq<int>, fmt: seq<Code>): (data: seq<byte>)
    requires Packable(values, fmt)
    ensures |data| == StandardSize(fmt)
  {
    if fmt == [] then []
    else Encode(values[0], Width(fmt[0])) + Pack(values[1..], fmt[1..])
  }

  /** Byte offset of item `k` in the standard layout. */
  function Offset(fmt: seq<Code>, k: nat): nat
    requires k <= |fmt|
  {
    if k == 0 then 0 else Width(fmt[0]) + Offset(fmt[1..], k - 1)
  }

  /** The offset of item `k` is the size of the items before it. */
  lemma {:induction false} OffsetIsPrefixSize(fmt: seq<Code>, k: nat)
    requires k <= |fmt|
    ensures Offset(fmt, k) == StandardSize(fmt[..k])
    ensures Offset(fmt, k) + StandardSize(fmt[k..]) == StandardSize(fmt)
  {
    if k == 0 {
      assert fmt[..0] == [] && fmt[0..] == fmt;
    } else {
      OffsetIsPrefixSize(fmt[1..], k - 1);
      assert fmt[..k][0] == fmt[0] && fmt[..k][1..] == fmt[1..][..k - 1];
      assert fmt[1..][k - 1..] == fmt[k..];
    }
  }

  lemma {:induction false} NativeEndAtLeast(fmt: seq<Code>, offset: nat)
    ensures NativeEnd(fmt, offset) >= offset + StandardSize(fmt)
    ensures AlignedFrom(fmt, offset) ==> NativeEnd(fmt, offset) == offset + StandardSize(fmt)
  {
    if fmt != [] {
      NativeEndAtLeast(fmt[1..], offset + Padding(offset, fmt[0]) + Width(fmt[0]));
      NativeEndAtLeast(fmt[1..], offset + Width(fmt[0]));
    }
  }

  /**
   * `parse_fmt` succeeds exactly when the native slice has the standard length: when the data
   * is exactly the standard size, or when it is at least that long and the format has no native
   * padding. It then decodes the first `StandardSize(fmt)` bytes and ignores the rest.
   */
  lemma ParseFmtSpec(data: seq<byte>, fmt: seq<Code>)
    ensures ParseFmt(data, fmt).Ok? <==>
      (|data| == StandardSize(fmt) || (|data| >= StandardSize(fmt) && NativeSize(fmt) == StandardSize(fmt)))
    ensures ParseFmt(data, fmt).Ok? ==> ParseFmt(data, fmt).value == Unpack(data[..StandardSize(fmt)], fmt)
    ensures |data| < StandardSize(fmt) ==> ParseFmt(data, fmt) == Err(StructError)
  {
    NativeEndAtLeast(fmt, 0);
  }

  /** A format without native padding reads its fields from the front of the buffer. */
  lemma ParseFmtAligned(data: seq<byte>, fmt: seq<Code>)
    requires AlignedFrom(fmt, 0)
    ensures ParseFmt(data, fmt).Ok? <==> |data| >= StandardSize(fmt)
    ensures |data| >= StandardSize(fmt) ==> ParseFmt(data, fmt) == Ok(Unpack(data[..StandardSize(fmt)], fmt))
  {
    NativeEndAtLeast(fmt, 0);
    ParseFmtSpec(data, fmt);
  }

  /**
   * The `'IQ'` quirk: `calcsize('IQ')` is 16 (4 bytes of padding before the 'Q') while
   * `'<IQ'` unpacks 12 bytes, so `parse_fmt(data, 'IQ')` succeeds only on exactly 12 bytes.
   */
  lemma {:induction false} SyncHashFormatQuirk(data: seq<byte>)
    ensures NativeSize([UInt32, UInt64]) == 16 && StandardSize([UInt32, UInt64]) == 12
    ensures ParseFmt(data, [UInt32, UInt64]).Ok? <==> |data| == 12
  {
    assert NativeEnd([UInt32, UInt64], 0) == NativeEnd([UInt64], 4);
    assert NativeEnd([UInt64], 4) == NativeEnd([], 16);
    assert StandardSize([UInt32, UInt64]) == 4 + StandardSize([UInt64]);
    assert StandardSize([UInt64]) == 8 + StandardSize([]);
    ParseFmtSpec(data, [UInt32, UInt64]);
  }

  /** `'I' * count` has no native padding: `parse_fmt` of it needs `4 * count` bytes. */
  lemma {:induction false} RepeatAligned(c: Code, count: int, offset: nat)
    requires offset % Width(c) == 0 && (c == Int32 || c == UInt32)
    ensures AlignedFrom(Repeat(c, count), offset)
    ensures StandardSize(Repeat(c, count)) == 4 * (if count <= 0 then 0 else count)
    decreases count
  {
    if count > 0 {
      RepeatAligned(c, count - 1, offset + 4);
      assert Repeat(c, count)[1..] == Repeat(c, count - 1);
    }
  }

  /** The ids of `'I' * count` read from `from` onwards: id `k` is the four bytes at `from + 4 * k`. */
  lemma {:induction false} UnpackRepeat(data: seq<byte>, count: nat, from: nat)
    requires |data| >= from + 4 * count
    ensures StandardSize(Repeat(UInt32, count)) == 4 * count
    ensures forall k :: 0 <= k < count ==>
              Unpack(data[from..from + 4 * count], Repeat(UInt32, count))[k] == Unsigned(data[from + 4 * k..from + 4 * k + 4])
    decreases count
  {
    RepeatAligned(UInt32, count, 0);
    if count > 0 {
      var fmt := Repeat(UInt32, count);
      var chunk := data[from..from + 4 * count];
      assert fmt[0] == UInt32 && fmt[1..] == Repeat(UInt32, count - 1);
      UnpackRepeat(data, count - 1, from + 4);
      assert chunk[..4] == data[from..from + 4];
      assert chunk[4..] == data[from + 4..from + 4 + 4 * (count - 1)];
      forall k | 0 <= k < count
        ensures Unpack(chunk, fmt)[k] == Unsigned(data[from + 4 * k..from + 4 * k + 4])
      {
        if k > 0 {
          assert from + 4 + 4 * (k - 1) == from + 4 * k;
        }
      }
    }
  }

  /** `parse_fmt(data[from:], 'I' * count)`: it needs `4 * count` bytes, and id `k` is the four at `from + 4 * k`. */
  lemma ParseRepeat(data: seq<byte>, count: int, from: nat)
    requires from <= |data|
    ensures var n := if count <= 0 then 0 else count;
            var r := ParseFmt(data[from..], Repeat(UInt32, count));
            && (r.Ok? <==> |data| - from >= 4 * n)
            && (r.Err? ==> r.error == StructError)
            && (r.Ok? ==> forall k :: 0 <= k < n ==> r.value[k] == Unsigned(data[from + 4 * k..from + 4 * k + 4]))
  {
    var n := if count <= 0 then 0 else count;
    var fmt := Repeat(UInt32, count);
    RepeatAligned(UInt32, count, 0);
    ParseFmtAligned(data[from..], fmt);
    if |data| - from >= 4 * n {
      UnpackRepeat(data, n, from);
      assert fmt == Repeat(UInt32, n);
      assert data[from..][..4 * n] == data[from..from + 4 * n];
    }
  }

  /** Item `k` of the unpacked tuple is the field at its standard offset. */
  lemma {:induction false} UnpackAt(chunk: seq<byte>, fmt: seq<Code>, k: nat)
    requires |chunk| == StandardSize(fmt) && k < |fmt|
    ensures Offset(fmt, k) + Width(fmt[k]) <= |chunk|
    ensures Unpack(chunk, fmt)[k] == FieldValue(chunk[Offset(fmt, k)..Offset(fmt, k) + Width(fmt[k])], fmt[k])
  {
    var w := Width(fmt[0]);
    if k == 0 {
      assert fmt[..0] == [];
      assert chunk[0..w] == chunk[..w];
    } else {
      var rest := chunk[w..];
      var c := fmt[k];
      assert fmt[1..][k - 1] == c;
      UnpackAt(rest, fmt[1..], k - 1);
      var o := Offset(fmt[1..], k - 1);
      var at := Offset(fmt, k);
      assert at == w + o;
      assert at + Width(c) <= |chunk|;
      FieldOfSuffix(chunk, w, o, at, c);
      UnpackTail(chunk, fmt, k);
      assert Unpack(chunk, fmt)[k] == Unpack(rest, fmt[1..])[k - 1];
      assert Unpack(rest, fmt[1..])[k - 1] == FieldValue(rest[o..o + Width(c)], c);
    }
  }

  lemma FieldOfSuffix(chunk: seq<byte>, w: nat, o: nat, at: nat, c: Code)
    requires at == w + o && at + Width(c) <= |chunk|
    ensures FieldValue(chunk[w..][o..o + Width(c)], c) == FieldValue(chunk[at..at + Width(c)], c)
  {
    assert chunk[w..][o..o + Width(c)] == chunk[at..at + Width(c)];
  }

  lemma UnpackTail(chunk: seq<byte>, fmt: seq<Code>, k: nat)
    requires |chunk| == StandardSize(fmt) && 1 <= k < |fmt|
    ensures Width(fmt[0]) <= |chunk|
    ensures Unpack(chunk, fmt)[k] == Unpack(chunk[Width(fmt[0])..], fmt[1..])[k - 1]
  {
  }

  /** Every unpacked value lies in the range of its field. */
  lemma FieldValueRange(chunk: seq<byte>, c: Code)
    requires |chunk| == Width(c)
    ensures IsSigned(c) ==> FitsSigned(FieldValue(chunk, c), Width(c))
    ensures !IsSigned(c) ==> FitsUnsigned(FieldValue(chunk, c), Width(c))
  {
    EncodeOfSigned(chunk);
    UnsignedBound(chunk);
  }

  /** Unpacking what was packed gives the values back. */
  lemma {:induction false} UnpackPack(values: seq<int>, fmt: seq<Code>)
    requires Packable(values, fmt)
    ensures Unpack(Pack(values, fmt), fmt) == values
  {
    if fmt != [] {
      var w := Width(fmt[0]);
      var data := Pack(values, fmt);
      assert Packable(values[1..], fmt[1..]) by {
        forall k | 0 <= k < |fmt[1..]|
          ensures if IsSigned(fmt[1..][k]) then FitsSigned(values[1..][k], Width(fmt[1..][k]))
                  else FitsUnsigned(values[1..][k], Width(fmt[1..][k]))
        {
          assert fmt[1..][k] == fmt[k + 1] && values[1..][k] == values[k + 1];
        }
      }
      assert data[..w] == Encode(values[0], w);
      assert data[w..] == Pack(values[1..], fmt[1..]);
      UnpackPack(values[1..], fmt[1..]);
      if IsSigned(fmt[0]) {
        EncodeSigned(values[0], w);
      } else {
        EncodeUnsigned(values[0], w);
      }
    }
  }

  /**
   * What `read_data_fmt` returns on a reader over `bytes` standing at `pos`: the
   * `calcsize(fmt)` bytes read must all be there (AssertionError otherwise), and are then
   * handed to `parse_fmt`.
   */
  function ReadFmtAt(bytes: seq<byte>, pos: nat, fmt: seq<Code>): (r: Result<seq<int>>)
    ensures r.Ok? ==> |r.value| == |fmt|
  {
    var chunk := ReadAt(bytes, pos, NativeSize(fmt));
    if |chunk| == NativeSize(fmt) then ParseFmt(chunk, fmt) else Err(AssertionError)
  }

  /** A read of `calcsize(fmt)` bytes that runs past the end fails the assertion. */
  lemma ReadFmtAtShort(bytes: seq<byte>, pos: nat, fmt: seq<Code>)
    requires pos + NativeSize(fmt) > |bytes| && NativeSize(fmt) > 0
    ensures ReadFmtAt(bytes, pos, fmt) == Err(AssertionError)
  {
    assert |ReadAt(bytes, pos, NativeSize(fmt))| < NativeSize(fmt);
  }

  /** A read of `calcsize(fmt)` bytes that fits hands exactly those bytes to `parse_fmt`. */
  lemma ReadFmtAtFits(bytes: seq<byte>, pos: nat, fmt: seq<Code>)
    requires pos + NativeSize(fmt) <= |bytes|
    ensures ReadFmtAt(bytes, pos, fmt) == ParseFmt(bytes[pos..pos + NativeSize(fmt)], fmt)
  {
  }

  /** A read that fits decodes, for a format without native padding, the little-endian fields at `pos`. */
  lemma ReadFmtAtAligned(bytes: seq<byte>, pos: nat, fmt: seq<Code>)
    requires AlignedFrom(fmt, 0) && pos + StandardSize(fmt) <= |bytes|
    ensures ReadFmtAt(bytes, pos, fmt) == Ok(Unpack(bytes[pos..pos + StandardSize(fmt)], fmt))
  {
    var n := StandardSize(fmt);
    var data := bytes[pos..pos + n];
    ParseFmtAligned(data, fmt);
    assert data[..n] == data;
    assert ParseFmt(data, fmt) == Ok(Unpack(data, fmt));
    NativeEndAtLeast(fmt, 0);
    assert NativeSize(fmt) == n;
    ReadFmtAtFits(bytes, pos, fmt);
  }

  /** `read_data_fmt(reader, fmt)`: consumes up to `calcsize(fmt)` bytes and returns `ReadFmtAt`. */
  method ReadDataFmt(r: Reader, fmt: seq<Code>) returns (res: Result<seq<int>>)
    modifies r
    ensures res == ReadFmtAt(r.bytes, old(r.pos), fmt)
    ensures r.pos == old(r.pos) + |ReadAt(r.bytes, old(r.pos), NativeSize(fmt))|
  {
    var n := NativeSize(fmt);
    var data := r.Read(n);
    if |data| != n {
      return Err(AssertionError);
    }
    res := ParseFmt(data, fmt);
  }
}
