/**
 * The byte layouts the order decoders read, written out as encoders, and the round trips that
 * tie each decoder to its layout: decoding what was encoded gives the encoded values back and
 * leaves exactly the bytes that followed.
 */
module OrderLayouts {
  import opened Wrappers
  import opened Bytes
  import opened BinUtils
  import opened CSharp
  import opened Markup
  import opened Orders

  // ---------------------------------------------------------------------------------------
  // Single fields

  /** `v` is in the range of the struct code `c`. */
  predicate Fits(v: int, c: Code)
  {
    if IsSigned(c) then FitsSigned(v, Width(c)) else FitsUnsigned(v, Width(c))
  }

  /** `struct.pack('<' + c, v)`. */
  function EncodeField(v: int, c: Code): (r: seq<byte>)
    requires Fits(v, c)
    ensures |r| == Width(c)
  {
    Encode(v, Width(c))
  }

  lemma FieldRoundTrip(v: int, c: Code)
    requires Fits(v, c)
    ensures FieldValue(EncodeField(v, c), c) == v
  {
    if IsSigned(c) {
      EncodeSigned(v, Width(c));
    } else {
      EncodeUnsigned(v, Width(c));
    }
  }

  /** One field read back from its encoding, with whatever follows left over. */
  lemma ReadOneRoundTrip(v: int, c: Code, tail: seq<byte>)
    requires Fits(v, c)
    ensures ReadOne(EncodeField(v, c) + tail, c).Ok?
    ensures ReadOne(EncodeField(v, c) + tail, c).value.0 == v
    ensures ReadOne(EncodeField(v, c) + tail, c).value.1 == tail
  {
    var e := EncodeField(v, c);
    assert (e + tail)[..Width(c)] == e && (e + tail)[Width(c)..] == tail;
    FieldRoundTrip(v, c);
  }

  /** A packed, aligned format read back, with whatever follows left over. */
  lemma ReadFmtRoundTrip(values: seq<int>, fmt: seq<Code>, tail: seq<byte>)
    requires Packable(values, fmt) && AlignedFrom(fmt, 0)
    ensures ReadFmt(Pack(values, fmt) + tail, fmt).Ok?
    ensures ReadFmt(Pack(values, fmt) + tail, fmt).value.0 == values
    ensures ReadFmt(Pack(values, fmt) + tail, fmt).value.1 == tail
  {
    var e := Pack(values, fmt);
    assert (e + tail)[..StandardSize(fmt)] == e && (e + tail)[StandardSize(fmt)..] == tail;
    UnpackPack(values, fmt);
  }

  // ---------------------------------------------------------------------------------------
  // SyncHash and Handshake

  /**
   * From version 11 on, a hash and a defeat state packed as `'<IQ'` decode to themselves;
   * nothing may follow them.
   */
  lemma SyncHashLongRoundTrip(hash: int, defeatState: int, version: Option<int>)
    requires LongSyncHash(version) && FitsUnsigned(hash, 4) && FitsUnsigned(defeatState, 8)
    ensures var r := DecodeSyncHash(Encode(hash, 4) + Encode(defeatState, 8), version);
            r.Ok? && r.value.syncHash == hash && r.value.defeatState == Some(defeatState)
  {
    var e := Encode(hash, 4) + Encode(defeatState, 8);
    SyncHashLayout(e, version);
    assert e[..4] == Encode(hash, 4) && e[4..12] == Encode(defeatState, 8);
    EncodeUnsigned(hash, 4);
    EncodeUnsigned(defeatState, 8);
  }

  /** Before version 11 a packed hash decodes to itself whatever follows it, and is the data kept. */
  lemma SyncHashShortRoundTrip(hash: int, tail: seq<byte>, version: Option<int>)
    requires !LongSyncHash(version) && FitsUnsigned(hash, 4)
    ensures var r := DecodeSyncHash(Encode(hash, 4) + tail, version);
            r.Ok? && r.value.syncHash == hash && r.value.defeatState.None? && r.value.data == Encode(hash, 4)
  {
    var e := Encode(hash, 4) + tail;
    SyncHashLayout(e, version);
    assert e[..4] == Encode(hash, 4);
    EncodeUnsigned(hash, 4);
  }

  /** `serialize_string(key) + serialize_string(value)`, the layout of a handshake. */
  function HandshakeBytes(key: seq<byte>, value: seq<byte>, tail: seq<byte>): seq<byte>
  {
    SerializeString(key) + (SerializeString(value) + tail)
  }

  /**
   * A handshake decodes to its key and to its value interpreted by the key; whatever follows is
   * ignored. It fails exactly when the version it announces cannot be read.
   */
  lemma HandshakeRoundTrip(key: seq<byte>, value: seq<byte>, tail: seq<byte>, env: Env)
    ensures var r := DecodeHandshake(HandshakeBytes(key, value, tail), env);
            var v := DecodeTargetString(key, value, env);
            && (r.Ok? <==> HandshakeVersion(key, v, env).Ok?)
            && (r.Ok? ==> r.value.key == key && r.value.value == v && r.value.ordersVersion == HandshakeVersion(key, v, env).value)
            && (r.Err? ==> r.error == HandshakeVersion(key, v, env).error)
  {
    var data := HandshakeBytes(key, value, tail);
    ParseStringRoundTrip(key, SerializeString(value) + tail);
    var keySize := |SerializeString(key)|;
    assert Drop(data, keySize) == SerializeString(value) + tail;
    ParseStringRoundTrip(value, tail);
  }

  // ---------------------------------------------------------------------------------------
  // Fields records

  /** What a Fields record carries, before its target string is interpreted. */
  datatype Record = Record(
    field: seq<byte>,
    subjectId: Option<int>,
    target: TargetKeys,
    queued: bool,
    targetString: Option<seq<byte>>,
    extraActors: Option<seq<int>>,
    extraLocation: Option<int>,
    extraData: Option<int>,
    groupedActors: Option<seq<int>>)

  /** Proof step for `DivUnique`: a positive multiple of `m` is at least `m`. */
  lemma MulAtLeast(m: nat, k: int)
    requires k >= 1
    ensures m * k >= m
  {
    assert m * k == m + m * (k - 1);
  }

  /** Floor division is determined by the quotient-remainder decomposition. */
  lemma DivUnique(x: int, m: nat, q: int, r: int)
    requires m > 0 && 0 <= r < m && x == m * q + r
    ensures x / m == q
  {
    var q', r' := x / m, x % m;
    assert x == m * q' + r' && 0 <= r' < m;
    assert m * q - m * q' == m * (q - q');
    if q > q' {
      MulAtLeast(m, q - q');
    } else if q < q' {
      MulAtLeast(m, q' - q);
    }
  }

  /** In a word `m * (b + 2 * hi) + lo` with `lo < m`, the flag `m` is the bit `b`. */
  lemma FlagAt(x: int, m: nat, lo: int, b: int, hi: int)
    requires m > 0 && 0 <= lo < m && (b == 0 || b == 1) && hi >= 0
    requires x == m * (b + 2 * hi) + lo && x < 0x1_0000
    ensures HasFlag(x, m) <==> b == 1
  {
    assert x % 0x1_0000 == x;
    DivUnique(x, m, b + 2 * hi, lo);
  }

  /** The sum of the flag bits `x0` (lowest) to `x8`. */
  function FlagSum(x0: nat, x1: nat, x2: nat, x3: nat, x4: nat, x5: nat, x6: nat, x7: nat, x8: nat): nat
  {
    x0 + 2 * x1 + 4 * x2 + 8 * x3 + 16 * x4 + 32 * x5 + 64 * x6 + 128 * x7 + 256 * x8
  }

  /** The 9-bit word tests each of its bits as `flags & mask` does. */
  lemma FlagSumBits(w: int, x0: nat, x1: nat, x2: nat, x3: nat, x4: nat, x5: nat, x6: nat, x7: nat, x8: nat)
    requires x0 < 2 && x1 < 2 && x2 < 2 && x3 < 2 && x4 < 2 && x5 < 2 && x6 < 2 && x7 < 2 && x8 < 2
    requires w == x0 + 2 * x1 + 4 * x2 + 8 * x3 + 16 * x4 + 32 * x5 + 64 * x6 + 128 * x7 + 256 * x8
    ensures && (HasFlag(w, 1) <==> x0 == 1) && (HasFlag(w, 2) <==> x1 == 1) && (HasFlag(w, 4) <==> x2 == 1)
            && (HasFlag(w, 8) <==> x3 == 1) && (HasFlag(w, 16) <==> x4 == 1) && (HasFlag(w, 32) <==> x5 == 1)
            && (HasFlag(w, 64) <==> x6 == 1) && (HasFlag(w, 128) <==> x7 == 1) && (HasFlag(w, 256) <==> x8 == 1)
  {
    assert HasFlag(w, 1) <==> x0 == 1 by {
      FlagAt(w, 1, 0, x0, x1 + 2 * x2 + 4 * x3 + 8 * x4 + 16 * x5 + 32 * x6 + 64 * x7 + 128 * x8);
    }
    assert HasFlag(w, 2) <==> x1 == 1 by {
      FlagAt(w, 2, x0, x1, x2 + 2 * x3 + 4 * x4 + 8 * x5 + 16 * x6 + 32 * x7 + 64 * x8);
    }
    assert HasFlag(w, 4) <==> x2 == 1 by {
      FlagAt(w, 4, x0 + 2 * x1, x2, x3 + 2 * x4 + 4 * x5 + 8 * x6 + 16 * x7 + 32 * x8);
    }
    assert HasFlag(w, 8) <==> x3 == 1 by {
      FlagAt(w, 8, x0 + 2 * x1 + 4 * x2, x3, x4 + 2 * x5 + 4 * x6 + 8 * x7 + 16 * x8);
    }
    assert HasFlag(w, 16) <==> x4 == 1 by {
      FlagAt(w, 16, x0 + 2 * x1 + 4 * x2 + 8 * x3, x4, x5 + 2 * x6 + 4 * x7 + 8 * x8);
    }
    assert HasFlag(w, 32) <==> x5 == 1 by {
      FlagAt(w, 32, x0 + 2 * x1 + 4 * x2 + 8 * x3 + 16 * x4, x5, x6 + 2 * x7 + 4 * x8);
    }
    assert HasFlag(w, 64) <==> x6 == 1 by {
      FlagAt(w, 64, x0 + 2 * x1 + 4 * x2 + 8 * x3 + 16 * x4 + 32 * x5, x6, x7 + 2 * x8);
    }
    assert HasFlag(w, 128) <==> x7 == 1 by {
      FlagAt(w, 128, x0 + 2 * x1 + 4 * x2 + 8 * x3 + 16 * x4 + 32 * x5 + 64 * x6, x7, x8);
    }
    assert HasFlag(w, 256) <==> x8 == 1 by {
      FlagAt(w, 256, x0 + 2 * x1 + 4 * x2 + 8 * x3 + 16 * x4 + 32 * x5 + 64 * x6 + 128 * x7, x8, 0);
    }
  }

  function One(b: bool): nat
  {
    if b then 1 else 0
  }

  /**
   * The flag word of a record: each flag is set exactly when its part is present (target-is-cell
   * for a cell target, queued by choice). Before version 8 the subject has its own slot ahead of
   * the flags and no bit.
   */
  function Flags(rec: Record, version: int): nat
  {
    FlagWord(!rec.target.NoTarget?, rec.extraActors.Some?, rec.targetString.Some?, rec.queued,
             rec.extraLocation.Some?, rec.extraData.Some?, rec.target.CellTarget?,
             version >= 8 && rec.subjectId.Some?, rec.groupedActors.Some?)
  }

  /** The word whose bit k is set exactly when `bk` holds. */
  function FlagWord(b0: bool, b1: bool, b2: bool, b3: bool, b4: bool, b5: bool, b6: bool, b7: bool, b8: bool): nat
  {
    FlagSum(One(b0), One(b1), One(b2), One(b3), One(b4), One(b5), One(b6), One(b7), One(b8))
  }

  /** Nine flags fit in 9 bits, and in 8 when the top one is clear. */
  lemma FlagWordBound(b0: bool, b1: bool, b2: bool, b3: bool, b4: bool, b5: bool, b6: bool, b7: bool, b8: bool)
    ensures FlagWord(b0, b1, b2, b3, b4, b5, b6, b7, b8) < 512
    ensures !b8 ==> FlagWord(b0, b1, b2, b3, b4, b5, b6, b7, b8) < 256
  {
    var x0, x1, x2, x3, x4 := One(b0), One(b1), One(b2), One(b3), One(b4);
    var x5, x6, x7, x8 := One(b5), One(b6), One(b7), One(b8);
    assert FlagWord(b0, b1, b2, b3, b4, b5, b6, b7, b8) == FlagSum(x0, x1, x2, x3, x4, x5, x6, x7, x8);
    FlagSumBound(x0, x1, x2, x3, x4, x5, x6, x7, x8);
  }

  /** `flags & mask` finds exactly the parts of the record that are present. */
  predicate Announces(flags: int, rec: Record, version: int)
  {
    && (HasFlag(flags, FlagTarget) <==> !rec.target.NoTarget?)
    && (HasFlag(flags, FlagExtraActors) <==> rec.extraActors.Some?)
    && (HasFlag(flags, FlagTargetString) <==> rec.targetString.Some?)
    && (HasFlag(flags, FlagQueued) <==> rec.queued)
    && (HasFlag(flags, FlagExtraLocation) <==> rec.extraLocation.Some?)
    && (HasFlag(flags, FlagExtraData) <==> rec.extraData.Some?)
    && (HasFlag(flags, FlagTargetIsCell) <==> rec.target.CellTarget?)
    && (HasFlag(flags, FlagSubject) <==> version >= 8 && rec.subjectId.Some?)
    && (HasFlag(flags, FlagGrouped) <==> rec.groupedActors.Some?)
  }

  /** The record's flag word announces the record. */
  lemma FlagsOfRecord(rec: Record, version: int)
    ensures Announces(Flags(rec, version), rec, version)
  {
    var x0, x1, x2 := One(!rec.target.NoTarget?), One(rec.extraActors.Some?), One(rec.targetString.Some?);
    var x3, x4, x5 := One(rec.queued), One(rec.extraLocation.Some?), One(rec.extraData.Some?);
    var x6, x7, x8 := One(rec.target.CellTarget?), One(version >= 8 && rec.subjectId.Some?), One(rec.groupedActors.Some?);
    var w := Flags(rec, version);
    assert w == FlagSum(x0, x1, x2, x3, x4, x5, x6, x7, x8);
    FlagSumBits(w, x0, x1, x2, x3, x4, x5, x6, x7, x8);
  }

  // ---------------------------------------------------------------------------------------
  // The sections of a Fields record

  /** A word that is there only when present. */
  function WordBytes(x: Option<int>, c: Code): seq<byte>
    requires x.Some? ==> Fits(x.value, c)
  {
    if x.Some? then EncodeField(x.value, c) else []
  }

  lemma FlaggedWordRoundTrip(x: Option<int>, flags: int, mask: nat, c: Code, tail: seq<byte>)
    requires mask > 0 && (HasFlag(flags, mask) <==> x.Some?) && (x.Some? ==> Fits(x.value, c))
    ensures FlaggedWord(WordBytes(x, c) + tail, flags, mask, c) == Ok((x, tail))
  {
    if x.Some? {
      ReadOneRoundTrip(x.value, c, tail);
      var e := EncodeField(x.value, c) + tail;
      assert e[..Width(c)] == EncodeField(x.value, c);
      FieldRoundTrip(x.value, c);
    } else {
      assert WordBytes(x, c) + tail == tail;
    }
  }

  /** The target keys can be written with the widths the decoder reads. */
  predicate TargetFits(t: TargetKeys)
  {
    match t
    case NoTarget => true
    case ActorTarget(a) => FitsUnsigned(a, 4)
    case FrozenActorTarget(p, f) => FitsUnsigned(p, 4) && FitsUnsigned(f, 4)
    case CellTarget(cell, subCell) => FitsSigned(cell, 4) && FitsSigned(subCell, 1)
    case PosTarget(pos) => |pos| == 3 && FitsSigned(pos[0], 4) && FitsSigned(pos[1], 4) && FitsSigned(pos[2], 4)
  }

  /** The type byte and the packed keys of a target; no bytes at all when there is none. */
  function TargetBytes(t: TargetKeys): seq<byte>
    requires TargetFits(t)
  {
    match t
    case NoTarget => []
    case ActorTarget(a) => [TargetTypeActor] + EncodeField(a, UInt32)
    case FrozenActorTarget(p, f) => [TargetTypeFrozenActor] + Pack([p, f], [UInt32, UInt32])
    case CellTarget(cell, subCell) => [TargetTypeTerrain] + Pack([cell, subCell], [Int32, Int8])
    case PosTarget(pos) => [TargetTypeTerrain] + Pack(pos, [Int32, Int32, Int32])
  }

  /** A target read back from its bytes under flags that announce it (and its cell form). */
  lemma TargetRoundTrip(t: TargetKeys, flags: int, tail: seq<byte>)
    requires TargetFits(t)
    requires HasFlag(flags, FlagTarget) <==> !t.NoTarget?
    requires t.CellTarget? || t.PosTarget? ==> (HasFlag(flags, FlagTargetIsCell) <==> t.CellTarget?)
    ensures TargetSection(TargetBytes(t) + tail, flags) == Ok((t, tail))
  {
    match t
    case NoTarget =>
      assert TargetBytes(t) + tail == tail;
    case ActorTarget(a) => ActorRoundTrip(a, flags, tail);
    case FrozenActorTarget(p, f) => FrozenActorRoundTrip(p, f, flags, tail);
    case CellTarget(cell, subCell) => CellRoundTrip(cell, subCell, flags, tail);
    case PosTarget(pos) => PosRoundTrip(pos, flags, tail);
  }

  /** An actor target: type 1 and the actor id. */
  lemma ActorRoundTrip(a: int, flags: int, tail: seq<byte>)
    requires TargetFits(ActorTarget(a)) && HasFlag(flags, FlagTarget)
    ensures TargetSection(TargetBytes(ActorTarget(a)) + tail, flags).Ok?
    ensures TargetSection(TargetBytes(ActorTarget(a)) + tail, flags).value.0 == ActorTarget(a)
    ensures TargetSection(TargetBytes(ActorTarget(a)) + tail, flags).value.1 == tail
  {
    TargetKeysRoundTrip(ActorTarget(a), [TargetTypeActor], EncodeField(a, UInt32), flags, tail);
    ReadOneRoundTrip(a, UInt32, tail);
  }

  /** A frozen actor target: type 3, the player actor id and the frozen actor id. */
  lemma FrozenActorRoundTrip(p: int, f: int, flags: int, tail: seq<byte>)
    requires TargetFits(FrozenActorTarget(p, f)) && HasFlag(flags, FlagTarget)
    ensures TargetSection(TargetBytes(FrozenActorTarget(p, f)) + tail, flags).Ok?
    ensures TargetSection(TargetBytes(FrozenActorTarget(p, f)) + tail, flags).value.0 == FrozenActorTarget(p, f)
    ensures TargetSection(TargetBytes(FrozenActorTarget(p, f)) + tail, flags).value.1 == tail
  {
    TargetKeysRoundTrip(FrozenActorTarget(p, f), [TargetTypeFrozenActor], Pack([p, f], [UInt32, UInt32]), flags, tail);
    TargetFormatsAligned();
    ReadFmtRoundTrip([p, f], [UInt32, UInt32], tail);
  }

  /** A cell target: type 2 under the target-is-cell flag, the cell and the sub-cell. */
  lemma CellRoundTrip(cell: int, subCell: int, flags: int, tail: seq<byte>)
    requires TargetFits(CellTarget(cell, subCell)) && HasFlag(flags, FlagTarget) && HasFlag(flags, FlagTargetIsCell)
    ensures TargetSection(TargetBytes(CellTarget(cell, subCell)) + tail, flags).Ok?
    ensures TargetSection(TargetBytes(CellTarget(cell, subCell)) + tail, flags).value.0 == CellTarget(cell, subCell)
    ensures TargetSection(TargetBytes(CellTarget(cell, subCell)) + tail, flags).value.1 == tail
  {
    TargetKeysRoundTrip(CellTarget(cell, subCell), [TargetTypeTerrain], Pack([cell, subCell], [Int32, Int8]), flags, tail);
    TargetFormatsAligned();
    ReadFmtRoundTrip([cell, subCell], [Int32, Int8], tail);
  }

  /** A position target: type 2 without the target-is-cell flag, and three coordinates. */
  lemma PosRoundTrip(pos: seq<int>, flags: int, tail: seq<byte>)
    requires TargetFits(PosTarget(pos)) && HasFlag(flags, FlagTarget) && !HasFlag(flags, FlagTargetIsCell)
    ensures TargetSection(TargetBytes(PosTarget(pos)) + tail, flags).Ok?
    ensures TargetSection(TargetBytes(PosTarget(pos)) + tail, flags).value.0 == PosTarget(pos)
    ensures TargetSection(TargetBytes(PosTarget(pos)) + tail, flags).value.1 == tail
  {
    TargetKeysRoundTrip(PosTarget(pos), [TargetTypeTerrain], Pack(pos, [Int32, Int32, Int32]), flags, tail);
    TargetFormatsAligned();
    ReadFmtRoundTrip(pos, [Int32, Int32, Int32], tail);
  }

  /** The decoder sees the type byte, and the packed keys followed by the tail after it. */
  lemma TargetKeysRoundTrip(t: TargetKeys, typeByte: seq<byte>, keys: seq<byte>, flags: int, tail: seq<byte>)
    requires TargetFits(t) && TargetBytes(t) == typeByte + keys && |typeByte| == 1
    ensures TargetBytes(t) + tail != [] && (TargetBytes(t) + tail)[0] == typeByte[0]
    ensures (TargetBytes(t) + tail)[1..] == keys + tail
  {
  }

  /** A target string, there only when present. */
  function StringBytes(s: Option<seq<byte>>): seq<byte>
  {
    if s.Some? then SerializeString(s.value) else []
  }

  lemma TargetStringRoundTrip(s: Option<seq<byte>>, flags: int, field: seq<byte>, env: Env, tail: seq<byte>)
    requires HasFlag(flags, FlagTargetString) <==> s.Some?
    ensures TargetStringSection(StringBytes(s) + tail, flags, field, env)
            == (if s.Some? then Some(DecodeTargetString(field, s.value, env)) else None, tail)
  {
    if s.Some? {
      ParseStringRoundTrip(s.value, tail);
      var size := |SerializeString(s.value)|;
      assert Drop(SerializeString(s.value) + tail, size) == tail;
    } else {
      assert StringBytes(s) + tail == tail;
    }
  }

  /** An actor list whose count and ids can be written as i32 and u32 words. */
  predicate ActorsFit(ids: seq<int>)
  {
    FitsSigned(|ids|, 4) && forall i :: 0 <= i < |ids| ==> FitsUnsigned(ids[i], 4)
  }

  /** An actor list, there only when present: its count, then the ids. */
  function ListBytes(ids: Option<seq<int>>): seq<byte>
    requires ids.Some? ==> ActorsFit(ids.value)
  {
    if ids.None? then []
    else
      var n := |ids.value|;
      assert Packable(ids.value, Repeat(UInt32, n));
      EncodeField(n, Int32) + Pack(ids.value, Repeat(UInt32, n))
  }

  lemma ActorListRoundTrip(ids: Option<seq<int>>, flags: int, mask: nat, tail: seq<byte>)
    requires mask > 0 && (HasFlag(flags, mask) <==> ids.Some?) && (ids.Some? ==> ActorsFit(ids.value))
    ensures ActorList(ListBytes(ids) + tail, flags, mask) == Ok((ids, tail))
  {
    if ids.Some? {
      var n := |ids.value|;
      var fmt := Repeat(UInt32, n);
      assert Packable(ids.value, fmt);
      var packed := Pack(ids.value, fmt);
      var data := ListBytes(ids) + tail;
      assert data == EncodeField(n, Int32) + (packed + tail);
      ReadOneRoundTrip(n, Int32, packed + tail);
      RepeatAligned(UInt32, n, 0);
      ParseFmtAligned(packed + tail, fmt);
      assert (packed + tail)[..StandardSize(fmt)] == packed;
      UnpackPack(ids.value, fmt);
      assert Drop(packed + tail, 4 * n) == tail;
    } else {
      assert ListBytes(ids) + tail == tail;
    }
  }

  // ---------------------------------------------------------------------------------------
  // Whole Fields records

  /**
   * A record the decoder of the given version can carry: the subject has its slot before
   * version 8, grouped actors need the 16-bit flags of version 11, and every value fits the
   * width it is written with.
   */
  predicate Valid(rec: Record, version: int)
  {
    && (version < 8 ==> rec.subjectId.Some?)
    && (version < 11 ==> rec.groupedActors.None?)
    && (rec.subjectId.Some? ==> FitsUnsigned(rec.subjectId.value, 4))
    && TargetFits(rec.target)
    && (rec.extraActors.Some? ==> ActorsFit(rec.extraActors.value))
    && (rec.extraLocation.Some? ==> FitsSigned(rec.extraLocation.value, 4))
    && (rec.extraData.Some? ==> FitsUnsigned(rec.extraData.value, 4))
    && (rec.groupedActors.Some? ==> ActorsFit(rec.groupedActors.value))
  }

  /** The subject that has a flag: from version 8 on. */
  function FlaggedSubject(rec: Record, version: int): Option<int>
  {
    if version >= 8 then rec.subjectId else None
  }

  /** The subject in its slot before the flags: before version 8. */
  function LegacySlot(rec: Record, version: int): Option<int>
  {
    if version < 8 then rec.subjectId else None
  }

  /** The subject and the target, then `back`. */
  function LeadBytes(rec: Record, version: int, back: seq<byte>): seq<byte>
    requires Valid(rec, version)
  {
    WordBytes(FlaggedSubject(rec, version), UInt32) + (TargetBytes(rec.target) + back)
  }

  /** The extra actors, extra location, extra data and grouped actors, then `tail`. */
  function TrailerBytes(rec: Record, version: int, tail: seq<byte>): seq<byte>
    requires Valid(rec, version)
  {
    ListBytes(rec.extraActors) +
    (WordBytes(rec.extraLocation, Int32) +
    (WordBytes(rec.extraData, UInt32) +
    (ListBytes(rec.groupedActors) + tail)))
  }

  /** The parts after the flags, in the order the decoder reads them, then `tail`. */
  function BodyBytes(rec: Record, version: int, tail: seq<byte>): seq<byte>
    requires Valid(rec, version)
  {
    LeadBytes(rec, version, StringBytes(rec.targetString) + TrailerBytes(rec, version, tail))
  }

  lemma FlagSumBound(x0: nat, x1: nat, x2: nat, x3: nat, x4: nat, x5: nat, x6: nat, x7: nat, x8: nat)
    requires x0 < 2 && x1 < 2 && x2 < 2 && x3 < 2 && x4 < 2 && x5 < 2 && x6 < 2 && x7 < 2 && x8 < 2
    ensures FlagSum(x0, x1, x2, x3, x4, x5, x6, x7, x8) < 512
    ensures x8 == 0 ==> FlagSum(x0, x1, x2, x3, x4, x5, x6, x7, x8) < 256
  {
  }

  /** A word below 256 fits the flags byte of old versions, one below 512 the i16 of newer ones. */
  lemma FlagWordFits(w: int, version: int)
    requires 0 <= w < (if version < 11 then 256 else 512)
    ensures Fits(w, FlagsField(version))
  {
    assert Pow256(1) == 256 && Pow256(2) == 0x1_0000;
  }

  /** The flag word fits the flags field: a byte before version 11 (no grouped actors), an i16 after. */
  lemma FlagsFit(rec: Record, version: int)
    requires version < 11 ==> rec.groupedActors.None?
    ensures Fits(Flags(rec, version), FlagsField(version))
  {
    FlagWordBound(!rec.target.NoTarget?, rec.extraActors.Some?, rec.targetString.Some?, rec.queued,
                  rec.extraLocation.Some?, rec.extraData.Some?, rec.target.CellTarget?,
                  version >= 8 && rec.subjectId.Some?, rec.groupedActors.Some?);
    FlagWordFits(Flags(rec, version), version);
  }

  /** The field name, the legacy subject slot and the flags, then `body`. */
  function HeadBytes(rec: Record, version: int, body: seq<byte>): seq<byte>
    requires Valid(rec, version)
  {
    FlagsFit(rec, version);
    SerializeString(rec.field) +
    (WordBytes(LegacySlot(rec, version), UInt32) +
    (EncodeField(Flags(rec, version), FlagsField(version)) + body))
  }

  /** The bytes a Fields order of this version occupies after the type byte. */
  function FieldsBytes(rec: Record, version: int, tail: seq<byte>): seq<byte>
    requires Valid(rec, version)
  {
    HeadBytes(rec, version, BodyBytes(rec, version, tail))
  }

  lemma HeadRoundTrip(rec: Record, version: int, body: seq<byte>)
    requires Valid(rec, version)
    ensures var h := FieldsHead(HeadBytes(rec, version, body), Some(version));
            && h.Ok? && h.value.field == rec.field && h.value.legacySubject == LegacySlot(rec, version)
            && h.value.flags == Flags(rec, version) && h.value.rest == body
  {
    FlagsFit(rec, version);
    var flagBytes := EncodeField(Flags(rec, version), FlagsField(version)) + body;
    var afterName := WordBytes(LegacySlot(rec, version), UInt32) + flagBytes;
    var data := HeadBytes(rec, version, body);
    ParseStringRoundTrip(rec.field, afterName);
    assert Drop(data, |SerializeString(rec.field)|) == afterName;
    if version < 8 {
      ReadOneRoundTrip(rec.subjectId.value, UInt32, flagBytes);
    } else {
      assert afterName == flagBytes;
    }
    ReadOneRoundTrip(Flags(rec, version), FlagsField(version), body);
  }

  /** The last four parts `FieldsBody` reads, from `data` on; what follows them is ignored. */
  function Trailer(data: seq<byte>, flags: int): Result<(Option<seq<int>>, Option<int>, Option<int>, Option<seq<int>>)>
  {
    var extraActors :- ActorList(data, flags, FlagExtraActors);
    var extraLocation :- FlaggedWord(extraActors.1, flags, FlagExtraLocation, Int32);
    var extraData :- FlaggedWord(extraLocation.1, flags, FlagExtraData, UInt32);
    var grouped :- ActorList(extraData.1, flags, FlagGrouped);
    Ok((extraActors.0, extraLocation.0, extraData.0, grouped.0))
  }

  /** `FieldsBody` read as its first three sections followed by the trailer, each given by its own result. */
  lemma BodySections(field: seq<byte>, legacy: Option<int>, flags: int, env: Env, subject: Option<int>,
                     target: TargetKeys, targetString: Option<Value>,
                     trailer: (Option<seq<int>>, Option<int>, Option<int>, Option<seq<int>>),
                     d0: seq<byte>, d1: seq<byte>, d2: seq<byte>, d3: seq<byte>)
    requires FlaggedWord(d0, flags, FlagSubject, UInt32) == Ok((subject, d1))
    requires TargetSection(d1, flags) == Ok((target, d2))
    requires TargetStringSection(d2, flags, field, env) == (targetString, d3)
    requires Trailer(d3, flags) == Ok(trailer)
    ensures var r := FieldsBody(Head(field, legacy, flags, d0), env);
            && r.Ok? && r.value.subjectId == (if subject.Some? then subject else legacy)
            && r.value.target == target && r.value.targetString == targetString
            && r.value.extraActors == trailer.0 && r.value.extraLocation == trailer.1
            && r.value.extraData == trailer.2 && r.value.groupedActors == trailer.3
  {
  }

  /** The trailing parts read back from their bytes. */
  lemma TrailerRoundTrip(rec: Record, version: int, flags: int, tail: seq<byte>)
    requires Valid(rec, version) && Announces(flags, rec, version)
    ensures Trailer(TrailerBytes(rec, version, tail), flags)
            == Ok((rec.extraActors, rec.extraLocation, rec.extraData, rec.groupedActors))
  {
    var s7 := ListBytes(rec.groupedActors) + tail;
    var s6 := WordBytes(rec.extraData, UInt32) + s7;
    var s5 := WordBytes(rec.extraLocation, Int32) + s6;
    ActorListRoundTrip(rec.extraActors, flags, FlagExtraActors, s5);
    FlaggedWordRoundTrip(rec.extraLocation, flags, FlagExtraLocation, Int32, s6);
    FlaggedWordRoundTrip(rec.extraData, flags, FlagExtraData, UInt32, s7);
    ActorListRoundTrip(rec.groupedActors, flags, FlagGrouped, tail);
  }

  /** The subject and the target read back from their bytes, whatever parts follow them. */
  lemma LeadRoundTrip(rec: Record, version: int, flags: int, env: Env, back: seq<byte>, targetString: Option<Value>,
                      d3: seq<byte>, trailer: (Option<seq<int>>, Option<int>, Option<int>, Option<seq<int>>))
    requires Valid(rec, version) && Announces(flags, rec, version)
    requires TargetStringSection(back, flags, rec.field, env) == (targetString, d3)
    requires Trailer(d3, flags) == Ok(trailer)
    ensures var r := FieldsBody(Head(rec.field, LegacySlot(rec, version), flags, LeadBytes(rec, version, back)), env);
            && r.Ok? && r.value.subjectId == rec.subjectId && r.value.target == rec.target
            && r.value.targetString == targetString
            && r.value.extraActors == trailer.0 && r.value.extraLocation == trailer.1
            && r.value.extraData == trailer.2 && r.value.groupedActors == trailer.3
  {
    var s2 := TargetBytes(rec.target) + back;
    var s1 := WordBytes(FlaggedSubject(rec, version), UInt32) + s2;
    FlaggedWordRoundTrip(FlaggedSubject(rec, version), flags, FlagSubject, UInt32, s2);
    TargetRoundTrip(rec.target, flags, back);
    BodySections(rec.field, LegacySlot(rec, version), flags, env, FlaggedSubject(rec, version), rec.target,
                 targetString, trailer, s1, s2, back, d3);
  }

  /**
   * The body after the flags reads back the record: every part announced by its flag, in order,
   * the subject either from its flag (version 8 on) or from the legacy slot (before 8).
   */
  lemma BodyRoundTrip(rec: Record, version: int, flags: int, tail: seq<byte>, env: Env)
    requires Valid(rec, version) && Announces(flags, rec, version)
    ensures var r := FieldsBody(Head(rec.field, LegacySlot(rec, version), flags, BodyBytes(rec, version, tail)), env);
            && r.Ok? && r.value.subjectId == rec.subjectId && r.value.target == rec.target
            && r.value.targetString == InfoOf(rec, env).targetString
            && r.value.extraActors == rec.extraActors && r.value.extraLocation == rec.extraLocation
            && r.value.extraData == rec.extraData && r.value.groupedActors == rec.groupedActors
  {
    var trailer := TrailerBytes(rec, version, tail);
    TrailerRoundTrip(rec, version, flags, tail);
    TargetStringRoundTrip(rec.targetString, flags, rec.field, env, trailer);
    LeadRoundTrip(rec, version, flags, env, StringBytes(rec.targetString) + trailer, InfoOf(rec, env).targetString,
                  trailer, (rec.extraActors, rec.extraLocation, rec.extraData, rec.groupedActors));
  }

  /** The info the decoder builds from a record, its target string interpreted by its name. */
  function InfoOf(rec: Record, env: Env): Info
  {
    Info(
      rec.subjectId, rec.target,
      if rec.targetString.Some? then Some(DecodeTargetString(rec.field, rec.targetString.value, env)) else None,
      rec.extraActors, rec.extraLocation, rec.extraData, rec.groupedActors)
  }

  /**
   * A Fields order of a version read back from the bytes it occupies: `DecodeFields` gives
   * its name and the info of its parts, whatever bytes follow.
   */
  lemma FieldsRoundTrip(rec: Record, version: int, tail: seq<byte>, env: Env)
    requires Valid(rec, version)
    ensures var r := DecodeFields(FieldsBytes(rec, version, tail), Some(version), env);
            r.Ok? && r.value.0 == rec.field && r.value.1 == InfoOf(rec, env)
  {
    var body := BodyBytes(rec, version, tail);
    var head := Head(rec.field, LegacySlot(rec, version), Flags(rec, version), body);
    HeadRoundTrip(rec, version, body);
    assert FieldsHead(FieldsBytes(rec, version, tail), Some(version)) == Ok(head);
    FlagsOfRecord(rec, version);
    BodyRoundTrip(rec, version, Flags(rec, version), tail, env);
  }

  /** Behind its type byte 0xff, the record is decoded as a Fields order with its name and info. */
  lemma FieldsOrderRoundTrip(rec: Record, version: int, tail: seq<byte>, env: Env)
    requires Valid(rec, version)
    ensures DecodeOrder([0xff] + FieldsBytes(rec, version, tail), Some(version), env) == Ok(Fields(rec.field, InfoOf(rec, env)))
  {
    var data := [0xff] + FieldsBytes(rec, version, tail);
    assert data[0] == 0xff && data[1..] == FieldsBytes(rec, version, tail);
    assert OrderMap[0xff] == FieldsOrder;
    FieldsRoundTrip(rec, version, tail, env);
  }
}
