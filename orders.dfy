/**
 * The four order records of the protocol and how their payloads are decoded: `OrderSyncHash`,
 * `OrderDisconnect`, `OrderHandshake` and `OrderFields`, chosen by the leading type byte.
 *
 * Every `from_data` works on an immutable `bytes` value that it slices again and again
 * (`data = data[n:]`); here each step takes the remaining bytes and returns what it read
 * together with the bytes after it.
 */
module Orders {
  import opened Wrappers
  import opened Bytes
  import opened BinUtils
  import opened CSharp
  import opened Markup

  // ---------------------------------------------------------------------------------------
  // Target strings

  /** A decoded target string: the raw bytes, or the markup tree `miniyaml.load` made of them. */
  datatype Value = Raw(bytes: seq<byte>) | Doc(tree: Tree)

  const HandshakeRequest: seq<byte> := Latin1("HandshakeRequest")
  const HandshakeResponse: seq<byte> := Latin1("HandshakeResponse")
  const SyncInfo: seq<byte> := Latin1("SyncInfo")

  /** `_TARGET_STRING_DATA`: the order names whose target string is markup. */
  const TargetStringData: seq<seq<byte>> := [
    HandshakeRequest,
    HandshakeResponse,
    Latin1("SaveTraitData"),
    Latin1("StartGame"),
    Latin1("SyncClientPings"),
    SyncInfo,
    Latin1("SyncLobbyClients"),
    Latin1("SyncLobbyGlobalSettings"),
    Latin1("SyncLobbySlots")
  ]

  /** `_decode_target_string(field, target_string)`: markup for the listed names, raw bytes otherwise. */
  function DecodeTargetString(field: seq<byte>, targetString: seq<byte>, env: Env): (v: Value)
    ensures v.Doc? <==> field in TargetStringData
    ensures v.Doc? ==> v.tree == env.load(targetString)
    ensures v.Raw? ==> v.bytes == targetString
  {
    if field in TargetStringData then Doc(env.load(targetString)) else Raw(targetString)
  }

  // ---------------------------------------------------------------------------------------
  // Cursor steps

  /**
   * `values = parse_fmt(data, fmt)` followed by `data = data[size:]`, where the size the
   * source slices off is the standard size of the format.
   */
  function ReadFmt(data: seq<byte>, fmt: seq<Code>): (r: Result<(seq<int>, seq<byte>)>)
    ensures r.Err? ==> r.error == StructError
    ensures AlignedFrom(fmt, 0) ==> (r.Ok? <==> |data| >= StandardSize(fmt))
    ensures r.Ok? ==> |data| >= StandardSize(fmt)
    ensures r.Ok? ==> r.value.0 == Unpack(data[..StandardSize(fmt)], fmt) && r.value.1 == data[StandardSize(fmt)..]
  {
    ParseFmtSpec(data, fmt);
    NativeEndAtLeast(fmt, 0);
    var values :- ParseFmt(data, fmt);
    Ok((values, Drop(data, StandardSize(fmt))))
  }

  /** A single field `c` read from the front: `v, = parse_fmt(data, c)` then `data = data[width:]`. */
  function ReadOne(data: seq<byte>, c: Code): (r: Result<(int, seq<byte>)>)
    ensures r.Ok? <==> |data| >= Width(c)
    ensures r.Err? ==> r.error == StructError
    ensures r.Ok? ==> r.value.0 == FieldValue(data[..Width(c)], c) && r.value.1 == data[Width(c)..]
  {
    OneAligned(c);
    var p :- ReadFmt(data, [c]);
    assert Unpack(data[..Width(c)], [c]) == [FieldValue(data[..Width(c)][..Width(c)], c)] + Unpack(data[..Width(c)][Width(c)..], []);
    assert data[..Width(c)][..Width(c)] == data[..Width(c)];
    Ok((p.0[0], p.1))
  }

  lemma OneAligned(c: Code)
    ensures AlignedFrom([c], 0) && StandardSize([c]) == Width(c)
  {
    assert [c][1..] == [];
  }

  // ---------------------------------------------------------------------------------------
  // OrderFields

  const FlagTarget: nat := 1
  const FlagExtraActors: nat := 2
  const FlagTargetString: nat := 4
  const FlagQueued: nat := 8
  const FlagExtraLocation: nat := 16
  const FlagExtraData: nat := 32
  const FlagTargetIsCell: nat := 64
  const FlagSubject: nat := 128
  const FlagGrouped: nat := 256

  const TargetTypeInvalid: int := 0
  const TargetTypeActor: int := 1
  const TargetTypeTerrain: int := 2
  const TargetTypeFrozenActor: int := 3

  /**
   * `flags & mask` is non-zero, for a single-bit mask below `1 << 16`. Python's `&` on a
   * negative `int` works on its two's complement, whose low 16 bits are `flags % 0x10000`.
   */
  predicate HasFlag(flags: int, mask: nat)
    requires mask > 0
  {
    (flags % 0x1_0000) / mask % 2 == 1
  }

  /** The version `from_data` works with: a missing one is taken as 7. */
  function FieldsVersion(version: Option<int>): int
  {
    if version.None? then 7 else version.value
  }

  /** The target keys of `info`, by target type. */
  datatype TargetKeys =
    | NoTarget                                                   // none of the keys below
    | ActorTarget(targetActorId: int)                            // 'target_actor_id'
    | FrozenActorTarget(playerActorId: int, frozenActorId: int)  // 'player_actor_id', 'frozen_actor_id'
    | CellTarget(cell: int, subCell: int)                        // 'cell', 'sub_cell'
    | PosTarget(pos: seq<int>)                                   // 'pos', a 3-tuple

  /** The `info` dict of `OrderFields`: a key is present exactly when its field is not None. */
  datatype Info = Info(
    subjectId: Option<int>,             // 'subject_id'
    target: TargetKeys,
    targetString: Option<Value>,        // 'target'
    extraActors: Option<seq<int>>,      // 'extra_actors'
    extraLocation: Option<int>,         // 'extra_location'
    extraData: Option<int>,             // 'extra_data'
    groupedActors: Option<seq<int>>)    // 'grouped_actors'

  /** The subject id that stands first in the record before version 8. */
  function LegacySubject(data: seq<byte>, version: int): (r: Result<(Option<int>, seq<byte>)>)
    ensures version >= 8 ==> r == Ok((None, data))
    ensures version < 8 ==> (r.Ok? <==> |data| >= 4)
    ensures version < 8 && r.Ok? ==> r.value.0 == Some(Unsigned(data[..4])) && r.value.1 == data[4..]
  {
    if version < 8 then
      var p :- ReadOne(data, UInt32);
      Ok((Some(p.0), p.1))
    else
      Ok((None, data))
  }

  /** The flags: one unsigned byte below version 11, a signed 16-bit value from 11 on. */
  function FlagsField(version: int): Code
  {
    if version < 11 then UInt8 else Int16
  }

  /** A word present only when `mask` is set in `flags`. */
  function FlaggedWord(data: seq<byte>, flags: int, mask: nat, c: Code): (r: Result<(Option<int>, seq<byte>)>)
    requires mask > 0
    ensures !HasFlag(flags, mask) ==> r == Ok((None, data))
    ensures HasFlag(flags, mask) ==> (r.Ok? <==> |data| >= Width(c))
    ensures HasFlag(flags, mask) && r.Ok? ==> r.value.0 == Some(FieldValue(data[..Width(c)], c)) && r.value.1 == data[Width(c)..]
  {
    if HasFlag(flags, mask) then
      var p :- ReadOne(data, c);
      Ok((Some(p.0), p.1))
    else
      Ok((None, data))
  }

  /**
   * The target: a type byte (an empty remainder is an IndexError), then an actor id, a
   * (player, frozen actor) pair, a (cell, sub-cell) pair or a 3-word position. An unknown type
   * consumes its byte and adds no key.
   */
  function TargetSection(data: seq<byte>, flags: int): (r: Result<(TargetKeys, seq<byte>)>)
    ensures !HasFlag(flags, FlagTarget) ==> r == Ok((NoTarget, data))
    ensures HasFlag(flags, FlagTarget) && data == [] ==> r == Err(IndexError)
    ensures HasFlag(flags, FlagTarget) && data != [] ==>
              && (data[0] == TargetTypeActor ==> (r.Ok? <==> |data| >= 5))
              && (data[0] == TargetTypeFrozenActor ==> (r.Ok? <==> |data| >= 9))
              && (data[0] == TargetTypeTerrain && HasFlag(flags, FlagTargetIsCell) ==> (r.Ok? <==> |data| >= 6))
              && (data[0] == TargetTypeTerrain && !HasFlag(flags, FlagTargetIsCell) ==> (r.Ok? <==> |data| >= 13))
              && (data[0] != TargetTypeActor && data[0] != TargetTypeFrozenActor && data[0] != TargetTypeTerrain ==>
                    r == Ok((NoTarget, data[1..])))
              && (r.Err? ==> r.error == StructError)
    ensures r.Ok? && r.value.0.NoTarget? && data != [] && HasFlag(flags, FlagTarget) ==> r.value.1 == data[1..]
    ensures r.Ok? && r.value.0.ActorTarget? ==>
              data[0] == TargetTypeActor && |data| >= 5 && r.value.0.targetActorId == Unsigned(data[1..5]) && r.value.1 == data[5..]
    ensures r.Ok? && r.value.0.FrozenActorTarget? ==> data[0] == TargetTypeFrozenActor && r.value.1 == data[9..]
    ensures r.Ok? && r.value.0.CellTarget? ==> data[0] == TargetTypeTerrain && HasFlag(flags, FlagTargetIsCell) && r.value.1 == data[6..]
    ensures r.Ok? && r.value.0.PosTarget? ==>
              data[0] == TargetTypeTerrain && !HasFlag(flags, FlagTargetIsCell) && |r.value.0.pos| == 3 && r.value.1 == data[13..]
  {
    if !HasFlag(flags, FlagTarget) then Ok((NoTarget, data))
    else if data == [] then Err(IndexError)
    else
      var targetType := data[0];
      var rest := data[1..];
      TargetFormatsAligned();
      if targetType == TargetTypeActor then
        var p :- ReadOne(rest, UInt32);
        assert rest[..4] == data[1..5];
        Ok((ActorTarget(p.0), p.1))
      else if targetType == TargetTypeFrozenActor then
        var p :- ReadFmt(rest, [UInt32, UInt32]);
        Ok((FrozenActorTarget(p.0[0], p.0[1]), p.1))
      else if targetType == TargetTypeTerrain then
        if HasFlag(flags, FlagTargetIsCell) then
          var p :- ReadFmt(rest, [Int32, Int8]);
          Ok((CellTarget(p.0[0], p.0[1]), p.1))
        else
          var p :- ReadFmt(rest, [Int32, Int32, Int32]);
          Ok((PosTarget(p.0), p.1))
      else
        Ok((NoTarget, rest))
  }

  /** The three fixed target layouts carry no native padding; their standard sizes. */
  lemma TargetFormatsAligned()
    ensures AlignedFrom([UInt32, UInt32], 0) && StandardSize([UInt32, UInt32]) == 8
    ensures AlignedFrom([Int32, Int8], 0) && StandardSize([Int32, Int8]) == 5
    ensures AlignedFrom([Int32, Int32, Int32], 0) && StandardSize([Int32, Int32, Int32]) == 12
  {
    assert [UInt32, UInt32][1..] == [UInt32] && [UInt32][1..] == [];
    assert [Int32, Int8][1..] == [Int8] && [Int8][1..] == [];
    assert [Int32, Int32, Int32][1..] == [Int32, Int32] && [Int32, Int32][1..] == [Int32] && [Int32][1..] == [];
  }

  /** The target string, decoded by the order's field name; the data is cut after its declared size. */
  function TargetStringSection(data: seq<byte>, flags: int, field: seq<byte>, env: Env): (r: (Option<Value>, seq<byte>))
    ensures !HasFlag(flags, FlagTargetString) ==> r.0 == None && r.1 == data
    ensures HasFlag(flags, FlagTargetString) ==>
              && r.0 == Some(DecodeTargetString(field, ParseString(data).0, env))
              && r.1 == Drop(data, ParseString(data).1)
  {
    if HasFlag(flags, FlagTargetString) then
      var (targetString, size) := ParseString(data);
      (Some(DecodeTargetString(field, targetString, env)), Drop(data, size))
    else
      (None, data)
  }

  /**
   * An actor list: an i32 count, then `count` u32 ids. A count that is not positive gives an
   * empty list, and then `data[4 * count:]` keeps the last `-4 * count` bytes (Python slicing).
   */
  function ActorList(data: seq<byte>, flags: int, mask: nat): (r: Result<(Option<seq<int>>, seq<byte>)>)
    requires mask > 0
    ensures !HasFlag(flags, mask) ==> r == Ok((None, data))
    ensures HasFlag(flags, mask) ==> (r.Ok? <==> |data| >= 4 && |data| - 4 >= 4 * Signed(data[..4]))
    ensures HasFlag(flags, mask) && r.Err? ==> r.error == StructError
    ensures HasFlag(flags, mask) && r.Ok? ==>
              && |data| >= 4
              && var count := Signed(data[..4]);
                 && r.value.0.Some? && |r.value.0.value| == (if count <= 0 then 0 else count)
                 && |data| >= 4 + 4 * |r.value.0.value|
                 && (forall k :: 0 <= k < |r.value.0.value| ==> r.value.0.value[k] == Unsigned(data[4 + 4 * k..8 + 4 * k]))
                 && r.value.1 == Drop(data[4..], 4 * count)
  {
    if HasFlag(flags, mask) then
      var c :- ReadOne(data, Int32);
      var count := c.0;
      ParseRepeat(data, count, 4);
      var actors :- ParseFmt(c.1, Repeat(UInt32, count));
      Ok((Some(actors), Drop(c.1, 4 * count)))
    else
      Ok((None, data))
  }

  /** The part of a Fields record that decides the layout of the rest: name, legacy subject, flags. */
  datatype Head = Head(field: seq<byte>, legacySubject: Option<int>, flags: int, rest: seq<byte>)

  /**
   * The field name as a length-prefixed string, the subject id before version 8, then the
   * flags. Below version 11 the flags are a single unsigned byte, so bit 8 is never set.
   */
  function FieldsHead(data: seq<byte>, version: Option<int>): (r: Result<Head>)
    ensures r.Ok? ==> r.value.field == ParseString(data).0
    ensures r.Ok? ==> (r.value.legacySubject.Some? <==> FieldsVersion(version) < 8)
    ensures r.Ok? && FieldsVersion(version) < 11 ==> 0 <= r.value.flags < 256 && !HasFlag(r.value.flags, FlagGrouped)
    ensures r.Ok? && FieldsVersion(version) >= 11 ==> -0x8000 <= r.value.flags < 0x8000
  {
    var (field, fieldSize) := ParseString(data);
    var v := FieldsVersion(version);
    var legacy :- LegacySubject(Drop(data, fieldSize), v);
    var f :- ReadOne(legacy.1, FlagsField(v));
    FlagsRange(legacy.1[..Width(FlagsField(v))], v);
    Ok(Head(field, legacy.0, f.0, f.1))
  }

  /** The flags read for a version: a byte without bit 8 below 11, a signed 16-bit value from 11 on. */
  lemma FlagsRange(chunk: seq<byte>, v: int)
    requires |chunk| == Width(FlagsField(v))
    ensures v < 11 ==> 0 <= FieldValue(chunk, FlagsField(v)) < 256 && !HasFlag(FieldValue(chunk, FlagsField(v)), FlagGrouped)
    ensures v >= 11 ==> -0x8000 <= FieldValue(chunk, FlagsField(v)) < 0x8000
  {
    var x := FieldValue(chunk, FlagsField(v));
    FieldValueRange(chunk, FlagsField(v));
    assert Pow256(1) == 256 && Pow256(2) == 0x1_0000;
    if v < 11 {
      ByteHasNoGrouped(x);
    }
  }

  lemma ByteHasNoGrouped(x: int)
    requires 0 <= x < 256
    ensures !HasFlag(x, FlagGrouped)
  {
    assert x % 0x1_0000 == x;
    assert x / 256 == 0;
  }

  /**
   * The parts after the flags, in their fixed order: subject, target, target string, extra
   * actors, extra location, extra data, grouped actors. Each key is there exactly when its flag
   * is set (the target keys also by the target type); QUEUED reads nothing. What follows the
   * last part is ignored.
   */
  function FieldsBody(head: Head, env: Env): (r: Result<Info>)
    ensures r.Ok? ==> (r.value.subjectId.Some? <==> head.legacySubject.Some? || HasFlag(head.flags, FlagSubject))
    ensures r.Ok? && !HasFlag(head.flags, FlagSubject) ==> r.value.subjectId == head.legacySubject
    ensures r.Ok? && !HasFlag(head.flags, FlagTarget) ==> r.value.target.NoTarget?
    ensures r.Ok? ==> (r.value.targetString.Some? <==> HasFlag(head.flags, FlagTargetString))
    ensures r.Ok? ==> (r.value.extraActors.Some? <==> HasFlag(head.flags, FlagExtraActors))
    ensures r.Ok? ==> (r.value.extraLocation.Some? <==> HasFlag(head.flags, FlagExtraLocation))
    ensures r.Ok? ==> (r.value.extraData.Some? <==> HasFlag(head.flags, FlagExtraData))
    ensures r.Ok? ==> (r.value.groupedActors.Some? <==> HasFlag(head.flags, FlagGrouped))
  {
    var flags := head.flags;
    var subject :- FlaggedWord(head.rest, flags, FlagSubject, UInt32);
    var target :- TargetSection(subject.1, flags);
    var targetString := TargetStringSection(target.1, flags, head.field, env);
    var extraActors :- ActorList(targetString.1, flags, FlagExtraActors);
    var extraLocation :- FlaggedWord(extraActors.1, flags, FlagExtraLocation, Int32);
    var extraData :- FlaggedWord(extraLocation.1, flags, FlagExtraData, UInt32);
    var grouped :- ActorList(extraData.1, flags, FlagGrouped);
    Ok(Info(
      if subject.0.Some? then subject.0 else head.legacySubject,
      target.0, targetString.0, extraActors.0, extraLocation.0, extraData.0, grouped.0))
  }

  /** `OrderFields.from_data`: the head, then the body it describes. */
  function DecodeFields(data: seq<byte>, version: Option<int>, env: Env): (r: Result<(seq<byte>, Info)>)
    ensures r.Ok? <==> FieldsHead(data, version).Ok? && FieldsBody(FieldsHead(data, version).value, env).Ok?
    ensures r.Ok? ==> r.value.0 == ParseString(data).0 && r.value.1 == FieldsBody(FieldsHead(data, version).value, env).value
  {
    var head :- FieldsHead(data, version);
    var info :- FieldsBody(head, env);
    Ok((head.field, info))
  }

  // ---------------------------------------------------------------------------------------
  // The order records and the dispatch

  datatype Order =
    | SyncHash(syncHash: int, defeatState: Option<int>, data: seq<byte>)
    | Disconnect
    | Handshake(key: seq<byte>, value: Value, ordersVersion: Option<int>)
    | Fields(field: seq<byte>, info: Info)

  /** `orders_version is not None and orders_version >= 11`: the hash is followed by the defeat state. */
  predicate LongSyncHash(version: Option<int>)
  {
    version.Some? && version.value >= 11
  }

  lemma UnpackHashAndState(chunk: seq<byte>)
    requires |chunk| == 12
    ensures StandardSize([UInt32, UInt64]) == 12
    ensures Unpack(chunk, [UInt32, UInt64]) == [Unsigned(chunk[..4]), Unsigned(chunk[4..12])]
  {
    var fmt := [UInt32, UInt64];
    assert fmt[1..] == [UInt64] && fmt[1..][1..] == [];
    var tail := chunk[4..];
    assert tail[..8] == chunk[4..12] && tail[8..] == [];
  }

  /**
   * `OrderSyncHash.from_data`: `'IQ'` (hash and defeat state) from version 11 on, `'I'` before
   * and when the version is unknown. `obj.data` keeps the bytes read.
   */
  function DecodeSyncHash(data: seq<byte>, version: Option<int>): (r: Result<Order>)
    ensures r.Err? ==> r.error == StructError
    ensures r.Ok? ==> r.value.SyncHash?
  {
    if LongSyncHash(version) then
      var values :- ParseFmt(data, [UInt32, UInt64]);
      Ok(SyncHash(values[0], Some(values[1]), Take(data, 12)))
    else
      var values :- ParseFmt(data, [UInt32]);
      Ok(SyncHash(values[0], None, Take(data, 4)))
  }

  /**
   * Through the `'IQ'` quirk the long form needs exactly 12 bytes; the short form needs 4 and
   * ignores the rest. The hash is the unsigned little-endian word at the front, the defeat state
   * the unsigned 8-byte value after it, and the stored data the bytes those came from.
   */
  lemma SyncHashLayout(data: seq<byte>, version: Option<int>)
    ensures var r := DecodeSyncHash(data, version);
            && (LongSyncHash(version) ==> (r.Ok? <==> |data| == 12))
            && (!LongSyncHash(version) ==> (r.Ok? <==> |data| >= 4))
            && (r.Ok? ==> |data| >= 4 && r.value.syncHash == Unsigned(data[..4]))
            && (r.Ok? && LongSyncHash(version) ==> r.value.defeatState == Some(Unsigned(data[4..12])) && r.value.data == data)
            && (r.Ok? && !LongSyncHash(version) ==> r.value.defeatState == None && r.value.data == data[..4])
  {
    if LongSyncHash(version) {
      SyncHashFormatQuirk(data);
      ParseFmtSpec(data, [UInt32, UInt64]);
      if |data| == 12 {
        UnpackHashAndState(data[..12]);
        assert data[..12] == data && data[..12][..4] == data[..4];
      }
    } else {
      OneAligned(UInt32);
      ParseFmtAligned(data, [UInt32]);
      if |data| >= 4 {
        var w := data[..4];
        assert [UInt32][1..] == [] && w[..4] == w;
        assert Unpack(w, [UInt32]) == [FieldValue(w[..4], UInt32)] + Unpack(w[4..], []);
      }
    }
  }

  /** `OrderDisconnect.from_data`: asserts that nothing follows the type byte. */
  function DecodeDisconnect(data: seq<byte>): (r: Result<Order>)
    ensures r.Ok? <==> data == []
    ensures r.Ok? ==> r.value == Disconnect
    ensures r.Err? ==> r.error == AssertionError
  {
    if |data| == 0 then Ok(Disconnect) else Err(AssertionError)
  }

  /**
   * The `orders_version` a handshake carries: `int(value['Handshake'].get('OrdersProtocol'))`
   * for a HandshakeResponse that has the entry, None for every other handshake. A response whose
   * markup lacks 'Handshake' raises KeyError; `int()` of a non-number raises ValueError.
   */
  function HandshakeVersion(key: seq<byte>, value: Value, env: Env): (r: Result<Option<int>>)
    ensures key != HandshakeResponse ==> r == Ok(None)
    ensures r.Ok? && r.value.Some? ==> key == HandshakeResponse && value.Doc?
    ensures key == HandshakeResponse && value.Raw? ==> r == Err(TypeError)
    ensures key == HandshakeResponse && value.Doc? ==>
              var handshake := Get(value.tree, "Handshake");
              && (handshake.Err? ==> r == Err(handshake.error))
              && (handshake.Ok? && handshake.value.Leaf? ==> r == Err(AttributeError))
              && (handshake.Ok? && handshake.value.Node? ==>
                    var protocol := Lookup(handshake.value.entries, "OrdersProtocol");
                    && (protocol.None? ==> r == Ok(None))
                    && (protocol.Some? ==>
                          var n := ToInt(env, protocol.value);
                          r == if n.Ok? then Ok(Some(n.value)) else Err(n.error)))
  {
    if key != HandshakeResponse then Ok(None)
    else
      match value
      case Raw(_) => Err(TypeError)    // bytes cannot be indexed by a str
      case Doc(tree) =>
        var handshake :- Get(tree, "Handshake");
        var protocol :- GetOpt(handshake, "OrdersProtocol");
        if protocol.None? then Ok(None)
        else
          var version :- ToInt(env, protocol.value);
          Ok(Some(version))
  }

  /**
   * `OrderHandshake.from_data`: two length-prefixed strings, key then value, the second read
   * where the first one's declared size ends; the value is decoded by the key.
   */
  function DecodeHandshake(data: seq<byte>, env: Env): (r: Result<Order>)
    ensures r.Ok? ==> r.value.Handshake?
  {
    var (key, keySize) := ParseString(data);
    var (raw, _) := ParseString(Drop(data, keySize));
    var value := DecodeTargetString(key, raw, env);
    var version :- HandshakeVersion(key, value, env);
    Ok(Handshake(key, value, version))
  }

  datatype OrderKind = SyncHashOrder | DisconnectOrder | HandshakeOrder | FieldsOrder

  function KindOf(order: Order): OrderKind
  {
    match order
    case SyncHash(_, _, _) => SyncHashOrder
    case Disconnect => DisconnectOrder
    case Handshake(_, _, _) => HandshakeOrder
    case Fields(_, _) => FieldsOrder
  }

  /** `Decoder._order_map`. */
  const OrderMap: map<byte, OrderKind> :=
    map[0x65 := SyncHashOrder, 0xbf := DisconnectOrder, 0xfe := HandshakeOrder, 0xff := FieldsOrder]

  /**
   * One order from a non-empty payload: the class `_order_map[data[0]]` (KeyError for any other
   * byte) decodes `data[1:]`, so a decoded order is always of the kind its type byte names.
   */
  function DecodeOrder(data: seq<byte>, version: Option<int>, env: Env): (r: Result<Order>)
    requires data != []
    ensures data[0] !in OrderMap ==> r == Err(KeyError)
    ensures r.Ok? ==> data[0] in OrderMap && KindOf(r.value) == OrderMap[data[0]]
  {
    if data[0] !in OrderMap then Err(KeyError) else DecodeAs(OrderMap[data[0]], data[1..], version, env)
  }

  /** `order_cls.from_data(payload, ...)` for the class `kind`. */
  function DecodeAs(kind: OrderKind, payload: seq<byte>, version: Option<int>, env: Env): (r: Result<Order>)
  {
    match kind
    case SyncHashOrder => DecodeSyncHash(payload, version)
    case DisconnectOrder => DecodeDisconnect(payload)
    case HandshakeOrder => DecodeHandshake(payload, env)
    case FieldsOrder =>
      var f :- DecodeFields(payload, version, env);
      Ok(Fields(f.0, f.1))
  }

  /**
   * The dispatch table: each type byte of `_order_map` hands the rest of the payload to its own
   * record parser, and the order decoded is exactly what that parser gives —
   * 0x65 SyncHash, 0xbf Disconnect, 0xfe Handshake, 0xff Fields.
   */
  lemma DispatchSyncHash(data: seq<byte>, version: Option<int>, env: Env)
    requires data != [] && data[0] == 0x65
    ensures DecodeOrder(data, version, env) == DecodeSyncHash(data[1..], version)
  {
    assert OrderMap[data[0]] == SyncHashOrder;
  }

  lemma DispatchDisconnect(data: seq<byte>, version: Option<int>, env: Env)
    requires data != [] && data[0] == 0xbf
    ensures DecodeOrder(data, version, env) == DecodeDisconnect(data[1..])
  {
    assert OrderMap[data[0]] == DisconnectOrder;
  }

  lemma DispatchHandshake(data: seq<byte>, version: Option<int>, env: Env)
    requires data != [] && data[0] == 0xfe
    ensures DecodeOrder(data, version, env) == DecodeHandshake(data[1..], env)
  {
    assert OrderMap[data[0]] == HandshakeOrder;
  }

  lemma DispatchFields(data: seq<byte>, version: Option<int>, env: Env)
    requires data != [] && data[0] == 0xff
    ensures DecodeOrder(data, version, env).Ok? <==> DecodeFields(data[1..], version, env).Ok?
    ensures DecodeOrder(data, version, env).Ok? ==>
              var f := DecodeFields(data[1..], version, env).value;
              DecodeOrder(data, version, env).value == Fields(f.0, f.1)
  {
    assert OrderMap[data[0]] == FieldsOrder;
  }

  /** The only payload that decodes to a Disconnect is the single byte 0xbf. */
  lemma DisconnectOnly(data: seq<byte>, version: Option<int>, env: Env)
    requires data != []
    ensures DecodeOrder(data, version, env) == Ok(Disconnect) <==> data == [0xbf]
  {
    if data == [0xbf] {
      assert data[1..] == [];
    }
  }

  /**
   * The keys of a decoded Fields order follow its version: every order has a subject id before
   * version 8, and none has grouped actors below version 11.
   */
  lemma FieldsVersionKeys(data: seq<byte>, version: Option<int>, env: Env)
    requires DecodeFields(data, version, env).Ok?
    ensures FieldsVersion(version) < 11 ==> DecodeFields(data, version, env).value.1.groupedActors.None?
    ensures FieldsVersion(version) < 8 ==> DecodeFields(data, version, env).value.1.subjectId.Some?
  {
  }
}
