# oratools replay and network decoder, modelled in Dafny

oratools reads OpenRA game traffic. That traffic comes either from a replay file (`.orarep`) or from a live server socket.

A **demuxer** cuts the byte stream into **packets**. Each packet is `(client, frame, data)`, framed by three little-endian 32-bit words. In a replay file the client and length words are swapped.

A replay file ends with a metadata trailer: a start marker (-1), a version, a length-prefixed MiniYaml document, the length again and an end marker (-2).

The **decoder** turns a packet's payload into an **order**. The first byte selects one of four order kinds:

| byte | order |
|---|---|
| `0x65` | SyncHash |
| `0xbf` | Disconnect |
| `0xfe` | Handshake |
| `0xff` | Fields |

The decoder also keeps two pieces of state:
- the *orders version*, which the first handshake response fixes;
- the *client-name registry*, which every `SyncInfo` order replaces.

Payloads are built from two encodings:
- C#-style strings, prefixed by a 7-bit variable-length quantity (VLQ);
- fixed-width fields read with Python's `struct` module.

The build-order tool keeps a queue of pending productions per player. Its helper removes a number of units of one target from that queue.

## How the project is laid out

| file | module | models |
|---|---|---|
| `wrappers.dfy` | `Wrappers` | `Option`, `Result` and the Python exceptions the core raises (`Error`) |
| `bytes.dfy` | `Bytes` | bytes; Python slicing of `bytes`; little-endian integers |
| `streams.dfy` | `Streams` | a binary file object (`Reader` class: `read`, `seek`) |
| `markup.dfy` | `Markup` | the MiniYaml document tree and the dictionary operations the core applies to it |
| `csharp.dfy` | `CSharp` | `oratools/csharp.py` |
| `binutils.dfy` | `BinUtils` | `oratools/binutils.py`, including `struct.calcsize` / `struct.unpack` |
| `packet.dfy` | `Packets` | `oratools/packet.py` |
| `demuxer.dfy` | `Demuxers` | `oratools/demuxer.py` |
| `orders.dfy` | `Orders` | the order parsers of `oratools/decoder.py` |
| `layouts.dfy` | `OrderLayouts` | encoders for every order section, and round-trip lemmas against the parsers |
| `decoder.dfy` | `Decoders` | the `Decoder` class of `oratools/decoder.py` |
| `buildorder.dfy` | `BuildOrder` | the queue helpers of `oratools/buildorder.py` |

### Modelling choices

**Bytes.** A byte is `int` restricted to `0..255`; a Python `bytes` value is `seq<byte>`.

**Slicing.** Python slicing is written out exactly (`Drop`, `Take`, `Slice`). For example, `data[4 * count:]` with a negative `count` counts from the end of the payload.

**`struct`.** `parse_fmt` computes its slice length with the *native* `struct.calcsize`, which pads every item to its own alignment (an LP64 build). It then unpacks with the *standard* `<` layout, which needs exactly the standard size. Both sizes are modelled. As a result, a format whose native and standard sizes differ only parses an input of exactly the standard size. `IQ`, used by the version-11 sync hash, is such a format: native size 16, standard size 12.

**Exceptions.** A Python exception becomes an `Err` carrying the exception's class. The classes are `StructError`, `AssertionError`, `KeyError`, `IndexError`, `TypeError`, `ValueError`, `AttributeError` and `OSError`; the two plain `Exception`s of the demuxer are `BadEndMarker` and `BadStartMarker`, which carry the marker that was read.

**Generators.** A generator becomes either a method that returns all its items plus the error that ended it (`Demuxer.ReadPackets`), or a method that returns the single item it yields (`Decoder.DecodePacket`).

**Parsers.** Each order parser is a function from the payload to a `Result`. Each `Decoder` and `Demuxer` method is a method on a class whose fields the source updates in place. The reader is a class holding a byte sequence and a position.

**Byte order of `send`.** `send` packs its header with the native format `'ii'`, without a `<` (`oratools/packet.py:54`). The model writes little-endian words, so it assumes a little-endian host.

**Outside functions.** `miniyaml.load` and Python's `int()` on a string are outside this model. They are parameters: the `Env` record carries `load` and `toInt`.

**MiniYaml documents.** A MiniYaml document is a `Tree`: a leaf string, or a node with an ordered list of keyed children. The order matters because `_get_client_names` lets the last entry for an id win.

### Behaviour worth knowing

- **One order per packet.** `decode_packet` loops `while data`, but it sets `data = data[len(data):]` after decoding the first order (`oratools/decoder.py:230-247`). Anything after the first order of a payload is discarded. `Decoders.Step` and `Decoders.Decoder.DecodePacket` therefore yield at most one order per packet.
- **Signed header words.** `Packet.from_file` reads the header with the signed format `iii` (`oratools/packet.py:41`). A length word below 4 returns `None`, which ends the packet stream (`oratools/packet.py:47-48`; `Packets.Frame`, `Demuxers.DemuxStops`).
- **Negative section counts in `Fields`.** The actor lists read a signed count and then slice `data[4 * count:]` (`oratools/decoder.py:175-178`, `189-192`). A negative count gives an empty list, and the slice then counts from the end of the remaining data. `Orders.ActorList` keeps that behaviour.

## Model

| member | source | states |
|---|---|---|
| Bytes.Drop | oratools/decoder.py:178 | `s[i:]` with Python semantics: an index past the end gives the empty string, a negative index counts from the end |
| Bytes.Take | oratools/binutils.py:23 | `s[:n]` has `min(n, len(s))` bytes and is a prefix of `s` |
| Bytes.Slice | oratools/csharp.py:41 | `s[i:j]` is the stretch between the two indices when they are in range, is `s[i:]` when `j` runs past the end, and is empty when `j <= i` or `i` is past the end |
| Bytes.EncodeUnsigned | oratools/packet.py:54 | reading back a little-endian unsigned field packed from `v` gives `v` |
| Bytes.EncodeSigned | oratools/packet.py:54 | reading back a little-endian two's-complement field packed from `v` gives `v` |
| Bytes.EncodeOfUnsigned | oratools/binutils.py:23 | the unsigned value of any byte string fits its width, and packing it gives the same bytes |
| Bytes.EncodeOfSigned | oratools/binutils.py:23 | the signed value of any byte string fits its width, and packing it gives the same bytes |
| Streams.Reader.Read | oratools/binutils.py:28 | `read(n)` returns the next `min(n, remaining)` bytes (everything left when `n < 0`) and advances the position by what it returned |
| Streams.Reader.Seek | oratools/demuxer.py:46-58 | `seek(offset, whence)` moves to the offset measured from the start, the current position or the end; a negative target raises `OSError` and leaves the position alone |
| Streams.RestShift | oratools/binutils.py:28 | reading at `pos + k` of a stream is reading at `k` of what remains after `pos` |
| Markup.Get | oratools/decoder.py:212 | `tree[key]`: `KeyError` when a node has no such key, `TypeError` on a leaf, otherwise the child the lookup finds under that key |
| Markup.GetOpt | oratools/decoder.py:100 | `tree.get(key)`: `None` when the key is missing, `AttributeError` on a leaf |
| Markup.Items | oratools/decoder.py:222 | `tree.items()` fails with `AttributeError` exactly on a leaf, and on a node gives its entries in order |
| Markup.ToInt | oratools/decoder.py:102 | `int(text)`: `ValueError` when the text is not an integer, `TypeError` on a node |
| Markup.Single | oratools/demuxer.py:41 | a one-key document answers that key with the given value |
| CSharp.VlqDecode | oratools/csharp.py:18-25 | the reported length never exceeds the input |
| CSharp.VlqEncode | oratools/csharp.py:28-36 | the bytes `_vlq_serialize` produces; what they are is stated by `VlqRoundTrip`, `VlqEncodeShape` and `VlqEncodeMinimal` |
| CSharp.VlqDeserialize | oratools/csharp.py:18-25 | the loop computes the value and byte count that `VlqDecode` defines |
| CSharp.VlqSerialize | oratools/csharp.py:28-36 | the loop produces exactly the encoding `VlqEncode` defines |
| CSharp.DecodeLoopSpec | oratools/csharp.py:20-24 | the state of the deserialising loop after any prefix is the accumulated value plus the shifted decode of the rest |
| CSharp.VlqRoundTrip | oratools/csharp.py:18-36 | decoding the encoding of any `n`, followed by any bytes, gives `n` and the encoding's length |
| CSharp.VlqEncodeShape | oratools/csharp.py:28-36 | an encoding is never empty; every byte but the last has the continuation bit set, and the last has it clear |
| CSharp.VlqEncodeMinimal | oratools/csharp.py:28-36 | the encoding uses the fewest 7-bit groups that hold `n`; it is one byte exactly when `n < 128` |
| CSharp.VlqDecodeStops | oratools/csharp.py:18-25 | decoding reads nothing from an empty input, stops at the first byte whose continuation bit is clear, and consumes an input of only continuation bytes entirely |
| CSharp.VlqDecodeIgnoresTail | oratools/csharp.py:18-25 | bytes after a terminated quantity do not change its decoding |
| CSharp.SerializeString | oratools/csharp.py:45-47 | a serialised string is the length's VLQ followed by the string itself |
| CSharp.ParseString | oratools/csharp.py:39-42 | the reported size is the VLQ's byte count plus the announced length; the string is never longer than announced, and is exactly the bytes after the VLQ when the data holds them all |
| CSharp.ParseStringRoundTrip | oratools/csharp.py:39-47 | parsing a serialised string, followed by any bytes, gives the string and its serialised size |
| CSharp.ParseStringTruncates | oratools/csharp.py:39-42 | on a short input the string is cut at the end of the data, while the reported size stays the announced one and so exceeds the input |
| BinUtils.Repeat | oratools/decoder.py:177 | `'I' * count` has `max(count, 0)` items, all of that code |
| BinUtils.Unpack | oratools/binutils.py:23 | unpacking yields one value per format item |
| BinUtils.UnpackAt | oratools/binutils.py:23 | the `k`-th unpacked value is the `k`-th field read at its standard offset |
| BinUtils.FieldValueRange | oratools/binutils.py:23 | every unpacked field fits its format's signed or unsigned range |
| BinUtils.UnpackPack | oratools/packet.py:54 | unpacking packed values gives the values back |
| BinUtils.ParseFmt | oratools/binutils.py:21-23 | a successful parse yields one value per format item |
| BinUtils.ParseFmtSpec | oratools/binutils.py:21-23 | `parse_fmt` succeeds exactly when the input has the standard size, or at least that size while the native and standard sizes agree; its values are those unpacked from the first standard-size bytes; a short input is a `struct.error` |
| BinUtils.ParseFmtAligned | oratools/binutils.py:21-23 | for a format without padding, `parse_fmt` succeeds exactly on inputs of at least the format's size |
| BinUtils.SyncHashFormatQuirk | oratools/binutils.py:21-23 | `IQ` has native size 16 but standard size 12, so `parse_fmt(data, 'IQ')` succeeds only on exactly 12 bytes |
| BinUtils.NativeEndAtLeast | oratools/binutils.py:22 | the native size is at least the standard size, and equal to it for a format without padding |
| BinUtils.RepeatAligned | oratools/decoder.py:177 | a run of 32-bit words has no padding and takes four bytes per word |
| BinUtils.UnpackRepeat | oratools/binutils.py:23 | unpacking a run of unsigned 32-bit words gives, at index `k`, the word at byte `4k` |
| BinUtils.ParseRepeat | oratools/decoder.py:177 | `parse_fmt` of `count` unsigned words succeeds exactly on `4 * count` bytes or more, fails with `struct.error` otherwise, and id `k` is the word at byte `4k` |
| BinUtils.ReadFmtAtShort | oratools/binutils.py:26-30 | when fewer bytes remain than the native size, `read_data_fmt` fails its assertion |
| BinUtils.ReadFmtAt | oratools/binutils.py:26-30 | `read_data_fmt` over bytes at a position: one value per format item; `ReadFmtAtShort`, `ReadFmtAtFits` and `ReadFmtAtAligned` state the rest |
| BinUtils.ReadFmtAtFits | oratools/binutils.py:26-30 | otherwise it parses exactly the next native-size bytes |
| BinUtils.ReadFmtAtAligned | oratools/binutils.py:26-30 | for a format without padding it yields the values unpacked from the next bytes |
| BinUtils.ReadDataFmt | oratools/binutils.py:26-30 | the method's result is `ReadFmtAt` of the reader's old position, and the position advances by what was read |
| Packets.Frame | oratools/packet.py:39-51 | a frame never consumes more than the input; fewer than 12 bytes fail the header's assertion; a length word below 4 gives None after the 12-byte header; a payload shorter than `length - 4` fails the assertion; a decoded packet consumes its 12-byte header plus its data |
| Packets.FromFile | oratools/packet.py:39-51 | reading a packet from a file returns `Frame` of the remaining bytes and advances the position by what `Frame` consumed |
| Packets.FromSocket | oratools/packet.py:34-37 | reading from a socket is `Frame` without the swap |
| Packets.Send | oratools/packet.py:53-54 | `send` fails with `struct.error` exactly when the length or frame does not fit a signed 32-bit word; otherwise it emits `8 + len(data)` bytes ending in the data |
| Packets.SendLayout | oratools/packet.py:25-27 | a sent packet is `[length][frame][data]`; with the client inserted after the length, it frames back to the same packet |
| Packets.ReplayRoundTrip | oratools/packet.py:25-51 | a replay record `[client][length][frame][data]`, followed by anything, frames back to the packet, consuming `12 + len(data)` bytes |
| Packets.ReceivedRoundTrip | oratools/packet.py:25-51 | the same for a received record `[length][client][frame][data]` without the swap |
| Packets.SwapQuirk | oratools/packet.py:43-45 | framing with the swap equals framing, without it, the input with its first two words exchanged |
| Packets.ReadHeader | oratools/packet.py:41 | reading the header fails its assertion on fewer than 12 bytes, and otherwise yields the three signed words |
| Demuxers.Demux | oratools/demuxer.py:24-29 | the packet stream never consumes more than the input |
| Demuxers.DemuxOne | oratools/demuxer.py:24-29 | when the first frame holds a packet, the stream is that packet followed by the stream of what follows it |
| Demuxers.DemuxEnds | oratools/demuxer.py:24-29 | a frame that raises ends the stream with that error; a frame whose length is below 4 ends it cleanly |
| Demuxers.DemuxStops | oratools/packet.py:47-48 | a header whose length word is below 4 ends the stream with no packet and no error |
| Demuxers.DemuxAtEnd | oratools/packet.py:41 | at the end of the file the stream ends with the header assertion failing |
| Demuxers.DemuxRecords | oratools/demuxer.py:24-29 | the replay records of any packets, followed by any bytes, demultiplex to exactly those packets and then the stream of those bytes |
| Demuxers.DemuxCons | oratools/demuxer.py:24-29 | one replay record in front of any bytes adds its packet in front of their stream |
| Demuxers.ForcedGameInfo | oratools/demuxer.py:40-42 | a forced version gives a document whose `Root.Version` is that version |
| Demuxers.ProbeLayout | oratools/demuxer.py:44-57 | the footer probe succeeds exactly on a well-formed trailer (markers, a non-negative length within the file, the repeated length) and returns the metadata document between them |
| Demuxers.Probe | oratools/demuxer.py:44-57 | a file shorter than 8 bytes fails the first seek with `OSError`; a successful probe saw the end marker in the last word; `ProbeLayout` states when it succeeds and what it returns |
| Demuxers.NegativeLengthFails | oratools/demuxer.py:46-50 | a negative footer length never probes successfully |
| Demuxers.ContainerLayout | oratools/demuxer.py:44-57 | any prefix followed by a trailer built from a version and a document has a well-formed trailer enclosing that document |
| Demuxers.ProbeRoundTrip | oratools/demuxer.py:44-57 | probing such a container returns the document |
| Demuxers.ReadWordPair | oratools/demuxer.py:47 | reading two signed words fails its assertion when fewer than 8 bytes remain, and otherwise yields the two words and advances by 8 |
| Demuxers.ReadPair | oratools/demuxer.py:51 | `read_data_fmt(f, 'ii')` at a position is the two signed words there when 8 bytes remain, and fails its assertion otherwise |
| Demuxers.Demuxer.OpenFile | oratools/demuxer.py:37-59 | with a forced version nothing is read and the game info is the forced document; otherwise the demuxer opens exactly when the footer probe succeeds, raises the probe's error when it fails, and on success holds the loaded document and is rewound to the start |
| Demuxers.Demuxer.Socket | oratools/demuxer.py:65-68 | a socket demuxer reads unswapped frames and has no game info |
| Demuxers.Demuxer.ReadPacket | oratools/demuxer.py:61-62 | one read is `Frame` of the remaining bytes, with the swap for files |
| Demuxers.Demuxer.ReadPackets | oratools/demuxer.py:24-29 | the generator's loop yields exactly the packets of `Demux` of the remaining bytes, ends with its error, and leaves the position after what it consumed |
| Orders.DecodeTargetString | oratools/decoder.py:31-47 | a target string is loaded as a document exactly when its field is one of the nine listed names, and is kept as raw bytes otherwise |
| Orders.ReadFmt | oratools/decoder.py:138-139 | parsing a format and dropping its size fails only with `struct.error`, succeeds on any long-enough input for a format without padding, and returns the unpacked prefix and the rest |
| Orders.ReadOne | oratools/decoder.py:181-182 | reading one field succeeds exactly when the input is wide enough and returns its value and the rest |
| Orders.LegacySubject | oratools/decoder.py:137-139 | before version 8 the subject id is the leading unsigned word (a `struct.error` if missing); from version 8 nothing is read |
| Orders.FlaggedWord | oratools/decoder.py:145-147 | an optional word is read exactly when its flag is set, and the data is untouched otherwise |
| Orders.TargetSection | oratools/decoder.py:149-167 | no target without the flag; with it, an empty input is an `IndexError`, an actor target needs 5 bytes, a frozen actor 9, a cell 6 and a position 13, a shorter input is a `struct.error`, and any other type byte gives no target and consumes only itself; each target kind matches its type byte, an actor target is the little-endian word after it, and the rest starts after the target's bytes |
| Orders.TargetStringSection | oratools/decoder.py:169-172 | with the flag, the target string is parsed, decoded for the order's field and skipped by its reported size; without it, nothing changes |
| Orders.ActorList | oratools/decoder.py:174-179 | with the flag, the list reads exactly when there are 4 bytes of signed count and `4 * count` bytes after them, and otherwise fails with `struct.error`; it holds `count` ids (none for a count `<= 0`), id `k` being the unsigned word at byte `4 + 4k`; the rest is sliced at `4 * count` with Python semantics |
| Orders.FieldsHead | oratools/decoder.py:129-143 | the head's field is the parsed string; a legacy subject is read exactly before version 8; flags are a byte without the grouped bit before version 11 and a signed short from version 11 |
| Orders.FieldsBody | oratools/decoder.py:145-194 | each optional key is present exactly when its flag is set, and the subject id falls back to the legacy one |
| Orders.DecodeFields | oratools/decoder.py:127-194 | a `Fields` order decodes exactly when its head and its body do, and yields the parsed field and the body's info |
| Orders.FieldsVersionKeys | oratools/decoder.py:134-194 | before version 11 an order never has grouped actors; before version 8 it always has a subject id |
| Orders.DecodeSyncHash | oratools/decoder.py:56-66 | a sync hash fails only with `struct.error` |
| Orders.SyncHashLayout | oratools/decoder.py:56-66 | from version 11 it needs exactly 12 bytes and reads the hash and the defeat state; before, it needs 4 bytes and reads only the hash; `data` keeps the bytes it read |
| Orders.DecodeDisconnect | oratools/decoder.py:77-80 | a disconnect decodes exactly from an empty payload, and otherwise fails its assertion |
| Orders.HandshakeVersion | oratools/decoder.py:98-102 | any key but `HandshakeResponse` announces no version; for a response, a raw value is a `TypeError`, a missing 'Handshake' entry is its lookup error and a leaf there an `AttributeError`, no `OrdersProtocol` entry announces none, and otherwise the version is `int()` of that entry or its error |
| Orders.DecodeHandshake | oratools/decoder.py:93-103 | a successful handshake decode is a handshake order |
| Orders.DecodeOrder | oratools/decoder.py:202-207 | a type byte outside the order map raises `KeyError`; a decoded order is always of the kind `_order_map` names for its type byte |
| Orders.DispatchSyncHash | oratools/decoder.py:202-207 | a payload starting with `0x65` decodes exactly as the SyncHash parser decodes the rest of the payload |
| Orders.DispatchDisconnect | oratools/decoder.py:202-207 | a payload starting with `0xbf` decodes exactly as the Disconnect parser decodes the rest of the payload |
| Orders.DispatchHandshake | oratools/decoder.py:202-207 | a payload starting with `0xfe` decodes exactly as the Handshake parser decodes the rest of the payload |
| Orders.DispatchFields | oratools/decoder.py:202-207 | a payload starting with `0xff` decodes exactly when the Fields parser accepts the rest of the payload, and to the order with that parser's field and info |
| Orders.DisconnectOnly | oratools/decoder.py:77-80 | a payload decodes to a disconnect exactly when it is the single byte `0xbf` |
| OrderLayouts.FieldRoundTrip | oratools/binutils.py:23 | reading back a field encoded from any value in range gives the value |
| OrderLayouts.ReadOneRoundTrip | oratools/decoder.py:181-187 | a single encoded field followed by anything reads back the value and leaves the rest |
| OrderLayouts.ReadFmtRoundTrip | oratools/binutils.py:21-23 | packed values of a format without padding, followed by anything, parse back to the values and leave the rest |
| OrderLayouts.SyncHashLongRoundTrip | oratools/decoder.py:58-61 | from version 11 a 12-byte hash and defeat state decode back to both values |
| OrderLayouts.SyncHashShortRoundTrip | oratools/decoder.py:62-65 | before version 11 an encoded hash followed by anything decodes back to the hash, keeping only its 4 bytes as `data` |
| OrderLayouts.HandshakeRoundTrip | oratools/decoder.py:93-103 | two serialised strings decode to a handshake with that key and decoded value, failing exactly when reading its orders version fails, and with the same error |
| OrderLayouts.FlagsOfRecord | oratools/decoder.py:111-119 | the flag word built for an order announces exactly the keys the order has |
| OrderLayouts.FlagsFit | oratools/decoder.py:141-142 | that flag word fits a byte before version 11 and a short from version 11 |
| OrderLayouts.FlaggedWordRoundTrip | oratools/decoder.py:145-147 | an optional word, encoded when present, reads back under a flag that says whether it is present |
| OrderLayouts.TargetRoundTrip | oratools/decoder.py:149-167 | every target kind, encoded with its type byte, reads back to itself and leaves the rest |
| OrderLayouts.TargetStringRoundTrip | oratools/decoder.py:169-172 | an optional serialised target string reads back decoded for the field and leaves the rest |
| OrderLayouts.ActorListRoundTrip | oratools/decoder.py:174-179 | an optional counted list of actor ids reads back to itself and leaves the rest |
| OrderLayouts.HeadRoundTrip | oratools/decoder.py:129-143 | the encoded head of an order reads back its field, legacy subject and flags, and leaves the body |
| OrderLayouts.TrailerRoundTrip | oratools/decoder.py:174-194 | the four trailing optional sections read back to the order's extra actors, location, data and grouped actors |
| OrderLayouts.BodyRoundTrip | oratools/decoder.py:145-194 | an encoded body, under flags that announce its keys, decodes to every key of the order |
| OrderLayouts.FieldsRoundTrip | oratools/decoder.py:127-194 | every fields order whose values fit their fields, with a subject below version 8 and grouped actors only from version 11, encoded for its version and followed by any bytes, decodes back to its field and info |
| OrderLayouts.FieldsOrderRoundTrip | oratools/decoder.py:202-235 | with the `0xff` type byte in front, the whole payload decodes to that fields order |
| Decoders.ClientId | oratools/decoder.py:223-225 | only keys starting with `Client@` declare an id; that id is `int()` of the rest of the key, and a suffix `int()` rejects raises `ValueError` |
| Decoders.AddClient | oratools/decoder.py:222-227 | other keys leave the registry alone; a client entry binds its id to its `Name` |
| Decoders.AddClientBinds | oratools/decoder.py:222-227 | after one entry the registry holds the old ids plus the declared one, keeps the others' names, and gives the declared id the entry's name |
| Decoders.ClientNamesDomain | oratools/decoder.py:219-228 | the registry holds exactly the ids some entry declares |
| Decoders.ClientNamesLastWins | oratools/decoder.py:219-228 | an id is bound to the name of the last entry that declares it |
| Decoders.ClientNamesErrorPersists | oratools/decoder.py:219-228 | an error on any entry is the error of the whole call |
| Decoders.ClientNamesOf | oratools/decoder.py:219-228 | raw bytes and a leaf document, having no `items()`, raise `AttributeError`; a node document gives the registry (or the error) that its entries build in order |
| Decoders.Decoder.GetClientNames | oratools/decoder.py:219-228 | the loop computes `ClientNamesOf` |
| Decoders.Apply | oratools/decoder.py:237-247 | a known orders version never changes and only a handshake sets it; only SyncInfo orders touch the registry; a failure leaves the registry alone; on success the order itself is yielded; a handshake seen while the version is unknown sets it to the version the handshake carries; a SyncInfo fields order without a target raises `KeyError`, and a SyncInfo whose client names cannot be read fails with that error |
| Decoders.Step | oratools/decoder.py:230-247 | an empty payload yields nothing and changes nothing |
| Decoders.StepDecodes | oratools/decoder.py:232-235 | a yielded order is the decoding of the payload with the current orders version |
| Decoders.StepApplies | oratools/decoder.py:236-247 | a decoded order is applied to the state and is the result |
| Decoders.VersionLocked | oratools/decoder.py:238-239 | once the orders version is known, no packet changes it |
| Decoders.VersionLockedRun | oratools/decoder.py:238-239 | nor does any sequence of packets |
| Decoders.VersionFromResponse | oratools/decoder.py:93-102 | a `HandshakeResponse` payload seen while the version is unknown sets the version to the `OrdersProtocol` entry of its 'Handshake' document (None when absent), or fails with the error of reading that entry |
| Decoders.VersionFromHandshake | oratools/decoder.py:237-239 | the orders version changes only from unknown, and only to the version a decoded handshake announces |
| Decoders.NamesReplaced | oratools/decoder.py:240-244 | a SyncInfo handshake or fields order replaces the registry with the names of its document; every other order keeps it |
| Decoders.Decoder.Create | oratools/decoder.py:209-213 | a decoder is created exactly when the game info has `Root.Version`; a missing `Root` raises its error, and a `Root` without `Version` raises that lookup's error; a new decoder has no orders version and an empty registry |
| Decoders.Decoder.DecodePacket | oratools/decoder.py:230-247 | the method's result and new state are those of `Step` on the packet's payload |
| Decoders.Decoder.GetName | oratools/decoder.py:249-250 | a name is returned exactly for a registered id, and `KeyError` otherwise |
| Decoders.Decoder.FrameTime | oratools/decoder.py:252-260 | the minutes, seconds and milliseconds add up to `120 * frame` ms, with seconds below 60 and milliseconds below 1000 |
| BuildOrder.FirstIndex | oratools/buildorder.py:26-32 | the result is `-1` or the first index whose target matches; no earlier entry matches |
| BuildOrder.Queue.FindTarget | oratools/buildorder.py:26-32 | the loop finds the first matching index, and `-1` exactly when no entry matches |
| BuildOrder.Queue.RemoveItems | oratools/buildorder.py:35-47 | the queue becomes `Removed` of the old queue |
| BuildOrder.RemovedNoMatch | oratools/buildorder.py:36-38 | removing a target the queue does not hold changes nothing |
| BuildOrder.Removed | oratools/buildorder.py:35-47 | the queue `_remove_queue_items` leaves; `RemovedNoMatch`, `RemovedDecrements`, `RemovedShape`, `RemovedTotal` and `RemovedKeepsOthers` state what it is |
| BuildOrder.RemovedDecrements | oratools/buildorder.py:46-47 | when the first matching entry holds more than the count, only its count drops, by that amount |
| BuildOrder.PopIsErase | oratools/buildorder.py:41-42 | popping the first match is erasing one occurrence of the target |
| BuildOrder.RemovedShape | oratools/buildorder.py:35-47 | removing is erasing some number of matching entries from the front and then updating at most the next one |
| BuildOrder.RemovedTotal | oratools/buildorder.py:35-47 | with positive counts, the target's total drops by the count, floored at zero |
| BuildOrder.RemovedKeepsOthers | oratools/buildorder.py:35-47 | other targets' entries and totals are unchanged |
| BuildOrder.TotalPop | oratools/buildorder.py:42 | popping a matching entry lowers the total by its count and keeps counts positive |
| BuildOrder.TotalUpdate | oratools/buildorder.py:47 | rewriting an entry's count changes the total by the difference |

## Left out

- `miniyaml.load` and `int()` on strings are not part of this model. They enter as the `Env` parameters `load` and `toInt`.
- Sockets and `network.SocketReader` are not part of this model. A socket is a `Reader` over the bytes it will deliver. `SocketReader`'s own failure on a zero-length read is not modelled.
- The laziness of the generators is not modelled. `read_packet` is its whole run (`Demuxer.ReadPackets`), and `decode_packet` is the single order it yields.
- `__str__` of the orders and `pprint` output are not modelled: they format values for printing.
- The `type` property of orders is not modelled. Order kinds are the constructors of `Order`.
- Decoders.Decoder.FrameTime: returns the `(minutes, seconds, milliseconds)` triple rather than the zero-padded `mm:ss.mmm` string.
- The `game_version` argument of `from_data`, the `_time_step`/`_order_latency` fields and the `_game_info` field are not modelled apart from the constants `FrameTime` uses: no parser reads them.
- The `info` dictionary of a fields order is a record with optional keys. Its key insertion order is not modelled.
- The stream position after an exception is not modelled; only the error is. The exceptions are those in `read_data_fmt`, `Packet.from_file` and the footer probe.
- `buildorder()`, `run()`, the command-line wrapper and logging (`oratools/buildorder.py:50-106`) are not modelled: they do file I/O and printing.
- BuildOrder: the queue entries' target type is a type parameter rather than the game's actor names.
- FieldsRoundTrip: covers orders whose values fit their fields, with a subject below version 8 and grouped actors only from version 11 (`Valid`). Other inputs have no encoding, so there is nothing to round-trip.
- Packets.ReplayRoundTrip and Packets.ReceivedRoundTrip: cover only packets whose words fit a signed 32-bit field. Others cannot be written.
