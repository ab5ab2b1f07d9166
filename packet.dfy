/**
 * Packet framing. Three little-endian i32 words precede the payload:
 *
 *   received packets  [length][client][frame][orders: length - 4]
 *   sent packets      [length]        [frame][orders: length - 4]
 *   replay packets    [client][length][frame][orders: length - 4]
 *
 * `from_file` always reads the first two words as (length, client) and swaps them for replays.
 */
module Packets {
  import opened Wrappers
  import opened Bytes
  import opened Streams
  import opened BinUtils

  datatype Packet = Packet(client: int, frame: int, data: seq<byte>)

  /** The `'iii'` header. */
  const Header: seq<Code> := [Int32, Int32, Int32]

  /** The signed i32 at byte offset `at`. */
  function Word(s: seq<byte>, at: nat): int
    requires at + 4 <= |s|
  {
    Signed(s[at..at + 4])
  }

  /**
   * `from_file(f, swapped)` on a reader whose remaining bytes are `s`: the packet and the
   * number of bytes consumed. Fewer than 12 bytes fail the header read's assertion. The length
   * is physical word 0 (word 1 when swapped), the client the other one, the frame word 2. A
   * length below 4 gives None after the header alone; otherwise exactly `length - 4` payload
   * bytes are read, and a short payload fails the assertion.
   */
  function Frame(s: seq<byte>, swapped: bool): (r: (Result<Option<Packet>>, nat))
    ensures r.1 <= |s|
    ensures r.0.Ok? ==> r.1 >= 12
    ensures r.0.Ok? && r.0.value.Some? ==> r.1 == 12 + |r.0.value.value.data|
    ensures |s| < 12 ==> r == (Err(AssertionError), |s|)
    ensures |s| >= 12 ==>
              var length := if swapped then Word(s, 4) else Word(s, 0);
              && (length < 4 ==> r == (Ok(None), 12))
              && (length >= 4 && |s| < 8 + length ==> r == (Err(AssertionError), |s|))
  {
    if |s| < 12 then (Err(AssertionError), |s|)
    else
      var length := if swapped then Word(s, 4) else Word(s, 0);
      var client := if swapped then Word(s, 0) else Word(s, 4);
      if length < 4 then (Ok(None), 12)
      else if |s| < 8 + length then (Err(AssertionError), |s|)
      else (Ok(Some(Packet(client, Word(s, 8), s[12..8 + length]))), 8 + length)
  }

  /** `from_file`: the header through `read_data_fmt(f, 'iii')`, then `read(length - 4)`. */
  method FromFile(f: Reader, swapped: bool) returns (res: Result<Option<Packet>>)
    modifies f
    ensures res == Frame(old(f.Remaining()), swapped).0
    ensures f.pos == old(f.pos) + Frame(old(f.Remaining()), swapped).1
  {
    ghost var s := f.Remaining();
    ReadHeader(f.bytes, f.pos);
    var words :- ReadDataFmt(f, Header);
    assert |s| >= 12 && words == [Word(s, 0), Word(s, 4), Word(s, 8)];
    var length, client, frame := words[0], words[1], words[2];
    if swapped {
      client, length := length, client;
    }
    assert length == (if swapped then Word(s, 4) else Word(s, 0));
    if length < 4 {
      assert Frame(s, swapped) == (Ok(None), 12);
      return Ok(None);
    }
    RestShift(f.bytes, old(f.pos), 12, length - 4);
    var data := f.Read(length - 4);
    if |data| != length - 4 {
      assert Frame(s, swapped) == (Err(AssertionError), |s|);
      return Err(AssertionError);
    }
    assert Frame(s, swapped) == (Ok(Some(Packet(client, frame, data))), 8 + length);
    return Ok(Some(Packet(client, frame, data)));
  }

  /** `Packet.from_socket(s)`: the received layout, no swap. */
  method FromSocket(socket: Reader) returns (res: Result<Option<Packet>>)
    modifies socket
    ensures res == Frame(old(socket.Remaining()), false).0
    ensures socket.pos == old(socket.pos) + Frame(old(socket.Remaining()), false).1
  {
    res := FromFile(socket, false);
  }

  /**
   * The bytes `send` writes: `struct.pack('ii', len(data) + 4, frame) + data`, or the
   * `struct.error` that `pack` raises when a word does not fit an i32.
   */
  function Send(p: Packet): (r: Result<seq<byte>>)
    ensures r.Ok? <==> FitsSigned(|p.data| + 4, 4) && FitsSigned(p.frame, 4)
    ensures r.Err? ==> r.error == StructError
    ensures r.Ok? ==> |r.value| == 8 + |p.data| && r.value[8..] == p.data
  {
    if FitsSigned(|p.data| + 4, 4) && FitsSigned(p.frame, 4) then
      Ok(Pack([|p.data| + 4, p.frame], [Int32, Int32]) + p.data)
    else
      Err(StructError)
  }

  /** `[client][length][frame][data]`, as stored in a replay file. */
  function ReplayRecord(p: Packet): (r: seq<byte>)
    requires FitsSigned(p.client, 4) && FitsSigned(|p.data| + 4, 4) && FitsSigned(p.frame, 4)
    ensures |r| == 12 + |p.data|
  {
    Encode(p.client, 4) + Encode(|p.data| + 4, 4) + Encode(p.frame, 4) + p.data
  }

  /** `[length][client][frame][data]`, as received from the server. */
  function ReceivedRecord(p: Packet): (r: seq<byte>)
    requires FitsSigned(p.client, 4) && FitsSigned(|p.data| + 4, 4) && FitsSigned(p.frame, 4)
    ensures |r| == 12 + |p.data|
  {
    Encode(|p.data| + 4, 4) + Encode(p.client, 4) + Encode(p.frame, 4) + p.data
  }

  /** The first two words exchanged: the replay layout turned into the received one. */
  function SwapWords(s: seq<byte>): (r: seq<byte>)
    ensures |r| == |s|
  {
    if |s| < 8 then s else s[4..8] + s[0..4] + s[8..]
  }

  lemma HeaderSizes()
    ensures NativeSize(Header) == 12 && StandardSize(Header) == 12
  {
    assert AlignedFrom(Header, 0) by {
      assert Header[1..] == [Int32, Int32] && Header[1..][1..] == [Int32];
    }
    NativeEndAtLeast(Header, 0);
    assert StandardSize(Header) == 4 + StandardSize([Int32, Int32]);
    assert StandardSize([Int32, Int32]) == 4 + StandardSize([Int32]);
    assert StandardSize([Int32]) == 4 + StandardSize([]);
  }

  /** `read_data_fmt(f, 'iii')` on twelve bytes gives the three signed words. */
  lemma ParseHeader(h: seq<byte>)
    requires |h| == 12
    ensures ParseFmt(h, Header) == Ok([Word(h, 0), Word(h, 4), Word(h, 8)])
  {
    HeaderSizes();
    ParseFmtSpec(h, Header);
    assert h[..12] == h;
    var u := Unpack(h, Header);
    assert Header[1..] == [Int32, Int32] && Header[1..][1..] == [Int32];
    assert h[..4] == h[0..4] && h[4..][..4] == h[4..8] && h[8..][..4] == h[8..12];
    assert h[4..][4..] == h[8..];
    assert ParseFmt(h, Header) == Ok(u);
    assert u == [Word(h, 0)] + Unpack(h[4..], [Int32, Int32]);
    assert Unpack(h[4..], [Int32, Int32]) == [Word(h, 4)] + Unpack(h[8..], [Int32]);
    assert Unpack(h[8..], [Int32]) == [Word(h, 8)] + Unpack(h[12..], []);
    assert u == [Word(h, 0), Word(h, 4), Word(h, 8)];
  }

  /**
   * `read_data_fmt(f, 'iii')` at `pos`: the three words that stand there, or an
   * AssertionError when fewer than 12 bytes are left; it consumes at most 12 bytes.
   */
  lemma ReadHeader(bytes: seq<byte>, pos: nat)
    ensures var s := Rest(bytes, pos);
            && (|s| < 12 ==> ReadFmtAt(bytes, pos, Header) == Err(AssertionError))
            && (|s| >= 12 ==> ReadFmtAt(bytes, pos, Header) == Ok([Word(s, 0), Word(s, 4), Word(s, 8)]))
            && |ReadAt(bytes, pos, NativeSize(Header))| == Min(12, |s|)
  {
    HeaderSizes();
    var s := Rest(bytes, pos);
    if |s| >= 12 {
      var h := bytes[pos..pos + 12];
      assert ReadAt(bytes, pos, 12) == h;
      ParseHeader(h);
      assert h == s[..12];
      assert h[0..4] == s[0..4] && h[4..8] == s[4..8] && h[8..12] == s[8..12];
    }
  }

  /** A replay record read with `swapped=True` gives the packet back and consumes the record. */
  lemma ReplayRoundTrip(p: Packet, rest: seq<byte>)
    requires FitsSigned(p.client, 4) && FitsSigned(|p.data| + 4, 4) && FitsSigned(p.frame, 4)
    ensures Frame(ReplayRecord(p) + rest, true) == (Ok(Some(p)), 12 + |p.data|)
  {
    var s := ReplayRecord(p) + rest;
    assert s[0..4] == Encode(p.client, 4) && s[4..8] == Encode(|p.data| + 4, 4);
    assert s[8..12] == Encode(p.frame, 4) && s[12..12 + |p.data|] == p.data;
    EncodeSigned(p.client, 4);
    EncodeSigned(|p.data| + 4, 4);
    EncodeSigned(p.frame, 4);
  }

  /** A received record read with `swapped=False` gives the packet back and consumes the record. */
  lemma ReceivedRoundTrip(p: Packet, rest: seq<byte>)
    requires FitsSigned(p.client, 4) && FitsSigned(|p.data| + 4, 4) && FitsSigned(p.frame, 4)
    ensures Frame(ReceivedRecord(p) + rest, false) == (Ok(Some(p)), 12 + |p.data|)
  {
    var s := ReceivedRecord(p) + rest;
    assert s[0..4] == Encode(|p.data| + 4, 4) && s[4..8] == Encode(p.client, 4);
    assert s[8..12] == Encode(p.frame, 4) && s[12..12 + |p.data|] == p.data;
    EncodeSigned(p.client, 4);
    EncodeSigned(|p.data| + 4, 4);
    EncodeSigned(p.frame, 4);
  }

  /** The replay quirk: reading swapped is reading the received layout with words 0 and 1 exchanged. */
  lemma SwapQuirk(s: seq<byte>)
    ensures Frame(s, true) == Frame(SwapWords(s), false)
  {
    if |s| >= 12 {
      var t := SwapWords(s);
      assert t[0..4] == s[4..8] && t[4..8] == s[0..4] && t[8..12] == s[8..12];
      var length := Word(s, 4);
      if 4 <= length && 8 + length <= |s| {
        assert t[12..8 + length] == s[12..8 + length];
      }
    }
  }

  /**
   * `send` writes the received layout without its client word: the server relays it with the
   * sender's client id put back in, and `from_socket` then reads the same frame and payload.
   */
  lemma SendLayout(p: Packet, client: int, rest: seq<byte>)
    requires Send(p).Ok? && FitsSigned(client, 4)
    ensures var b := Send(p).value;
            && b == Encode(|p.data| + 4, 4) + Encode(p.frame, 4) + p.data
            && Frame(b[..4] + Encode(client, 4) + b[4..] + rest, false) == (Ok(Some(Packet(client, p.frame, p.data))), 12 + |p.data|)
  {
    var b := Send(p).value;
    assert Packable([|p.data| + 4, p.frame], [Int32, Int32]);
    assert [Int32, Int32][1..] == [Int32] && [|p.data| + 4, p.frame][1..] == [p.frame];
    assert Pack([|p.data| + 4, p.frame], [Int32, Int32]) == Encode(|p.data| + 4, 4) + Encode(p.frame, 4);
    var q := Packet(client, p.frame, p.data);
    assert b[..4] + Encode(client, 4) + b[4..] == ReceivedRecord(q);
    ReceivedRoundTrip(q, rest);
  }
}
