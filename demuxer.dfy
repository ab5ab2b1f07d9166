/**
 * Demuxers: turn a byte source into the sequence of packets it carries. A file demuxer first
 * probes the replay container's trailer for the embedded game information, then rewinds; a
 * socket demuxer reads the received layout straight away.
 *
 * Container trailer, all words little-endian i32:
 *   ... [start marker -1][version][length - 4][markup: length - 4 bytes][length][end marker -2]
 */
module Demuxers {
  import opened Wrappers
  import opened Bytes
  import opened Streams
  import opened BinUtils
  import opened Packets
  import opened Markup

  const StartMarker: int := -1
  const EndMarker: int := -2

  /** The `'ii'` format of both trailer reads. */
  const Pair: seq<Code> := [Int32, Int32]

  /**
   * `_Demuxer.read_packet` over the remaining bytes `s`: the packets in read order, the
   * exception that ended the loop (None when framing returned None), and the bytes consumed.
   */
  function Demux(s: seq<byte>, swapped: bool): (r: (seq<Packet>, Option<Error>, nat))
    ensures r.2 <= |s|
    decreases |s|
  {
    var (res, n) := Frame(s, swapped);
    if res.Err? then ([], Some(res.error), n)
    else if res.value.None? then ([], None, n)
    else
      var rest := Demux(s[n..], swapped);
      ([res.value.value] + rest.0, rest.1, n + rest.2)
  }

  /** Packets whose three words fit an i32. */
  predicate Storable(p: Packet)
  {
    FitsSigned(p.client, 4) && FitsSigned(|p.data| + 4, 4) && FitsSigned(p.frame, 4)
  }

  /** Replay records one after the other. */
  function Records(ps: seq<Packet>): (r: seq<byte>)
    requires forall p <- ps :: Storable(p)
  {
    if ps == [] then []
    else
      assert Storable(ps[0]);
      ReplayRecord(ps[0]) + Records(ps[1..])
  }

  /**
   * A file of replay records followed by anything: the demuxer yields exactly those packets,
   * in order, and then does what it does on the rest.
   */
  lemma {:induction false} DemuxRecords(ps: seq<Packet>, tail: seq<byte>)
    requires forall p <- ps :: Storable(p)
    ensures Demux(Records(ps) + tail, true).0 == ps + Demux(tail, true).0
    ensures Demux(Records(ps) + tail, true).1 == Demux(tail, true).1
    ensures Demux(Records(ps) + tail, true).2 == |Records(ps)| + Demux(tail, true).2
  {
    if ps == [] {
      assert Records(ps) + tail == tail;
      assert ps + Demux(tail, true).0 == Demux(tail, true).0;
    } else {
      var rest := Records(ps[1..]) + tail;
      RecordsCons(ps, tail);
      DemuxRecords(ps[1..], tail);
      DemuxCons(ps[0], rest);
      ConsAppend(ps, Demux(tail, true).0);
    }
  }

  /** Proof step for `DemuxRecords`: splitting off the head of a concatenation. */
  lemma ConsAppend<T>(xs: seq<T>, ys: seq<T>)
    requires xs != []
    ensures [xs[0]] + (xs[1..] + ys) == xs + ys
  {
  }

  /** The first record split off. */
  lemma RecordsCons(ps: seq<Packet>, tail: seq<byte>)
    requires ps != [] && forall p <- ps :: Storable(p)
    ensures Storable(ps[0])
    ensures Records(ps) + tail == ReplayRecord(ps[0]) + (Records(ps[1..]) + tail)
    ensures |Records(ps)| == 12 + |ps[0].data| + |Records(ps[1..])|
  {
    assert Storable(ps[0]);
  }

  /** Proof step for `DemuxCons`: dropping a prefix of a concatenation leaves the suffix. */
  lemma DropPrefix(a: seq<byte>, b: seq<byte>)
    ensures (a + b)[|a|..] == b
  {
  }

  /** One replay record in front of anything: its packet comes first. */
  lemma DemuxCons(p: Packet, rest: seq<byte>)
    requires Storable(p)
    ensures Demux(ReplayRecord(p) + rest, true).0 == [p] + Demux(rest, true).0
    ensures Demux(ReplayRecord(p) + rest, true).1 == Demux(rest, true).1
    ensures Demux(ReplayRecord(p) + rest, true).2 == 12 + |p.data| + Demux(rest, true).2
  {
    var s := ReplayRecord(p) + rest;
    var n := 12 + |p.data|;
    ReplayRoundTrip(p, rest);
    DropPrefix(ReplayRecord(p), rest);
    DemuxOne(s, true, p, n);
  }

  /** A frame that yields a packet is followed by the rest of the loop. */
  lemma DemuxOne(s: seq<byte>, swapped: bool, p: Packet, n: nat)
    requires Frame(s, swapped).0 == Ok(Some(p)) && Frame(s, swapped).1 == n
    ensures n <= |s|
    ensures Demux(s, swapped).0 == [p] + Demux(s[n..], swapped).0
    ensures Demux(s, swapped).1 == Demux(s[n..], swapped).1
    ensures Demux(s, swapped).2 == n + Demux(s[n..], swapped).2
  {
  }

  /** The loop ends on a frame that fails or yields None, with what that frame consumed. */
  lemma DemuxEnds(s: seq<byte>, swapped: bool)
    ensures var (res, n) := Frame(s, swapped);
            && (res.Err? ==> Demux(s, swapped).0 == [] && Demux(s, swapped).1 == Some(res.error) && Demux(s, swapped).2 == n)
            && (res.Ok? && res.value.None? ==> Demux(s, swapped).0 == [] && Demux(s, swapped).1 == None && Demux(s, swapped).2 == n)
  {
  }

  /** What is left of the loop after a frame that yields a packet, with the packets so far in front. */
  lemma DemuxAdvance(packets: seq<Packet>, s: seq<byte>, swapped: bool)
    requires Frame(s, swapped).0.Ok? && Frame(s, swapped).0.value.Some?
    ensures var (p, n) := (Frame(s, swapped).0.value.value, Frame(s, swapped).1);
            var d, e := Demux(s, swapped), Demux(s[n..], swapped);
            && |s[n..]| < |s|
            && packets + d.0 == (packets + [p]) + e.0 && d.1 == e.1 && d.2 == n + e.2
  {
    var (p, n) := (Frame(s, swapped).0.value.value, Frame(s, swapped).1);
    DemuxOne(s, swapped, p, n);
    assert (packets + [p]) + Demux(s[n..], swapped).0 == packets + ([p] + Demux(s[n..], swapped).0);
  }

  /** The loop stops without an error on a header whose length word is below 4, having read only it. */
  lemma DemuxStops(s: seq<byte>, swapped: bool)
    requires |s| >= 12 && (if swapped then Word(s, 4) else Word(s, 0)) < 4
    ensures Demux(s, swapped) == ([], None, 12)
  {
  }

  /** At the end of the input the header read fails its assertion: the loop does not stop quietly. */
  lemma DemuxAtEnd(swapped: bool)
    ensures Demux([], swapped) == ([], Some(AssertionError), 0)
  {
  }

  /** `if forced_version:` — None and the empty string do not force anything. */
  predicate Truthy(forcedVersion: Option<string>)
  {
    forcedVersion.Some? && forcedVersion.value != ""
  }

  /** `{'Root': {'Version': forced_version}}`. */
  function ForcedGameInfo(version: string): (t: Tree)
    ensures Get(t, "Root").Ok? && Get(Get(t, "Root").value, "Version") == Ok(Leaf(version))
  {
    Single("Root", Single("Version", Leaf(version)))
  }

  /**
   * The trailer probe of `FileDemuxer.__init__` on a file holding `bytes`: the markup handed to
   * `miniyaml.load`, or the exception raised on the way, in the words of the file. The steps
   * are those of the source: seek to 8 bytes before the end, read (length, end marker), check
   * the end marker, seek back `length + 16` bytes, read (start marker, version), check the
   * start marker, read `length` bytes, check that their first word is `length - 4`.
   */
  function Probe(bytes: seq<byte>): (r: Result<seq<byte>>)
    ensures |bytes| < 8 ==> r == Err(OSError)
    ensures r.Ok? ==> |bytes| >= 8 && Word(bytes, |bytes| - 4) == EndMarker
  {
    var size := |bytes|;
    if size < 8 then Err(OSError)                                    // seek(-8, 2)
    else if Word(bytes, size - 4) != EndMarker then Err(BadEndMarker(Word(bytes, size - 4)))
    else
      var length := Word(bytes, size - 8);
      var start := size - (length + 16);
      if start < 0 then Err(OSError)                                 // seek(-(length + 16), 1)
      else if start + 8 > size then Err(AssertionError)              // read_data_fmt(f, 'ii')
      else if Word(bytes, start) != StartMarker then Err(BadStartMarker(Word(bytes, start)))
      else
        var gameData := ReadAt(bytes, start + 8, length);            // read(length)
        if |gameData| < 4 then Err(StructError)                      // parse_fmt(game_data, 'i')
        else if Word(gameData, 0) != length - 4 then Err(AssertionError)
        else Ok(gameData[4..])
  }

  /** The container's trailer, in the words of its layout. */
  predicate WellFormedTrailer(bytes: seq<byte>)
  {
    var size := |bytes|;
    size >= 8 &&
    var length := Word(bytes, size - 8);
    && Word(bytes, size - 4) == EndMarker
    && 4 <= length && length + 16 <= size
    && Word(bytes, size - length - 16) == StartMarker
    && Word(bytes, size - length - 8) == length - 4
  }

  lemma PairSizes()
    ensures AlignedFrom(Pair, 0) && NativeSize(Pair) == 8 && StandardSize(Pair) == 8
  {
    assert Pair[1..] == [Int32];
    NativeEndAtLeast(Pair, 0);
    assert StandardSize(Pair) == 4 + StandardSize([Int32]);
    assert StandardSize([Int32]) == 4 + StandardSize([]);
  }

  /** `read_data_fmt(f, 'ii')` at `pos`: the two words there, or an AssertionError past the end. */
  lemma ReadPair(bytes: seq<byte>, pos: nat)
    ensures pos + 8 > |bytes| ==> ReadFmtAt(bytes, pos, Pair) == Err(AssertionError)
    ensures pos + 8 <= |bytes| ==> ReadFmtAt(bytes, pos, Pair) == Ok([Word(bytes, pos), Word(bytes, pos + 4)])
  {
    PairSizes();
    if pos + 8 > |bytes| {
      ReadFmtAtShort(bytes, pos, Pair);
    } else {
      ReadFmtAtAligned(bytes, pos, Pair);
      var b := bytes[pos..pos + 8];
      assert Pair[1..] == [Int32];
      assert b[..4] == bytes[pos..pos + 4] && b[4..][..4] == bytes[pos + 4..pos + 8] && b[4..][4..] == [];
      assert Unpack(b, Pair) == [Word(bytes, pos)] + Unpack(b[4..], [Int32]);
      assert Unpack(b[4..], [Int32]) == [Word(bytes, pos + 4)] + Unpack(b[8..], []);
      assert Unpack(b, Pair) == [Word(bytes, pos), Word(bytes, pos + 4)];
    }
  }

  /** `parse_fmt(data, 'i')`: the first word, or a struct.error on fewer than four bytes. */
  lemma ParseWord(data: seq<byte>)
    ensures |data| < 4 ==> ParseFmt(data, [Int32]) == Err(StructError)
    ensures |data| >= 4 ==> ParseFmt(data, [Int32]) == Ok([Word(data, 0)])
  {
    assert StandardSize([Int32]) == 4 + StandardSize([]);
    assert AlignedFrom([Int32], 0) by {
      assert [Int32][1..] == [];
    }
    ParseFmtAligned(data, [Int32]);
    if |data| >= 4 {
      var w := data[..4];
      assert w[..4] == data[0..4] && [Int32][0] == Int32 && [Int32][1..] == [];
      assert Unpack(w, [Int32]) == [FieldValue(w[..4], Int32)] + Unpack(w[4..], []);
      assert Unpack(w, [Int32]) == [Word(data, 0)];
    }
  }

  lemma Unsigned4(w: seq<byte>)
    requires |w| == 4
    ensures Unsigned(w) == w[0] as int + 256 * w[1] as int + 65536 * w[2] as int + 16777216 * w[3] as int
  {
    var w1, w2, w3 := w[1..], w[1..][1..], w[1..][1..][1..];
    assert w3[1..] == [];
    assert Unsigned(w3) == w[3] as int;
    assert Unsigned(w2) == w[2] as int + 256 * w[3] as int;
    assert Unsigned(w1) == w[1] as int + 256 * Unsigned(w2);
  }

  /** A word holding a value in [-256, -1]: its low byte is `v + 256`, its other bytes are 0xff. */
  lemma SmallNegativeWord(w: seq<byte>)
    requires |w| == 4 && -256 <= Signed(w) < 0
    ensures w[0] == Signed(w) + 256 && w[1] == 255 && w[2] == 255 && w[3] == 255
  {
    Unsigned4(w);
    assert Pow256(4) == 4294967296;
  }

  /**
   * A word that starts one to three bytes before the end marker takes the marker's low byte
   * 0xfe as one of its upper bytes, so it cannot hold a value in [-256, -1].
   */
  lemma OverlapsEndMarker(bytes: seq<byte>, a: nat)
    requires |bytes| >= 7 && |bytes| - 7 <= a <= |bytes| - 5 && Word(bytes, |bytes| - 4) == EndMarker
    ensures Word(bytes, a) < -256 || Word(bytes, a) >= 0
  {
    var size := |bytes|;
    if -256 <= Word(bytes, a) < 0 {
      SmallNegativeWord(bytes[size - 4..size]);
      SmallNegativeWord(bytes[a..a + 4]);
    }
  }

  lemma WordOfSuffix(bytes: seq<byte>, a: nat)
    requires a + 4 <= |bytes|
    ensures Word(bytes[a..], 0) == Word(bytes, a)
  {
    assert bytes[a..][0..4] == bytes[a..a + 4];
  }

  lemma WordOfSlice(bytes: seq<byte>, a: nat, b: nat)
    requires a + 4 <= b <= |bytes|
    ensures Word(bytes[a..b], 0) == Word(bytes, a)
  {
    assert bytes[a..b][0..4] == bytes[a..a + 4];
  }

  /**
   * A negative trailer length never gets through: past the start-marker read it makes
   * `read(length)` return the last `length + 8` bytes, whose first word is the end marker
   * (length -4) or overlaps it (-3 to -1), and so cannot equal `length - 4`.
   */
  lemma NegativeLengthFails(bytes: seq<byte>)
    requires |bytes| >= 8 && Word(bytes, |bytes| - 8) < 0
    ensures Probe(bytes).Err?
  {
    var size := |bytes|;
    var length := Word(bytes, size - 8);
    var start := size - (length + 16);
    if Word(bytes, size - 4) == EndMarker && start >= 0 && start + 8 <= size {
      var a := start + 8;
      var gameData := ReadAt(bytes, a, length);
      assert gameData == bytes[a..] && |gameData| == length + 8;
      if |gameData| >= 4 {
        WordOfSuffix(bytes, a);
        if length == -4 {
          assert a == size - 4;
        } else {
          OverlapsEndMarker(bytes, a);
        }
        assert Word(gameData, 0) != length - 4;
      }
    }
  }

  /**
   * The probe succeeds exactly on a well-formed trailer: end marker -2 in the last word, the
   * length word before it at least 4 and leaving room for the 16 bytes of words, start marker
   * -1 at `size - length - 16`, and the redundant length `length - 4` at `size - length - 8`
   * (the version word in between is not looked at). The markup is then
   * `file[size - length - 4 : size - 8]`.
   */
  lemma ProbeLayout(bytes: seq<byte>)
    ensures Probe(bytes).Ok? <==> WellFormedTrailer(bytes)
    ensures Probe(bytes).Ok? ==>
              Probe(bytes).value == bytes[|bytes| - Word(bytes, |bytes| - 8) - 4..|bytes| - 8]
  {
    var size := |bytes|;
    if size >= 8 {
      var length := Word(bytes, size - 8);
      if length < 0 {
        NegativeLengthFails(bytes);
      } else if length + 16 <= size {
        var gameData := ReadAt(bytes, size - length - 8, length);
        assert gameData == bytes[size - length - 8..size - 8];
        if |gameData| >= 4 {
          WordOfSlice(bytes, size - length - 8, size - 8);
          assert gameData[4..] == bytes[size - length - 4..size - 8];
        }
      }
    }
  }

  /** A container built as the layout says. */
  function Container(prefix: seq<byte>, version: int, markup: seq<byte>): (r: seq<byte>)
    requires FitsSigned(version, 4) && FitsSigned(|markup| + 4, 4)
  {
    PairSizes();
    assert Pow256(4) == 4294967296;
    prefix + Encode(StartMarker, 4) + Encode(version, 4) + Encode(|markup|, 4) + markup
      + Encode(|markup| + 4, 4) + Encode(EndMarker, 4)
  }

  /** The words of a container are where its trailer says. */
  lemma ContainerLayout(prefix: seq<byte>, version: int, markup: seq<byte>)
    requires FitsSigned(version, 4) && FitsSigned(|markup| + 4, 4)
    ensures var bytes := Container(prefix, version, markup);
            && WellFormedTrailer(bytes)
            && bytes[|bytes| - Word(bytes, |bytes| - 8) - 4..|bytes| - 8] == markup
  {
    assert Pow256(4) == 4294967296;
    var bytes := Container(prefix, version, markup);
    var size := |bytes|;
    var length := |markup| + 4;
    var p := |prefix|;
    assert size == p + 20 + |markup|;
    assert bytes[size - 8..size - 4] == Encode(length, 4);
    assert bytes[size - 4..size] == Encode(EndMarker, 4);
    assert bytes[p..p + 4] == Encode(StartMarker, 4);
    assert bytes[p + 8..p + 12] == Encode(|markup|, 4);
    assert bytes[p + 12..p + 12 + |markup|] == markup;
    EncodeSigned(length, 4);
    EncodeSigned(EndMarker, 4);
    EncodeSigned(StartMarker, 4);
    EncodeSigned(|markup|, 4);
    assert Word(bytes, size - 8) == length;
  }

  /** The probe recovers the markup of any container, whatever precedes it and whatever its version. */
  lemma ProbeRoundTrip(prefix: seq<byte>, version: int, markup: seq<byte>)
    requires FitsSigned(version, 4) && FitsSigned(|markup| + 4, 4)
    ensures Probe(Container(prefix, version, markup)) == Ok(markup)
  {
    ContainerLayout(prefix, version, markup);
    ProbeLayout(Container(prefix, version, markup));
  }

  /** `read_data_fmt(f, 'ii')`, unpacked into its two words. */
  method ReadWordPair(f: Reader) returns (res: Result<(int, int)>)
    modifies f
    ensures old(f.pos) + 8 > |f.bytes| ==> res == Err(AssertionError)
    ensures old(f.pos) + 8 <= |f.bytes| ==>
              && res.Ok? && res.value.0 == Word(f.bytes, old(f.pos)) && res.value.1 == Word(f.bytes, old(f.pos) + 4)
              && f.pos == old(f.pos) + 8
  {
    PairSizes();
    ReadPair(f.bytes, f.pos);
    var words :- ReadDataFmt(f, Pair);
    return Ok((words[0], words[1]));
  }

  class Demuxer {
    /** The file or the socket the packets are read from. */
    const source: Reader
    /** Replay files store client and length swapped; the socket does not. */
    const swapped: bool
    /** `game_info` of a file demuxer; a socket demuxer has none. */
    const gameInfo: Option<Tree>

    /** `SocketDemuxer(socket)`. */
    constructor Socket(socket: Reader)
      ensures source == socket && !swapped && gameInfo == None
    {
      source := socket;
      swapped := false;
      gameInfo := None;
    }

    constructor File(input: Reader, info: Tree)
      ensures source == input && swapped && gameInfo == Some(info)
    {
      source := input;
      swapped := true;
      gameInfo := Some(info);
    }

    /**
     * `FileDemuxer(input_file, forced_version)`. A truthy forced version reads nothing and
     * builds the game information from it. Otherwise the trailer is probed and, when it is
     * well formed, the game information is `load` of its markup and the cursor is back at 0.
     */
    static method OpenFile(input: Reader, forcedVersion: Option<string>, load: seq<byte> -> Tree)
      returns (res: Result<Demuxer>)
      modifies input
      ensures res.Ok? ==> fresh(res.value) && res.value.source == input && res.value.swapped
      ensures Truthy(forcedVersion) ==>
                && res.Ok? && res.value.gameInfo == Some(ForcedGameInfo(forcedVersion.value))
                && input.pos == old(input.pos)
      ensures !Truthy(forcedVersion) ==>
                && (res.Ok? <==> Probe(input.bytes).Ok?)
                && (res.Err? ==> res.error == Probe(input.bytes).error)
                && (res.Ok? ==> res.value.gameInfo == Some(load(Probe(input.bytes).value)) && input.pos == 0)
    {
      if Truthy(forcedVersion) {
        var d := new Demuxer.File(input, ForcedGameInfo(forcedVersion.value));
        return Ok(d);
      }
      ghost var bytes := input.bytes;
      ghost var size := |bytes|;
      var atEnd :- input.Seek(-8, FromEnd);
      var trailer := ReadWordPair(input);
      assert trailer.Ok?;
      var (length, endMarker) := trailer.value;
      if endMarker != EndMarker {
        assert Probe(bytes) == Err(BadEndMarker(endMarker));
        return Err(BadEndMarker(endMarker));
      }
      var atStart :- input.Seek(-(length + 16), FromCurrent);
      var header :- ReadWordPair(input);
      var startMarker := header.0;
      if startMarker != StartMarker {
        assert Probe(bytes) == Err(BadStartMarker(startMarker));
        return Err(BadStartMarker(startMarker));
      }
      var gameData := input.Read(length);
      ParseWord(gameData);
      var inner :- ParseFmt(gameData, [Int32]);
      if inner[0] != length - 4 {
        assert Probe(bytes) == Err(AssertionError);
        return Err(AssertionError);
      }
      var gameYaml := Drop(gameData, 4);
      assert Probe(bytes) == Ok(gameYaml);
      var rewound := input.Seek(0, FromStart);
      var d := new Demuxer.File(input, load(gameYaml));
      return Ok(d);
    }

    /** `_read_packet`: one frame, replay layout for a file, received layout for a socket. */
    method ReadPacket() returns (res: Result<Option<Packet>>)
      modifies source
      ensures res == Frame(old(source.Remaining()), swapped).0
      ensures source.pos == old(source.pos) + Frame(old(source.Remaining()), swapped).1
    {
      if swapped {
        res := FromFile(source, true);
      } else {
        res := FromSocket(source);
      }
    }

    /**
     * `read_packet`: frames until one is None. The generator yields each packet as it is read;
     * here they are collected, together with the exception that ended the loop, if any.
     */
    method ReadPackets() returns (packets: seq<Packet>, failure: Option<Error>)
      modifies source
      ensures var d := Demux(old(source.Remaining()), swapped);
              packets == d.0 && failure == d.1 && source.pos == old(source.pos) + d.2
    {
      packets := [];
      ghost var start, d := source.pos, Demux(source.Remaining(), swapped);
      ghost var left := source.Remaining();
      while true
        invariant left == source.Remaining() && start <= source.pos
        invariant d.0 == packets + Demux(left, swapped).0
        invariant d.1 == Demux(left, swapped).1
        invariant start + d.2 == source.pos + Demux(left, swapped).2
        decreases |left|
      {
        ghost var pos := source.pos;
        ghost var n := Frame(left, swapped).1;
        assert Rest(source.bytes, pos) == left;
        DemuxEnds(left, swapped);
        var res := ReadPacket();
        assert source.pos == pos + n;
        RestAdvance(source.bytes, pos, n);
        assert source.Remaining() == Rest(source.bytes, pos + n);
        if res.Err? {
          return packets, Some(res.error);
        }
        if res.value.None? {
          return packets, None;
        }
        DemuxAdvance(packets, left, swapped);
        left := left[n..];
        packets := packets + [res.value.value];
      }
    }
  }
}
