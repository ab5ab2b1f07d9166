/**
 * The decoder's state machine (`Decoder` in decoder.py): it turns a packet's payload into an
 * order, locks the orders version the first handshake announces, and keeps the client-name
 * registry that every SyncInfo replaces.
 */
module Decoders {
  import opened Wrappers
  import opened Bytes
  import opened Markup
  import opened Orders
  import opened Packets
  import opened OrderLayouts

  // ---------------------------------------------------------------------------------------
  // The client-name registry

  const ClientPrefix: string := "Client@"

  /** The id an entry of the sync info declares: `int(client[len('Client@'):])` for a 'Client@' key. */
  function ClientId(client: string, env: Env): (r: Option<Result<int>>)
    ensures r.None? <==> !StartsWith(client, ClientPrefix)
    ensures r.Some? && r.value.Err? ==> r.value.error == ValueError
    ensures StartsWith(client, ClientPrefix) && env.toInt(client[|ClientPrefix|..]).None? ==> r == Some(Err(ValueError))
    ensures StartsWith(client, ClientPrefix) && env.toInt(client[|ClientPrefix|..]).Some? ==>
              r == Some(Ok(env.toInt(client[|ClientPrefix|..]).value))
  {
    if !StartsWith(client, ClientPrefix) then None
    else
      match env.toInt(client[|ClientPrefix|..])
      case None => Some(Err(ValueError))
      case Some(id) => Some(Ok(id))
  }

  /** One turn of the loop of `_get_client_names`: other keys are skipped, a client is (re)bound to its 'Name'. */
  function AddClient(names: map<int, Tree>, entry: (string, Tree), env: Env): (r: Result<map<int, Tree>>)
    ensures ClientId(entry.0, env).None? ==> r == Ok(names)
    ensures r.Ok? && ClientId(entry.0, env).Some? ==>
              && ClientId(entry.0, env).value.Ok?
              && var id := ClientId(entry.0, env).value.value;
                 Get(entry.1, "Name").Ok? && r.value == names[id := Get(entry.1, "Name").value]
  {
    match ClientId(entry.0, env)
    case None => Ok(names)
    case Some(id) =>
      var clientId :- id;
      var clientName :- Get(entry.1, "Name");
      Ok(names[clientId := clientName])
  }

  /** The map `_get_client_names` has built after the given entries, or the exception it raised. */
  function ClientNames(entries: seq<(string, Tree)>, env: Env): Result<map<int, Tree>>
    decreases |entries|
  {
    if entries == [] then Ok(map[])
    else
      var names :- ClientNames(entries[..|entries| - 1], env);
      AddClient(names, entries[|entries| - 1], env)
  }

  /** `_get_client_names(sync_info)`: a raw (bytes) value has no `items()`. */
  function ClientNamesOf(syncInfo: Value, env: Env): (r: Result<map<int, Tree>>)
    ensures syncInfo.Raw? ==> r == Err(AttributeError)
    ensures syncInfo.Doc? ==> r == if syncInfo.tree.Leaf? then Err(AttributeError) else ClientNames(syncInfo.tree.entries, env)
  {
    match syncInfo
    case Raw(_) => Err(AttributeError)
    case Doc(tree) =>
      var items :- Items(tree);
      ClientNames(items, env)
  }

  /** Entry `j` is a client entry with id `id`. */
  predicate DeclaresId(entries: seq<(string, Tree)>, j: int, id: int, env: Env)
    requires 0 <= j < |entries|
  {
    ClientId(entries[j].0, env) == Some(Ok(id))
  }

  /** A client entry (re)binds its own id and leaves every other binding as it was. */
  lemma AddClientBinds(prev: map<int, Tree>, entry: (string, Tree), env: Env)
    requires AddClient(prev, entry, env).Ok?
    ensures var names := AddClient(prev, entry, env).value;
            forall id :: id in names <==> id in prev || ClientId(entry.0, env) == Some(Ok(id))
    ensures var names := AddClient(prev, entry, env).value;
            forall id :: id in prev && ClientId(entry.0, env) != Some(Ok(id)) ==> names[id] == prev[id]
    ensures var names := AddClient(prev, entry, env).value;
            forall id :: ClientId(entry.0, env) == Some(Ok(id)) ==> Get(entry.1, "Name") == Ok(names[id])
  {
  }

  /** The registry holds exactly the ids that client entries declare. */
  lemma {:induction false} ClientNamesDomain(entries: seq<(string, Tree)>, env: Env)
    requires ClientNames(entries, env).Ok?
    ensures var names := ClientNames(entries, env).value;
            forall id :: id in names <==> exists j :: 0 <= j < |entries| && DeclaresId(entries, j, id, env)
    decreases |entries|
  {
    if entries != [] {
      var n := |entries| - 1;
      var init := entries[..n];
      ClientNamesDomain(init, env);
      var prev := ClientNames(init, env).value;
      AddClientBinds(prev, entries[n], env);
      var names := ClientNames(entries, env).value;
      forall id
        ensures id in names <==> exists j :: 0 <= j < |entries| && DeclaresId(entries, j, id, env)
      {
        assert names == AddClient(prev, entries[n], env).value;
        if id in names && id !in prev {
          assert DeclaresId(entries, n, id, env);
        }
        if id in prev {
          var j :| 0 <= j < n && DeclaresId(init, j, id, env);
          assert init[j] == entries[j];
          assert DeclaresId(entries, j, id, env);
        }
        if exists j :: 0 <= j < |entries| && DeclaresId(entries, j, id, env) {
          var j :| 0 <= j < |entries| && DeclaresId(entries, j, id, env);
          if j < n {
            assert init[j] == entries[j];
            assert DeclaresId(init, j, id, env);
          }
        }
      }
    }
  }

  /** Each id is bound to the 'Name' of the LAST entry declaring it. */
  lemma {:induction false} ClientNamesLastWins(entries: seq<(string, Tree)>, j: nat, id: int, env: Env)
    requires ClientNames(entries, env).Ok?
    requires j < |entries| && DeclaresId(entries, j, id, env)
    requires forall k :: j < k < |entries| ==> !DeclaresId(entries, k, id, env)
    ensures id in ClientNames(entries, env).value
    ensures Get(entries[j].1, "Name") == Ok(ClientNames(entries, env).value[id])
    decreases |entries|
  {
    var n := |entries| - 1;
    var init := entries[..n];
    var prev := ClientNames(init, env).value;
    AddClientBinds(prev, entries[n], env);
    if j < n {
      assert init[j] == entries[j];
      forall k | j < k < n
        ensures !DeclaresId(init, k, id, env)
      {
        assert !DeclaresId(entries, k, id, env);
        assert init[k] == entries[k];
      }
      ClientNamesLastWins(init, j, id, env);
      assert !DeclaresId(entries, n, id, env);
      assert ClientNames(entries, env).value == AddClient(prev, entries[n], env).value;
    }
  }

  /** Once an entry raises, the loop has raised: the error of a prefix is the error of the whole. */
  lemma {:induction false} ClientNamesErrorPersists(entries: seq<(string, Tree)>, i: nat, env: Env)
    requires i <= |entries| && ClientNames(entries[..i], env).Err?
    ensures ClientNames(entries, env).Err? && ClientNames(entries, env).error == ClientNames(entries[..i], env).error
    decreases |entries| - i
  {
    if i < |entries| {
      assert entries[..i + 1][..i] == entries[..i];
      ClientNamesErrorPersists(entries, i + 1, env);
    } else {
      assert entries[..i] == entries;
    }
  }

  // ---------------------------------------------------------------------------------------
  // The state machine, as a function of the state

  /** The state `decode_packet` updates. */
  datatype State = State(ordersVersion: Option<int>, clientNames: map<int, Tree>)

  /** What decoding one payload yields (nothing, one order, or an exception) and the state after it. */
  datatype Outcome = Outcome(result: Result<Option<Order>>, state: State)

  /** The order whose value replaces the registry: a Handshake or a Fields order named SyncInfo. */
  predicate IsSyncInfo(order: Order)
  {
    (order.Handshake? && order.key == SyncInfo) || (order.Fields? && order.field == SyncInfo)
  }

  /**
   * The state updates after an order is decoded. A handshake sets the version only while none is
   * known; a SyncInfo handshake passes its value, a SyncInfo Fields order its `info['target']`
   * (KeyError when absent), to `_get_client_names`, whose result replaces the registry.
   */
  function Apply(s: State, order: Order, env: Env): (o: Outcome)
    ensures s.ordersVersion.Some? ==> o.state.ordersVersion == s.ordersVersion
    ensures o.state.ordersVersion != s.ordersVersion ==> order.Handshake? && o.state.ordersVersion == order.ordersVersion
    ensures !IsSyncInfo(order) ==> o.result == Ok(Some(order)) && o.state.clientNames == s.clientNames
    ensures o.result.Err? ==> o.state.clientNames == s.clientNames
    ensures o.result.Ok? ==> o.result == Ok(Some(order))
    ensures order.Handshake? && s.ordersVersion.None? ==> o.state.ordersVersion == order.ordersVersion
    ensures order.Fields? && IsSyncInfo(order) && order.info.targetString.None? ==> o.result == Err(KeyError)
    ensures order.Fields? && IsSyncInfo(order) && order.info.targetString.Some? && ClientNamesOf(order.info.targetString.value, env).Err? ==>
              o.result == Err(ClientNamesOf(order.info.targetString.value, env).error)
    ensures order.Handshake? && IsSyncInfo(order) && ClientNamesOf(order.value, env).Err? ==>
              o.result == Err(ClientNamesOf(order.value, env).error)
  {
    match order
    case Handshake(key, value, version) =>
      var s1 := if s.ordersVersion.None? then s.(ordersVersion := version) else s;
      if key == SyncInfo then
        match ClientNamesOf(value, env)
        case Err(e) => Outcome(Err(e), s1)
        case Ok(names) => Outcome(Ok(Some(order)), s1.(clientNames := names))
      else
        Outcome(Ok(Some(order)), s1)
    case Fields(field, info) =>
      if field == SyncInfo then
        match info.targetString
        case None => Outcome(Err(KeyError), s)
        case Some(target) =>
          match ClientNamesOf(target, env)
          case Err(e) => Outcome(Err(e), s)
          case Ok(names) => Outcome(Ok(Some(order)), s.(clientNames := names))
      else
        Outcome(Ok(Some(order)), s)
    case _ => Outcome(Ok(Some(order)), s)
  }

  /**
   * `decode_packet` on a payload: an empty payload yields nothing; otherwise exactly one order
   * is decoded from it, with the version known so far, and whatever follows that order is dropped.
   */
  function Step(s: State, data: seq<byte>, env: Env): (o: Outcome)
    ensures data == [] ==> o.result == Ok(None) && o.state == s
  {
    if data == [] then Outcome(Ok(None), s)
    else
      match DecodeOrder(data, s.ordersVersion, env)
      case Err(e) => Outcome(Err(e), s)
      case Ok(order) => Apply(s, order, env)
  }

  /** An order is yielded only when the payload is not empty and decodes, with the known version, to it. */
  lemma StepDecodes(s: State, data: seq<byte>, env: Env)
    requires Step(s, data, env).result.Ok? && Step(s, data, env).result.value.Some?
    ensures data != [] && DecodeOrder(data, s.ordersVersion, env).Ok?
    ensures DecodeOrder(data, s.ordersVersion, env).value == Step(s, data, env).result.value.value
  {
  }

  /** A payload that decodes to an order has the effect `Apply` gives that order. */
  lemma StepApplies(s: State, data: seq<byte>, env: Env)
    requires data != [] && DecodeOrder(data, s.ordersVersion, env).Ok?
    ensures var o := Apply(s, DecodeOrder(data, s.ordersVersion, env).value, env);
            Step(s, data, env).result == o.result && Step(s, data, env).state == o.state
  {
  }

  /** The state after decoding a series of payloads, each with the state the previous ones left. */
  function Run(s: State, payloads: seq<seq<byte>>, env: Env): State
    decreases |payloads|
  {
    if payloads == [] then s else Run(Step(s, payloads[0], env).state, payloads[1..], env)
  }

  /** `_orders_version` is assigned only while it is None: once known it never changes. */
  lemma VersionLocked(s: State, data: seq<byte>, env: Env)
    requires s.ordersVersion.Some?
    ensures Step(s, data, env).state.ordersVersion == s.ordersVersion
  {
  }

  /** ... over any number of packets. */
  lemma {:induction false} VersionLockedRun(s: State, payloads: seq<seq<byte>>, env: Env)
    requires s.ordersVersion.Some?
    ensures Run(s, payloads, env).ordersVersion == s.ordersVersion
    decreases |payloads|
  {
    if payloads != [] {
      VersionLocked(s, payloads[0], env);
      VersionLockedRun(Step(s, payloads[0], env).state, payloads[1..], env);
    }
  }

  /**
   * The version only ever comes from a handshake: when it changes, the payload decoded (with
   * the unknown version) to a Handshake order carrying the new version, which is not None.
   */
  lemma VersionFromHandshake(s: State, data: seq<byte>, env: Env)
    requires Step(s, data, env).state.ordersVersion != s.ordersVersion
    ensures s.ordersVersion.None? && data != []
    ensures var r := DecodeOrder(data, None, env);
            r.Ok? && r.value.Handshake? && r.value.ordersVersion == Step(s, data, env).state.ordersVersion
  {
  }

  /**
   * How the decoder learns its version: a HandshakeResponse order (type 0xfe) seen while the
   * version is unknown sets it to the `OrdersProtocol` entry of its 'Handshake' document, or
   * leaves it None when the entry is absent; when that entry cannot be read the payload fails
   * with the same error.
   */
  lemma VersionFromResponse(s: State, value: seq<byte>, tail: seq<byte>, env: Env)
    requires s.ordersVersion.None?
    ensures var data := [0xfe] + HandshakeBytes(HandshakeResponse, value, tail);
            var announced := HandshakeVersion(HandshakeResponse, DecodeTargetString(HandshakeResponse, value, env), env);
            && (announced.Ok? ==> Step(s, data, env).result.Ok? && Step(s, data, env).state.ordersVersion == announced.value)
            && (announced.Err? ==> Step(s, data, env).result == Err(announced.error))
  {
    var data := [0xfe] + HandshakeBytes(HandshakeResponse, value, tail);
    assert data[1..] == HandshakeBytes(HandshakeResponse, value, tail);
    DispatchHandshake(data, None, env);
    HandshakeRoundTrip(HandshakeResponse, value, tail, env);
  }

  /**
   * The registry is replaced wholesale: after a SyncInfo order it is the map built from that
   * order's value alone, whatever it held before; any other order leaves it unchanged.
   */
  lemma NamesReplaced(s: State, order: Order, env: Env)
    requires Apply(s, order, env).result.Ok?
    ensures var names := Apply(s, order, env).state.clientNames;
            && (!IsSyncInfo(order) ==> names == s.clientNames)
            && (order.Handshake? && IsSyncInfo(order) ==> ClientNamesOf(order.value, env) == Ok(names))
            && (order.Fields? && IsSyncInfo(order) ==>
                  order.info.targetString.Some? && ClientNamesOf(order.info.targetString.value, env) == Ok(names))
  {
  }

  // ---------------------------------------------------------------------------------------
  // Frame times

  /** A duration as the `mm:ss.mmm` fields `get_frame_time` prints. */
  datatype Clock = Clock(minutes: int, seconds: int, millis: int)

  // ---------------------------------------------------------------------------------------
  // The decoder object

  class Decoder {
    var ordersVersion: Option<int>
    var clientNames: map<int, Tree>
    const gameInfo: Tree
    const gameVersion: Tree
    const env: Env

    /** Milliseconds per tick (red alert's default game speed). */
    const timeStep: int := 40
    /** Ticks per network frame. */
    const orderLatency: int := 3

    constructor (gameInfo: Tree, gameVersion: Tree, env: Env)
      ensures this.gameInfo == gameInfo && this.gameVersion == gameVersion && this.env == env
      ensures ordersVersion.None? && clientNames == map[]
    {
      this.gameInfo := gameInfo;
      this.gameVersion := gameVersion;
      this.env := env;
      ordersVersion := None;
      clientNames := map[];
    }

    /** `Decoder(game_info)`: the version is `game_info['Root']['Version']`; no orders version, no clients. */
    static method Create(gameInfo: Tree, env: Env) returns (res: Result<Decoder>)
      ensures res.Ok? <==> Get(gameInfo, "Root").Ok? && Get(Get(gameInfo, "Root").value, "Version").Ok?
      ensures res.Err? && Get(gameInfo, "Root").Err? ==> res.error == Get(gameInfo, "Root").error
      ensures res.Err? && Get(gameInfo, "Root").Ok? ==> res.error == Get(Get(gameInfo, "Root").value, "Version").error
      ensures res.Ok? ==>
                && fresh(res.value) && res.value.gameInfo == gameInfo && res.value.env == env
                && res.value.gameVersion == Get(Get(gameInfo, "Root").value, "Version").value
                && res.value.ordersVersion.None? && res.value.clientNames == map[]
    {
      var root :- Get(gameInfo, "Root");
      var version :- Get(root, "Version");
      var d := new Decoder(gameInfo, version, env);
      return Ok(d);
    }

    function Current(): State
      reads this
    {
      State(ordersVersion, clientNames)
    }

    /** `_get_client_names(sync_info)`: the loop over `sync_info.items()`. */
    static method GetClientNames(syncInfo: Value, env: Env) returns (res: Result<map<int, Tree>>)
      ensures res == ClientNamesOf(syncInfo, env)
    {
      if syncInfo.Raw? {
        return Err(AttributeError);
      }
      var items :- Items(syncInfo.tree);
      var clientNames: map<int, Tree> := map[];
      for i := 0 to |items|
        invariant ClientNames(items[..i], env).Ok? && ClientNames(items[..i], env).value == clientNames
      {
        assert items[..i + 1][..i] == items[..i];
        var (client, clientData) := items[i];
        if !StartsWith(client, ClientPrefix) {
          continue;
        }
        var parsed := env.toInt(client[|ClientPrefix|..]);
        if parsed.None? {
          ClientNamesErrorPersists(items, i + 1, env);
          return Err(ValueError);
        }
        var clientName := Get(clientData, "Name");
        if clientName.Err? {
          ClientNamesErrorPersists(items, i + 1, env);
          return Err(clientName.error);
        }
        clientNames := clientNames[parsed.value := clientName.value];
      }
      assert items[..|items|] == items;
      return Ok(clientNames);
    }

    /**
     * `decode_packet(pkt)`: the `while data` loop runs at most once, because the order consumes
     * all of `data` (`data = data[len(data):]`). The state is updated before the order is yielded.
     */
    method DecodePacket(pkt: Packet) returns (res: Result<Option<Order>>)
      modifies this
      ensures var o := Step(old(Current()), pkt.data, env);
              res == o.result && ordersVersion == o.state.ordersVersion && clientNames == o.state.clientNames
    {
      ghost var o := Step(Current(), pkt.data, env);
      var data := pkt.data;
      res := Ok(None);
      while data != []
        invariant data == pkt.data ==> res == Ok(None) && Current() == old(Current())
        invariant data != pkt.data ==> data == [] && res == o.result && Current() == o.state
        decreases |data|
      {
        var order :- DecodeOrder(data, ordersVersion, env);
        match order {
          case Handshake(key, value, version) =>
            if ordersVersion.None? {
              ordersVersion := version;
            }
            if key == SyncInfo {
              clientNames :- GetClientNames(value, env);
            }
          case Fields(field, info) =>
            if field == SyncInfo {
              if info.targetString.None? {
                return Err(KeyError);
              }
              clientNames :- GetClientNames(info.targetString.value, env);
            }
          case _ =>
        }
        data := data[|data|..];
        res := Ok(Some(order));
      }
    }

    /** `get_name(client_id)`: a KeyError for an id the registry does not hold. */
    function GetName(clientId: int): (r: Result<Tree>)
      reads this
      ensures r.Ok? <==> clientId in clientNames
      ensures r.Ok? ==> r.value == clientNames[clientId]
      ensures r.Err? ==> r.error == KeyError
    {
      if clientId in clientNames then Ok(clientNames[clientId]) else Err(KeyError)
    }

    /**
     * `get_frame_time(frame_id)`: the frame's start, `frame_id * order_latency * time_step`
     * milliseconds, split into minutes, seconds below 60 and milliseconds below 1000 (Python's
     * `//` and `%` floor, so a negative frame gives negative minutes and in-range seconds).
     */
    function FrameTime(frameId: int): (c: Clock)
      ensures c.minutes * 60000 + c.seconds * 1000 + c.millis == frameId * 120
      ensures 0 <= c.seconds < 60 && 0 <= c.millis < 1000
    {
      var tick := frameId * orderLatency;
      var totalMs := tick * timeStep;
      var totalS := totalMs / 1000;
      var totalM := totalS / 60;
      Clock(totalM, totalS % 60, totalMs % 1000)
    }
  }
}
