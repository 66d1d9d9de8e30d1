/** The orchestrator (`RFIDHandler`): it owns a parser, a connection registry and the
    listeners registered on it, and reacts to datagrams and connection changes by
    updating its state and emitting events. Every operation returns the new state,
    the events it emitted in order, and its return value. */
module RfidHandler {
  import opened Wrappers
  import opened JsDate
  import opened JsText
  import opened RfidParser
  import CM = ConnectionManager
  import EE = EventEmitter

  /** A connection change reported by the transport: `{ ip, connected }`. */
  datatype TcpStatus = TcpStatus(ip: Option<string>, connected: bool)

  /** The argument of `simulateDataReceive`: a hex string, or a datagram-like object. */
  datatype Mock = MockHex(hex: string) | MockDatagram(datagram: Datagram)

  /** The constructor's options; `None` for an option not given. */
  datatype HandlerOptions = HandlerOptions(autoProcess: Option<bool>,
                                           dateFormatter: Option<Option<Time> -> string>,
                                           rfidLength: Option<int>)

  /** Why an `error` event was emitted, with the payload it carries. */
  datatype Failure =
    | InvalidTcpData(data: Option<Datagram>)
    | InvalidTcpStatus(status: TcpStatus)
    | ProcessingFailed(rawData: Option<Datagram>)

  /** An emitted event with its payload. */
  datatype Event =
    | Initialized(hasAdapter: bool, autoProcess: bool)
    | Error(failure: Failure)
    | RawData(data: Datagram)
    | ParseError(rawData: Datagram)
    | DataReady(record: Record)
    | ConnectionStatus(ip: string, connected: bool, clientsCount: int)
    | SimulatedData(data: Datagram)
    | Reset

  /** The name an event is emitted under. */
  function Name(ev: Event): string {
    match ev
    case Initialized(_, _) => "initialized"
    case Error(_) => "error"
    case RawData(_) => "rawData"
    case ParseError(_) => "parseError"
    case DataReady(_) => "dataReady"
    case ConnectionStatus(_, _, _) => "connectionStatus"
    case SimulatedData(_) => "simulatedData"
    case Reset => "reset"
  }

  /** The handler's fields: its listeners, `connectionManager`, `lastProcessedData`,
      `options.autoProcess` and `parser`. */
  datatype State = State(emitter: EE.Emitter, registry: CM.Registry, lastProcessed: Option<Record>,
                         autoProcess: bool, parser: Parser)

  /** What an operation leaves: the new state, the events in emission order, the result. */
  datatype Step<T> = Step(state: State, events: seq<Event>, result: T)

  /** The return value of `handleTcpData`: `null`, the datagram itself when it is not
      processed automatically, or the parsed record. */
  datatype DataResult = Null | PassedThrough(data: Datagram) | Processed(record: Record)

  /** What every reachable state satisfies: a valid registry, a non-zero length, and a
      cached record that is an identifier of that length. */
  ghost predicate Inv(s: State) {
    && CM.Valid(s.registry)
    && s.parser.rfidLength != 0
    && (s.lastProcessed.Some? ==>
          |s.lastProcessed.value.rfid| == s.parser.rfidLength && AllDigits(s.lastProcessed.value.rfid))
  }

  /** Emitting one event: every listener registered under its name is called. */
  function Fire(s: State, ev: Event): State {
    s.(emitter := EE.Emit(s.emitter, Name(ev)).emitter)
  }

  /** The listeners after a sequence of emissions, one after another. */
  function Replay(em: EE.Emitter, events: seq<Event>): EE.Emitter
    decreases |events|
  {
    if |events| == 0 then em else Replay(EE.Emit(em, Name(events[0])).emitter, events[1..])
  }

  /** The constructor. `autoProcess` defaults to true and `rfidLength` to 10 (0 also
      selects 10 in the parser). An adapter object always exists, so `initialized`
      reports one; it is emitted before anyone can listen, so it reaches nobody. */
  function New(options: HandlerOptions): (r: Step<bool>)
    ensures Inv(r.state)
    ensures r.state.autoProcess == options.autoProcess.GetOr(true)
    ensures r.state.parser.rfidLength ==
      if options.rfidLength.Some? && options.rfidLength.value != 0 then options.rfidLength.value else 10
    ensures r.state.parser.dateFormatter.DefaultFormatter? <==> options.dateFormatter.None?
    ensures r.state.registry == CM.NewRegistry() && r.state.lastProcessed.None?
    ensures options.dateFormatter.Some? ==> r.state.parser.dateFormatter.format == options.dateFormatter.value
    ensures r.events == [Initialized(true, r.state.autoProcess)]
    ensures !r.result && r.state.emitter == EE.NewEmitter()
  {
    var auto := options.autoProcess.GetOr(true);
    var parser := NewParser(ParserOptions(options.dateFormatter, Some(options.rfidLength.GetOr(10))));
    var s := State(EE.NewEmitter(), CM.NewRegistry(), None, auto, parser);
    var ev := Initialized(true, auto);
    var emission := EE.Emit(s.emitter, Name(ev));
    Step(s.(emitter := emission.emitter), [ev], emission.delivered)
  }

  /** `processData`. A missing datagram makes the failure path itself throw (it reads
      `rawData.ip`), so only an `error` event is emitted. A datagram that does not parse
      counts an error for its address and emits `parseError`; one that parses becomes the
      cached record and is emitted with `dataReady`. */
  function ProcessData(s: State, raw: Option<Datagram>, now: Time): (r: Step<Option<Record>>)
    ensures r.state.emitter == Replay(s.emitter, r.events)
    ensures r.state.autoProcess == s.autoProcess && r.state.parser == s.parser
    ensures r.result == Parse(s.parser, raw, now)
    ensures raw.None? ==>
      r.events == [Error(ProcessingFailed(raw))]
      && r.state.registry == s.registry && r.state.lastProcessed == s.lastProcessed
    ensures raw.Some? && r.result.None? ==>
      && r.events == [ParseError(raw.value)]
      && r.state.registry == CM.UpdateClientDataStats(s.registry, raw.value.ip, false, now).registry
      && r.state.lastProcessed == s.lastProcessed
    ensures r.result.Some? ==>
      && r.events == [DataReady(r.result.value)]
      && r.state.registry == s.registry
      && r.state.lastProcessed == r.result
    ensures Inv(s) ==> Inv(r.state)
  {
    match raw
    case None =>
      var ev := Error(ProcessingFailed(raw));
      Step(Fire(s, ev), [ev], None)
    case Some(d) =>
      match Parse(s.parser, raw, now)
      case None =>
        var registry := CM.UpdateClientDataStats(s.registry, d.ip, false, now).registry;
        var ev := ParseError(d);
        Step(Fire(s.(registry := registry), ev), [ev], None)
      case Some(record) =>
        var ev := DataReady(record);
        Step(Fire(s.(lastProcessed := Some(record)), ev), [ev], Some(record))
  }

  /** `manualProcess`: exactly `processData`. */
  function ManualProcess(s: State, raw: Option<Datagram>, now: Time): (r: Step<Option<Record>>)
    ensures r == ProcessData(s, raw, now)
  {
    ProcessData(s, raw, now)
  }

  /** `handleTcpData`. A missing datagram, payload or address emits one `error` and
      changes nothing else. Otherwise a datum is counted for the address, `rawData` is
      emitted, and then the datagram is processed when `autoProcess` is on and returned
      as it is when it is off. */
  function HandleTcpData(s: State, data: Option<Datagram>, now: Time): (r: Step<DataResult>)
    ensures r.state.emitter == Replay(s.emitter, r.events)
    ensures r.state.autoProcess == s.autoProcess && r.state.parser == s.parser
    ensures !(data.Some? && Truthy(data.value.data) && Truthy(data.value.ip)) ==>
      && r.events == [Error(InvalidTcpData(data))]
      && r.result == Null
      && r.state.registry == s.registry && r.state.lastProcessed == s.lastProcessed
    ensures data.Some? && Truthy(data.value.data) && Truthy(data.value.ip) ==>
      var d := data.value;
      var counted := CM.UpdateClientDataStats(s.registry, d.ip, true, now).registry;
      && |r.events| >= 1 && r.events[0] == RawData(d)
      && (!s.autoProcess ==>
            r.events == [RawData(d)] && r.result == PassedThrough(d)
            && r.state.registry == counted && r.state.lastProcessed == s.lastProcessed)
      && (s.autoProcess ==>
            var later := ProcessData(s.(registry := counted), data, now);
            && r.events == [RawData(d)] + later.events
            && r.state.registry == later.state.registry
            && r.state.lastProcessed == later.state.lastProcessed
            && r.result == (if later.result.Some? then Processed(later.result.value) else Null))
    ensures Inv(s) ==> Inv(r.state)
  {
    if data.None? || !Truthy(data.value.data) || !Truthy(data.value.ip) then
      var ev := Error(InvalidTcpData(data));
      Step(Fire(s, ev), [ev], Null)
    else
      var d := data.value;
      var counted := s.(registry := CM.UpdateClientDataStats(s.registry, d.ip, true, now).registry);
      var seen := Fire(counted, RawData(d));
      if !s.autoProcess then
        Step(seen, [RawData(d)], PassedThrough(d))
      else
        var later := ProcessData(seen, data, now);
        ProcessDataIgnoresEmitter(counted, seen, data, now);
        Step(later.state, [RawData(d)] + later.events,
             if later.result.Some? then Processed(later.result.value) else Null)
  }

  /** `handleTcpStatus`, which returns nothing. Without an address: one `error`, nothing
      else. Otherwise the client is added (connected) or removed (disconnected), and
      `connectionStatus` reports the count after the change. */
  function HandleTcpStatus(s: State, status: TcpStatus, now: Time): (r: Step<()>)
    ensures r.state.emitter == Replay(s.emitter, r.events)
    ensures r.state.autoProcess == s.autoProcess && r.state.parser == s.parser
    ensures r.state.lastProcessed == s.lastProcessed
    ensures !Truthy(status.ip) ==>
      r.events == [Error(InvalidTcpStatus(status))] && r.state.registry == s.registry
    ensures Truthy(status.ip) ==>
      && r.state.registry == (if status.connected then CM.AddClient(s.registry, status.ip, CM.NoPatch, now).registry
                              else CM.RemoveClient(s.registry, status.ip).registry)
      && r.events == [ConnectionStatus(status.ip.value, status.connected, CM.GetConnectionCount(r.state.registry))]
    ensures Inv(s) ==> Inv(r.state)
  {
    if !Truthy(status.ip) then
      var ev := Error(InvalidTcpStatus(status));
      var s1 := Fire(s, ev);
      Step(s1, [ev], ())
    else
      var registry := if status.connected then CM.AddClient(s.registry, status.ip, CM.NoPatch, now).registry
                      else CM.RemoveClient(s.registry, status.ip).registry;
      var ev := ConnectionStatus(status.ip.value, status.connected, CM.GetConnectionCount(registry));
      Step(Fire(s.(registry := registry), ev), [ev], ())
  }

  /** The datagram `simulateDataReceive` builds: a string becomes the payload with the
      given address (by default 127.0.0.1) and the current time; an object keeps its
      own address and timestamp when it has them. */
  function MockToDatagram(mock: Mock, ip: Option<string>, now: Time): (d: Datagram)
    ensures d.timestamp.Some?
    ensures mock.MockHex? ==> d.data == Some(mock.hex) && d.timestamp == Some(now)
    ensures mock.MockHex? || !Truthy(mock.datagram.ip) ==> d.ip == Some(ip.GetOr("127.0.0.1"))
    ensures ip.None? && (mock.MockHex? || !Truthy(mock.datagram.ip)) ==> d.ip == Some("127.0.0.1")
    ensures mock.MockDatagram? ==>
      && d.data == mock.datagram.data
      && (Truthy(mock.datagram.ip) ==> d.ip == mock.datagram.ip)
      && (mock.datagram.timestamp.Some? ==> d.timestamp == mock.datagram.timestamp)
      && (mock.datagram.timestamp.None? ==> d.timestamp == Some(now))
  {
    var address := ip.GetOr("127.0.0.1");
    match mock
    case MockHex(hex) => Datagram(Some(hex), Some(address), Some(now))
    case MockDatagram(m) =>
      Datagram(m.data, if Truthy(m.ip) then m.ip else Some(address), Some(m.timestamp.GetOr(now)))
  }

  /** `simulateDataReceive`: emits `simulatedData` with the built datagram, then handles
      it exactly as the transport's data would be. */
  function SimulateDataReceive(s: State, mock: Mock, ip: Option<string>, now: Time): (r: Step<DataResult>)
    ensures var d := MockToDatagram(mock, ip, now);
      var handled := HandleTcpData(Fire(s, SimulatedData(d)), Some(d), now);
      && r.events == [SimulatedData(d)] + handled.events
      && r.result == handled.result
      && r.state == handled.state
    ensures r.state.emitter == Replay(s.emitter, r.events)
    ensures Inv(s) ==> Inv(r.state)
  {
    var d := MockToDatagram(mock, ip, now);
    var s1 := Fire(s, SimulatedData(d));
    var handled := HandleTcpData(s1, Some(d), now);
    Step(handled.state, [SimulatedData(d)] + handled.events, handled.result)
  }

  /** `reset`, which returns nothing: no clients, no cached record, and a `reset` event. */
  function ResetHandler(s: State): (r: Step<()>)
    ensures r.events == [Reset]
    ensures r.state.registry == CM.NewRegistry()
    ensures r.state.registry.clients == map[] && CM.GetConnectionCount(r.state.registry) == 0
    ensures r.state.lastProcessed.None?
    ensures r.state.autoProcess == s.autoProcess && r.state.parser == s.parser
    ensures r.state.emitter == Replay(s.emitter, r.events)
    ensures Inv(s) ==> Inv(r.state)
  {
    var s1 := s.(registry := CM.ResetConnections(s.registry), lastProcessed := None);
    Step(Fire(s1, Reset), [Reset], ())
  }

  function GetLastProcessedData(s: State): Option<Record> {
    s.lastProcessed
  }

  /** `getClients`: the registry's entries, each with its address. */
  function GetClients(s: State): seq<CM.Entry> {
    CM.GetAllClients(s.registry)
  }

  // ---------------------------------------------------------------------------
  // Properties

  /** Processing depends on the listeners only through the events it emits. */
  lemma ProcessDataIgnoresEmitter(a: State, b: State, raw: Option<Datagram>, now: Time)
    requires a.(emitter := b.emitter) == b
    ensures ProcessData(b, raw, now).events == ProcessData(a, raw, now).events
    ensures ProcessData(b, raw, now).result == ProcessData(a, raw, now).result
    ensures ProcessData(b, raw, now).state.registry == ProcessData(a, raw, now).state.registry
    ensures ProcessData(b, raw, now).state.lastProcessed == ProcessData(a, raw, now).state.lastProcessed
  {
  }
}
