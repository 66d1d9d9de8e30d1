/** Properties of the orchestrator that relate several of its operations, or an
    operation and the registry's counters. */
module HandlerProperties {
  import opened Wrappers
  import opened JsDate
  import opened JsText
  import opened RfidParser
  import CM = ConnectionManager
  import opened RfidHandler

  /** A datagram that arrives well-formed but does not parse, with `autoProcess` on,
      emits `rawData` then `parseError`, returns `null`, leaves the cache alone, and
      updates the registry twice: once for the datum, once for the error. */
  lemma FailedAutoProcessTrace(s: State, d: Datagram, now: Time)
    requires s.autoProcess && Truthy(d.data) && Truthy(d.ip)
    requires Parse(s.parser, Some(d), now).None?
    ensures var r := HandleTcpData(s, Some(d), now);
      && r.events == [RawData(d), ParseError(d)]
      && r.result == Null
      && r.state.lastProcessed == s.lastProcessed
      && r.state.registry == CM.UpdateClientDataStats(
           CM.UpdateClientDataStats(s.registry, d.ip, true, now).registry, d.ip, false, now).registry
  {
    var counted := CM.UpdateClientDataStats(s.registry, d.ip, true, now).registry;
    var later := ProcessData(s.(registry := counted), Some(d), now);
    assert later.events == [ParseError(d)];
  }

  /** So such a datagram counts both a datum and an error for its address. */
  lemma FailedAutoProcessCountsBoth(s: State, d: Datagram, now: Time)
    requires s.autoProcess && Truthy(d.data) && Truthy(d.ip)
    requires Parse(s.parser, Some(d), now).None?
    ensures d.ip in HandleTcpData(s, Some(d), now).state.registry.clients
    ensures HandleTcpData(s, Some(d), now).state.registry.clients[d.ip].stats ==
      CM.Stats(Some(CM.Tally(CM.StatsOf(s.registry, d.ip).dataReceived) + 1),
               Some(CM.Tally(CM.StatsOf(s.registry, d.ip).errors) + 1))
  {
    FailedAutoProcessTrace(s, d, now);
    CountedTwice(s, d, now, HandleTcpData(s, Some(d), now).state.registry);
  }

  /** `DataThenErrorCountsBoth`, restated without the registry's update history, which
      keeps the callers' proof contexts small. */
  lemma CountedTwice(s: State, d: Datagram, now: Time, after: CM.Registry)
    requires after == CM.UpdateClientDataStats(CM.UpdateClientDataStats(s.registry, d.ip, true, now).registry, d.ip, false, now).registry
    ensures d.ip in after.clients
    ensures after.clients[d.ip].stats ==
      CM.Stats(Some(CM.Tally(CM.StatsOf(s.registry, d.ip).dataReceived) + 1),
               Some(CM.Tally(CM.StatsOf(s.registry, d.ip).errors) + 1))
  {
    CM.DataThenErrorCountsBoth(s.registry, d.ip, now, after);
  }

  /** Every well-formed datagram counts one datum for its address, whether it is then
      processed or not and whether it parses or not. */
  lemma ValidDataCountsDatum(s: State, d: Datagram, now: Time)
    requires Truthy(d.data) && Truthy(d.ip)
    ensures d.ip in HandleTcpData(s, Some(d), now).state.registry.clients
    ensures HandleTcpData(s, Some(d), now).state.registry.clients[d.ip].stats.dataReceived ==
      Some(CM.Tally(CM.StatsOf(s.registry, d.ip).dataReceived) + 1)
  {
    var counted := CM.UpdateClientDataStats(s.registry, d.ip, true, now).registry;
    var registry := HandleTcpData(s, Some(d), now).state.registry;
    if s.autoProcess && Parse(s.parser, Some(d), now).None? {
      FailedAutoProcessTrace(s, d, now);
      CountedTwice(s, d, now, registry);
    } else {
      assert registry == counted by {
        if s.autoProcess {
          var later := ProcessData(s.(registry := counted), Some(d), now);
          assert later.result.Some?;
        }
      }
      CountedOnce(s, d, now, registry);
    }
  }

  /** `UpdateClientDataStats` for a datum, restated about its resulting registry alone. */
  lemma CountedOnce(s: State, d: Datagram, now: Time, after: CM.Registry)
    requires after == CM.UpdateClientDataStats(s.registry, d.ip, true, now).registry
    ensures d.ip in after.clients
    ensures after.clients[d.ip].stats.dataReceived == Some(CM.Tally(CM.StatsOf(s.registry, d.ip).dataReceived) + 1)
  {
  }

  /** A connection from a new, non-empty address followed by its disconnection leaves the registry
      as it was, and reports the count one higher and then back again. */
  lemma ConnectThenDisconnect(s: State, ip: string, now: Time)
    requires Inv(s) && ip != "" && Some(ip) !in s.registry.clients
    ensures var r1 := HandleTcpStatus(s, TcpStatus(Some(ip), true), now);
      var r2 := HandleTcpStatus(r1.state, TcpStatus(Some(ip), false), now);
      && r2.state.registry == s.registry
      && r1.events + r2.events == [ConnectionStatus(ip, true, s.registry.connectionCount + 1),
                                   ConnectionStatus(ip, false, s.registry.connectionCount)]
  {
    assert Truthy(Some(ip));
    var r1 := HandleTcpStatus(s, TcpStatus(Some(ip), true), now);
    CM.AddThenRemoveRestores(s.registry, Some(ip), CM.NoPatch, now);
    assert r1.state.registry == CM.AddClient(s.registry, Some(ip), CM.NoPatch, now).registry;
  }

  /** With `autoProcess` off, handling a datagram and then processing it by hand emits
      `rawData` and then exactly one of `dataReady` and `parseError`. */
  lemma ManualAfterPassThrough(s: State, d: Datagram, now: Time)
    requires !s.autoProcess && Truthy(d.data) && Truthy(d.ip)
    ensures var r1 := HandleTcpData(s, Some(d), now);
      var r2 := ManualProcess(r1.state, Some(d), now);
      var trace := r1.events + r2.events;
      && r1.result == PassedThrough(d)
      && |trace| == 2 && trace[0] == RawData(d)
      && (trace[1].DataReady? <==> Parse(s.parser, Some(d), now).Some?)
      && (trace[1].ParseError? <==> Parse(s.parser, Some(d), now).None?)
  {
    var r1 := HandleTcpData(s, Some(d), now);
    assert r1.events == [RawData(d)] && r1.state.parser == s.parser;
    ProcessDataEmitsOne(r1.state, Some(d), now, s.parser, ManualProcess(r1.state, Some(d), now).events);
  }

  /** Processing a datagram emits exactly one event: `dataReady` when it parses and
      `parseError` when it does not. */
  lemma ProcessDataEmitsOne(s: State, raw: Option<Datagram>, now: Time, p: Parser, events: seq<Event>)
    requires raw.Some? && s.parser == p && events == ProcessData(s, raw, now).events
    ensures |events| == 1
    ensures events[0].DataReady? <==> Parse(p, raw, now).Some?
    ensures events[0].ParseError? <==> Parse(p, raw, now).None?
  {
  }

  /** A string given to `simulateDataReceive` without an address is handled as a datagram
      from 127.0.0.1 stamped now, after a `simulatedData` event. */
  lemma SimulatedStringIsLocalDatagram(s: State, hex: string, now: Time)
    ensures var d := Datagram(Some(hex), Some("127.0.0.1"), Some(now));
      var r := SimulateDataReceive(s, MockHex(hex), None, now);
      && r.events[0] == SimulatedData(d)
      && r.events[1..] == HandleTcpData(Fire(s, SimulatedData(d)), Some(d), now).events
  {
  }

  /** An empty payload from the simulator is rejected like one from the transport:
      `simulatedData`, then a single `error`, and the registry is untouched. */
  lemma SimulatedEmptyStringRejected(s: State, now: Time)
    ensures var r := SimulateDataReceive(s, MockHex(""), None, now);
      && |r.events| == 2 && r.events[0].SimulatedData? && r.events[1].Error?
      && r.result == Null && r.state.registry == s.registry
  {
  }
}
