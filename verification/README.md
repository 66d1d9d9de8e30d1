# RFID pipeline core, modelled in Dafny

This project models the synchronous core of a small JavaScript RFID library (`src/core`).
It covers four components:

- **`RFIDParser`** turns a datagram `{ data, ip, timestamp }` into a record. It decodes the
  hex payload two characters at a time with `parseInt(pair, 16)` and `String.fromCharCode`,
  trims the text and drops every non-digit. It then checks that exactly `rfidLength` digits
  remain, and puts a `YYMMDD-` date prefix in front.
- **`ConnectionManager`** keeps a map from address to client record, in insertion order. Next
  to the map it keeps a connection counter that is maintained on its own.
- **`EventEmitter`** keeps an ordered list of listeners per event name. It supports `on`,
  `off` (filtering by identity), `once`, and `emit`, which takes a snapshot of the list,
  isolates faults and returns whether anyone listened.
- **`RFIDHandler`** composes the three. It reacts to data and to connection changes by
  updating its registry and its cached record, and by emitting events.

Every operation is a pure function. An orchestrator operation returns a `Step`: the new
state, the events it emitted in order, and its return value. The emitter's own state
(which `once` wrappers are still registered) is threaded through every emission.

Files:

- `wrappers.dfy`: `Option`, and the calendar date `JsDate.Time` (year, month index, day).
- `js_text.dfy`: the JavaScript primitives the parser relies on:
  - truthiness of a string;
  - `trim` with JavaScript's whitespace set;
  - `replace(/\D/g, '')`;
  - `toString`, `padStart` and `substr(-n)` on numbers;
  - `parseInt(s, 16)`: leading whitespace, sign, `0x` prefix, longest hex-digit prefix, `NaN`;
  - `String.fromCharCode`, whose argument wraps modulo 2^16 and where `NaN` gives 0.
- `rfid_parser.dfy`, `connection_manager.dfy`, `event_emitter.dfy` and `rfid_handler.dfy`:
  one module per source file.
- `handler_properties.dfy`: properties that relate several orchestrator operations.

Clocks are parameters. `now` is the value `new Date()` would produce during the operation.
Absent JavaScript properties and `undefined` arguments are `None`. A `null` argument is
`None` as well wherever the code only tests truthiness, which treats it like `undefined`.
Strings are sequences of Dafny characters, which matches JavaScript's UTF-16 strings only
for text within the Basic Multilingual Plane (see "Left out").

## Model

| member | source | states |
|---|---|---|
| `RfidParser.NewParser` | src/core/RFIDParser.js:12-15 | the default formatter is used exactly when no formatter is given; `rfidLength` is the option, or 10 when it is absent or 0, and never 0 |
| `RfidParser.DefaultLengthIsTen` | src/core/RFIDParser.js:14 | with no length option, or with 0, an identifier is valid exactly when it has 10 digits |
| `RfidParser.DefaultDateFormatterIsYYMMDD` | src/core/RFIDParser.js:22-27 | for a calendar date with a year of at least 10, the default prefix is six digits that read back as the year modulo 100, the month number (1-12) and the day |
| `RfidParser.LastTwoDigits` | src/core/RFIDParser.js:23 | `toString().substr(-2)` of a year of at least 10 is two digits worth the year modulo 100 |
| `RfidParser.TwoDigitField` | src/core/RFIDParser.js:24-25 | `toString().padStart(2, '0')` of a number below 100 is two digits worth that number |
| `RfidParser.HexToAscii` | src/core/RFIDParser.js:34-44 | the decoded text has one character per two hex characters, rounded up |
| `RfidParser.HexToAsciiPairs` | src/core/RFIDParser.js:38-41 | character i is the decoding of slice `[2i, 2i+2)`; an odd last character is decoded on its own |
| `RfidParser.DecodeSlicesPairs` | src/core/RFIDParser.js:38-41 | the same slice-by-slice law for any per-slice decoder, proved by induction over the payload |
| `RfidParser.HexToAsciiCodes` | src/core/RFIDParser.js:39-40 | every decoded code unit equals `PairCode` of its two characters (or `SingleCode` of an odd last one). `PairCode` is an independent case table: whitespace, `+`, `-` (wrapping modulo 2^16), `0x`, one or two hex digits, otherwise 0 |
| `RfidParser.DecodeUnitOfPair` | src/core/RFIDParser.js:40 | `fromCharCode(parseInt(ab, 16))` is `PairCode(a, b)` for every two characters |
| `RfidParser.DecodeUnitOfSingle` | src/core/RFIDParser.js:40 | `fromCharCode(parseInt(a, 16))` is `SingleCode(a)` for every character |
| `RfidParser.HexRoundTrip` | src/core/RFIDParser.js:34-44 | decoding the lower-case hex encoding of a byte string gives the string back |
| `RfidParser.DecodeSlicesOfEncoding` | src/core/RFIDParser.js:38-41 | the round trip for any decoder that inverts the encoding of every byte, by induction |
| `RfidParser.DecodeByte` | src/core/RFIDParser.js:40 | every byte's two-digit hex encoding decodes to that byte |
| `RfidParser.ValidateRFID` | src/core/RFIDParser.js:51-59 | valid exactly when the length equals `rfidLength`, the string is non-empty and every character is a decimal digit |
| `RfidParser.MatchesDigitRun` | src/core/RFIDParser.js:58 | `/^\d+$/` holds exactly of non-empty all-digit strings |
| `RfidParser.Parse` | src/core/RFIDParser.js:69-104 | `null` for a missing datagram, payload or address. Otherwise a record exactly when the digits of the trimmed decoded text validate. The record carries those digits, the datagram's timestamp (or now), `formatter(timestamp) + "-" + rfid`, and the input's address and payload |
| `RfidParser.ParseOfDigitPayload` | src/core/RFIDParser.js:79-99 | for any payload, including one whose decoded text holds separators or control characters, with `digits` the digits of that text: it parses exactly when `digits` has the configured length, and then yields `digits` behind the datagram's date |
| `RfidParser.ParseEncodedDigits` | src/core/RFIDParser.js:69-104 | the hex encoding of a digit string parses exactly when its length is `rfidLength`, and then gives back those digits |
| `RfidParser.DigitsSurviveEncoding` | src/core/RFIDParser.js:79-82 | decoding, trimming and stripping the encoding of a digit string leaves it unchanged |
| `RfidParser.FormatRFID` | src/core/RFIDParser.js:112-115 | the result is exactly the prefix, then the separator, then the identifier. The prefix is the given one, or the formatter's text for the current date. The separator is the given one, or `-` |
| `RfidParser.FormatRFIDReproducesParse` | src/core/RFIDParser.js:89-91 | with the default formatter and the current date, `formatRFID(rfid)` rebuilds the record's `formattedRFID` |
| `JsText.Trim` | src/core/RFIDParser.js:79 | the result is a contiguous slice of the input with no whitespace at either end |
| `JsText.TrimKeepsDigits` | src/core/RFIDParser.js:79-82 | trimming before stripping non-digits changes nothing |
| `JsText.StripNonDigits` | src/core/RFIDParser.js:82 | the result consists of digits only and contains exactly the digits of the input |
| `JsText.StripNonDigitsAppend` | src/core/RFIDParser.js:82 | stripping distributes over concatenation |
| `JsText.StripNonDigitsFixesDigits` | src/core/RFIDParser.js:82 | stripping leaves a string unchanged exactly when it is all digits |
| `JsText.DecimalRoundTrip` | src/core/RFIDParser.js:23-25 | the decimal text of a number reads back as the number |
| `JsText.PadStart` | src/core/RFIDParser.js:24-25 | the result is at least as wide as asked, ends with the input, and is filled before it |
| `JsText.SubstrFromEnd` | src/core/RFIDParser.js:23 | the last n characters, or the whole string when shorter |
| `JsText.ParseIntHexOfPair` | src/core/RFIDParser.js:40 | `parseInt` of any two characters in base 16 agrees with the case table `PairValue` |
| `JsText.ParseIntHexOfSingle` | src/core/RFIDParser.js:40 | `parseInt` of any one character in base 16 agrees with `SingleValue` |
| `JsText.ParseIntHexOfHexDigits` | src/core/RFIDParser.js:40 | on a string of hex digits `parseInt` is the base-16 value |
| `JsText.ParseIntHexSkipsWhitespace` | src/core/RFIDParser.js:40 | leading whitespace does not change `parseInt` |
| `JsText.ParseIntHexOfPairBounded` | src/core/RFIDParser.js:39-40 | a slice of at most two characters parses to a value in [-15, 255] or to `NaN` |
| `ConnectionManager.NewRegistry` | src/core/ConnectionManager.js:9-14 | an empty map and a zero count, which satisfies the registry invariant |
| `ConnectionManager.AddClient` | src/core/ConnectionManager.js:22-43 | the defaults overridden by the given info are stored under the address, other keys are untouched, the count rises by exactly one even for a known address, and the invariant is kept |
| `ConnectionManager.RemoveClient` | src/core/ConnectionManager.js:50-59 | an unknown address: `false` and no change. A known one: `true`, only that key deleted, and the count lowered by one but not below zero |
| `ConnectionManager.RemoveNeverNegative` | src/core/ConnectionManager.js:55-58 | removing, even twice, never makes a non-negative count negative |
| `ConnectionManager.AddThenRemoveRestores` | src/core/ConnectionManager.js:22-59 | adding a new address and removing it again restores the registry exactly |
| `ConnectionManager.UpdateClientStatus` | src/core/ConnectionManager.js:67-89 | an unknown address: `null` and no change. A known one: fields the update lacks keep their values, `stats` is merged key by key, `lastActive` becomes now, and nothing else changes |
| `ConnectionManager.UpdateClientDataStats` | src/core/ConnectionManager.js:97-115 | the client is created when absent. One counter rises by one, counting a missing counter as 0, and the other is unchanged. Status and connection time are kept, and the count rises only for a new client. A known address keeps its place in the insertion order and a new one is appended, as `Map.set` does |
| `ConnectionManager.DataThenErrorCountsBoth` | src/core/ConnectionManager.js:97-115 | a datum then an error for one address raises both counters by one |
| `ConnectionManager.AddThenCountBoth` | src/core/ConnectionManager.js:22-43 | adding, then counting a datum and an error, gives counters of one and one |
| `ConnectionManager.FirstDataCreatesClient` | src/core/ConnectionManager.js:98-101 | the first datum from an unknown address creates a connected record with one datum and raises the count |
| `ConnectionManager.CountDrifts` | src/core/ConnectionManager.js:22-59 | connecting one address twice and disconnecting it once leaves no record but a count of one, which still reports active connections |
| `ConnectionManager.GetClient` | src/core/ConnectionManager.js:122-124 | the record exactly when the address is known, `null` otherwise |
| `ConnectionManager.GetAllClients` | src/core/ConnectionManager.js:130-135 | every entry carries its address and that address's record; on a valid registry there is one entry per key, in insertion order |
| `ConnectionManager.HasActiveConnections` | src/core/ConnectionManager.js:149-151 | true exactly when the count is positive |
| `ConnectionManager.CountCoversClients` | src/core/ConnectionManager.js:141-151 | on a valid registry the count is at least the number of records, so any record means active connections |
| `ConnectionManager.ResetConnections` | src/core/ConnectionManager.js:156-159 | no records and a zero count |
| `EventEmitter.NewEmitter` | src/core/EventEmitter.js:5-8 | no event has listeners |
| `EventEmitter.On` | src/core/EventEmitter.js:16-22 | the handler is appended to the end of its event's list, without deduplication, and other events are untouched |
| `EventEmitter.Off` | src/core/EventEmitter.js:30-39 | unregistered event: no change. No handler: the list is emptied. A handler: the list becomes the identity filter `Remove` of that handler's `on` registration, so exactly those are dropped and the rest keep their order, and other events are untouched |
| `EventEmitter.OffUndoesOn` | src/core/EventEmitter.js:16-39 | `off` after `on` leaves the earlier list with that handler's `on` registrations filtered out, the others in order and with their duplicates; an earlier list without the handler comes back unchanged |
| `EventEmitter.OffKeepsOnceWrapper` | src/core/EventEmitter.js:30-39 | `off(e, h)` does not remove a wrapper that `once(e, h)` registered |
| `EventEmitter.Emit` | src/core/EventEmitter.js:47-62 | returns true exactly when the event has listeners. It invokes exactly the snapshot's handlers in order, whether or not some throw. Afterwards the list holds the snapshot minus the `once` wrappers whose handler returned normally |
| `EventEmitter.DispatchLeavesSurvivors` | src/core/EventEmitter.js:53-60 | running the snapshot, where each returning `once` wrapper filters itself out of the current list, leaves the reference filter `Survivors` |
| `EventEmitter.DispatchKeepsUnless` | src/core/EventEmitter.js:53-60 | the same for any current list, by induction over the snapshot |
| `EventEmitter.RemoveAllListeners` | src/core/EventEmitter.js:69-76 | a non-empty name empties only that event's list; no name or the empty name drops every list |
| `EventEmitter.RemoveAllSilences` | src/core/EventEmitter.js:47-76 | after `removeAllListeners`, emitting a cleared event calls nobody and returns false. Any other event still calls the same handlers, and a later `on` starts the cleared list afresh |
| `EventEmitter.OnceListen` | src/core/EventEmitter.js:84-90 | a wrapper is appended to the event's list and other events are untouched |
| `EventEmitter.OnceCallsOnce` | src/core/EventEmitter.js:84-90 | after `once(e, h)`, the next emission calls `h`. The one after calls it again only if it threw, since the wrapper unregisters itself only after the call |
| `EventEmitter.PlainListenersStay` | src/core/EventEmitter.js:47-62 | an event with only `on` listeners calls the same handlers on every emission |
| `EventEmitter.SurvivorsAppend` | src/core/EventEmitter.js:53-60 | surviving an emission is decided listener by listener |
| `EventEmitter.Remove` | src/core/EventEmitter.js:34 | the identity filter keeps exactly the other elements and changes nothing when the element is absent |
| `EventEmitter.RemoveAppend` | src/core/EventEmitter.js:34 | the identity filter distributes over concatenation; with the no-change case this fixes the order and multiplicity of what it keeps |
| `RfidHandler.New` | src/core/RFIDHandler.js:18-41 | `autoProcess` defaults to true and `rfidLength` to 10, each overridable. A given `dateFormatter` is the parser's formatter. The registry is a fresh one with a zero count, and the cache starts empty. One `initialized` event reports an adapter and the `autoProcess` flag, and reaches no listener |
| `RfidHandler.HandleTcpData` | src/core/RFIDHandler.js:72-94 | no datagram, payload or address: one `error`, `null`, nothing else changed. Otherwise one datum is counted and `rawData` comes first. It is followed by processing when `autoProcess` is on, and by returning the datagram unchanged when it is off |
| `RfidHandler.ProcessData` | src/core/RFIDHandler.js:129-158 | a parse failure counts an error for the address, emits `parseError`, returns `null` and keeps the cache. A success caches the record, emits `dataReady` with it and returns it. A missing datagram emits only `error` |
| `RfidHandler.ManualProcess` | src/core/RFIDHandler.js:165-167 | identical to processing |
| `RfidHandler.HandleTcpStatus` | src/core/RFIDHandler.js:100-122 | no address: one `error` and the registry untouched. Otherwise the client is added or removed according to `connected`, then `connectionStatus` reports the count after the change |
| `RfidHandler.MockToDatagram` | src/core/RFIDHandler.js:199-216 | a string becomes the payload, with the given address (by default `127.0.0.1`) and now. An object keeps its payload. It keeps its own address when truthy and otherwise takes the given address (by default `127.0.0.1`). It keeps its own timestamp when present and otherwise takes now |
| `RfidHandler.SimulateDataReceive` | src/core/RFIDHandler.js:199-220 | `simulatedData` is emitted, then the datagram is handled exactly as transport data would be |
| `RfidHandler.ResetHandler` | src/core/RFIDHandler.js:225-229 | the registry is a fresh empty one with a zero count and the cache is `null`. `autoProcess` and the parser are unchanged, and one `reset` event is emitted |
| `HandlerProperties.FailedAutoProcessTrace` | src/core/RFIDHandler.js:83-93 | a well-formed datagram that does not parse, with `autoProcess` on, emits `rawData` then `parseError`, returns `null`, keeps the cache, and updates the registry for the datum and then for the error |
| `HandlerProperties.FailedAutoProcessCountsBoth` | src/core/RFIDHandler.js:83-141 | such a datagram raises both `dataReceived` and `errors` of its address by one |
| `HandlerProperties.ValidDataCountsDatum` | src/core/RFIDHandler.js:83 | every well-formed datagram raises `dataReceived` of its address by exactly one, in both modes and whether or not it parses |
| `HandlerProperties.ManualAfterPassThrough` | src/core/RFIDHandler.js:89-93 | with `autoProcess` off, handling then processing by hand emits `rawData` and then exactly one of `dataReady` (when it parses) and `parseError` (when it does not) |
| `HandlerProperties.ProcessDataEmitsOne` | src/core/RFIDHandler.js:132-149 | processing a datagram emits exactly one event, `dataReady` or `parseError` according to the parse |
| `HandlerProperties.ConnectThenDisconnect` | src/core/RFIDHandler.js:111-121 | connecting a new address and disconnecting it restores the registry, and reports the count one higher and then back again |
| `HandlerProperties.SimulatedStringIsLocalDatagram` | src/core/RFIDHandler.js:202-208 | a simulated string without an address is handled as a datagram from `127.0.0.1` stamped now |
| `HandlerProperties.SimulatedEmptyStringRejected` | src/core/RFIDHandler.js:202-219 | a simulated empty string yields `simulatedData`, then one `error`, `null`, and an untouched registry |

## Left out

- Console logging (`console.warn`, `console.error`) is dropped. It has no effect on results.
- The adapter wiring of `initApiAdapter` (src/core/RFIDHandler.js:47-60) registers callbacks
  on a foreign object. Only the `initialized` event is modelled. `hasAdapter` is always true,
  because `apiAdapter || {}` is always an object.
- `getConnectionManager` returns the live object. It has no functional counterpart.
  `getClients`, `getLastProcessedData` and `getConnectionCount` are plain accessors
  (`GetClients`, `GetLastProcessedData`, `ConnectionManager.GetConnectionCount`) without
  contracts of their own. What the counter means is stated by `CountCoversClients`,
  `HasActiveConnections` and the contracts of the operations that change it.
- Listener side effects are left out. Handlers are identifiers with a "throws" flag. A handler
  that registers or removes listeners while an emission runs is not modelled; only the
  snapshot guarantee is.
- Two `once` wrappers around the same handler are indistinguishable in the model. JavaScript
  creates distinct closures, but no caller can name a wrapper, and each wrapper removes
  itself, so the lists after an emission agree.
- Event names that collide with properties of `Object.prototype` (such as `constructor`) are
  left out: the source keeps its listeners in a plain object.
- Event payloads other than the ones listed in `RfidHandler.Event` are left out. This covers
  the `message` strings and the caught exception's `error.message`.
- Explicit `undefined` values inside option or update objects are not modelled. For example
  `{ autoProcess: undefined }` overrides the default through the spread in the constructor.
  A property is either absent (`None`) or present with a value.
- `autoProcess` is a boolean, and so is `connected` in a status. Other truthy or falsy values
  are not modelled.
- `handleTcpStatus(null)`, `handleTcpStatus(undefined)` and `simulateDataReceive(null)`
  throw before they do anything, when destructuring or spreading. A primitive status such
  as `5` or `"x"` does not throw: its `ip` is `undefined`, so it gets the `error` event like
  a status without an address. These inputs are excluded by the types `TcpStatus` and
  `Mock`.
- A non-string payload, which `hexStr.toString()` would stringify, is left out.
- Timestamps that are not `Date` objects are left out: `Datagram.timestamp` is an optional
  calendar date. A `null` timestamp makes the default formatter throw inside `parse`. So
  does a string, such as the ISO text `new Date().toISOString()` that the Electron example
  host (examples/electron-vue/main.js:43 and :150) puts in every datagram, because a
  string has no `getFullYear`. The exception is caught, so `parse` returns `null` and
  `processData` counts an error and emits `parseError` for such a datagram whatever its
  payload.
- Payloads containing characters outside the Basic Multilingual Plane, or lone surrogates,
  are left out. JavaScript stores such a character as two UTF-16 code units, so
  `hexToAscii` pairs its halves separately and `"1😀".length` is 3. A Dafny `char` is a
  whole Unicode scalar value, so the model's pairing differs on such payloads.
- `simulateDataReceive(mock, null)` is left out. The default `'127.0.0.1'` replaces only
  `undefined`, so in JavaScript a string mock keeps the `null` address and `handleTcpData`
  rejects it with `error`. The model has one `None` for both, and `MockToDatagram` gives it
  the default address.
- The registry's `Map` keeps `null` and `undefined` as two different keys. Both are the
  one address `None` in the model. Only a datagram without a truthy address that reaches
  `processData` directly (through `manualProcess`) is counted under such a key.
- A custom date formatter is an arbitrary total function of the optional timestamp. A
  formatter that throws is not modelled.
- `Date` is the calendar triple of `JsDate.Time`. Time zones and the time of day are left out.
- The clock is read once per operation. Each `new Date()` in one call is taken to give the
  same `now`.
- Client records hold exactly the fields `status`, `connectedAt`, `lastActive` and `stats`.
  Extra properties in a `clientInfo` or update object are not modelled.
- RfidParser.DefaultDateFormatterIsYYMMDD: proved only for calendar dates with a year of at
  least 10. Earlier years give a shorter prefix, and so does the model.
