/** The registry of connected readers (`ConnectionManager`): one record per address,
    kept in the insertion order of a JavaScript `Map`, next to a connection counter
    that is maintained separately from the map. The clock is a parameter `now`. */
module ConnectionManager {
  import opened Wrappers
  import opened JsDate

  /** A client's counters. A field is `None` when a caller-supplied `stats` object
      did not have it. */
  datatype Stats = Stats(dataReceived: Option<int>, errors: Option<int>)

  const ZeroStats: Stats := Stats(Some(0), Some(0))

  datatype Client = Client(status: string, connectedAt: Time, lastActive: Time, stats: Stats)

  /** The properties of an update object (or of the `clientInfo` of `addClient`);
      `None` for a property the object does not have. */
  datatype ClientPatch = ClientPatch(status: Option<string>, connectedAt: Option<Time>,
                                     lastActive: Option<Time>, stats: Option<Stats>)

  const NoPatch: ClientPatch := ClientPatch(None, None, None, None)

  /** A key of the registry: the `ip` of a datagram or status, or `None` for the
      `undefined` key a datagram without an address creates. */
  type Address = Option<string>

  /** The map's keys in insertion order, the map itself, and `connectionCount`. */
  datatype Registry = Registry(order: seq<Address>, clients: map<Address, Client>, connectionCount: int)

  /** An element of `getAllClients()`: a record together with its address. */
  datatype Entry = Entry(ip: Address, client: Client)

  /** The new registry an operation leaves behind and the value it returns. */
  datatype Change<T> = Change(registry: Registry, value: T)

  predicate Distinct(s: seq<Address>) {
    forall i, j :: 0 <= i < j < |s| ==> s[i] != s[j]
  }

  /** What every reachable registry satisfies: the order lists each key of the map
      exactly once, and the counter is never below the number of records. */
  ghost predicate Valid(r: Registry) {
    && Distinct(r.order)
    && (forall k :: k in r.clients <==> k in r.order)
    && |r.order| <= r.connectionCount
  }

  /** The constructor: no records and a zero count. */
  function NewRegistry(): (r: Registry)
    ensures Valid(r) && r.clients == map[] && r.connectionCount == 0
  {
    Registry([], map[], 0)
  }

  /** A counter as `(n || 0)` reads it. */
  function Tally(n: Option<int>): int {
    n.GetOr(0)
  }

  /** `{...c, ...patch}`: every property the patch has replaces the record's own. */
  function Overlay(c: Client, patch: ClientPatch): Client {
    Client(patch.status.GetOr(c.status), patch.connectedAt.GetOr(c.connectedAt),
           patch.lastActive.GetOr(c.lastActive), patch.stats.GetOr(c.stats))
  }

  /** `{...s, ...patch}` on two stats objects. */
  function OverlayStats(s: Stats, patch: Stats): Stats {
    Stats(if patch.dataReceived.Some? then patch.dataReceived else s.dataReceived,
          if patch.errors.Some? then patch.errors else s.errors)
  }

  /** `s` without the occurrences of `x`, order kept. */
  function Without(s: seq<Address>, x: Address): (r: seq<Address>)
    ensures forall y :: y in r <==> y in s && y != x
    ensures |r| <= |s|
    ensures x !in s ==> r == s
    ensures Distinct(s) ==> Distinct(r) && (x in s ==> |r| == |s| - 1)
  {
    if |s| == 0 then []
    else
      var rest := Without(s[1..], x);
      assert Distinct(s) ==> Distinct(s[1..]) && s[0] !in s[1..];
      if s[0] == x then rest else [s[0]] + rest
  }

  /** `addClient`: the defaults (status "connected", both times `now`, zero counters)
      overridden by `info`, stored under `ip`; `stats` in `info` replaces the default
      counters wholesale. The counter goes up by one even when `ip` already had a record,
      and an existing key keeps its place in the order. */
  function AddClient(r: Registry, ip: Address, info: ClientPatch, now: Time): (res: Change<Client>)
    ensures res.value.status == info.status.GetOr("connected")
    ensures res.value.connectedAt == info.connectedAt.GetOr(now)
    ensures res.value.lastActive == info.lastActive.GetOr(now)
    ensures res.value.stats == info.stats.GetOr(ZeroStats)
    ensures ip in res.registry.clients && res.registry.clients[ip] == res.value
    ensures forall k :: k != ip ==> (k in res.registry.clients <==> k in r.clients)
    ensures forall k :: k != ip && k in r.clients ==> res.registry.clients[k] == r.clients[k]
    ensures res.registry.connectionCount == r.connectionCount + 1
    ensures res.registry.order == if ip in r.order then r.order else r.order + [ip]
    ensures Valid(r) ==> Valid(res.registry)
  {
    var client := Overlay(Client("connected", now, now, ZeroStats), info);
    var order := if ip in r.order then r.order else r.order + [ip];
    Change(Registry(order, r.clients[ip := client], r.connectionCount + 1), client)
  }

  /** `removeClient`: `false` and nothing changed for an unknown address; otherwise the
      record is deleted, the count drops by one but not below zero, and `true`. */
  function RemoveClient(r: Registry, ip: Address): (res: Change<bool>)
    ensures res.value <==> ip in r.clients
    ensures ip !in r.clients ==> res.registry == r
    ensures ip in r.clients ==>
      && res.registry.clients == r.clients - {ip}
      && res.registry.order == Without(r.order, ip)
      && res.registry.connectionCount == if r.connectionCount >= 1 then r.connectionCount - 1 else 0
    ensures res.registry.connectionCount >= 0 || res.registry == r
    ensures Valid(r) ==> Valid(res.registry)
  {
    if ip !in r.clients then Change(r, false)
    else
      var count := if r.connectionCount - 1 > 0 then r.connectionCount - 1 else 0;
      Change(Registry(Without(r.order, ip), r.clients - {ip}, count), true)
  }

  /** `updateClientStatus`: `null` and nothing changed for an unknown address. Otherwise
      the properties the update has replace the record's, except that `lastActive`
      becomes `now` whatever the update says, and `stats` is merged key by key. */
  function UpdateClientStatus(r: Registry, ip: Address, update: ClientPatch, now: Time): (res: Change<Option<Client>>)
    ensures ip !in r.clients ==> res == Change(r, None)
    ensures ip in r.clients ==>
      var before := r.clients[ip];
      && res.value.Some?
      && var c := res.value.value;
      && c.status == update.status.GetOr(before.status)
      && c.connectedAt == update.connectedAt.GetOr(before.connectedAt)
      && c.lastActive == now
      && (update.stats.None? ==> c.stats == before.stats)
      && (update.stats.Some? ==>
            && c.stats.dataReceived == (if update.stats.value.dataReceived.Some? then update.stats.value.dataReceived else before.stats.dataReceived)
            && c.stats.errors == (if update.stats.value.errors.Some? then update.stats.value.errors else before.stats.errors))
      && res.registry == r.(clients := r.clients[ip := c])
    ensures Valid(r) ==> Valid(res.registry)
  {
    if ip !in r.clients then Change(r, None)
    else
      var before := r.clients[ip];
      var merged := Overlay(before, update).(lastActive := now);
      var c := if update.stats.Some? then merged.(stats := OverlayStats(before.stats, update.stats.value)) else merged;
      Change(r.(clients := r.clients[ip := c]), Some(c))
  }

  /** The counters an address has, or zero ones for an unknown address. */
  function StatsOf(r: Registry, ip: Address): Stats {
    if ip in r.clients then r.clients[ip].stats else ZeroStats
  }

  /** `updateClientDataStats`: creates the record first when the address is unknown,
      then counts one datum received (or one error), leaving the other counter as it
      was, through `updateClientStatus`, which never returns `null` here. */
  function UpdateClientDataStats(r: Registry, ip: Address, success: bool, now: Time): (res: Change<Option<Client>>)
    ensures res.value.Some? && ip in res.registry.clients && res.registry.clients[ip] == res.value.value
    ensures var before := StatsOf(r, ip);
      var after := res.value.value.stats;
      if success then
        after.dataReceived == Some(Tally(before.dataReceived) + 1) && after.errors == before.errors
      else
        after.errors == Some(Tally(before.errors) + 1) && after.dataReceived == before.dataReceived
    ensures ip in r.clients ==>
      && res.value.value.status == r.clients[ip].status
      && res.value.value.connectedAt == r.clients[ip].connectedAt
    ensures ip !in r.clients ==> res.value.value.status == "connected" && res.value.value.connectedAt == now
    ensures res.value.value.lastActive == now
    ensures forall k :: k != ip ==> (k in res.registry.clients <==> k in r.clients)
    ensures forall k :: k != ip && k in r.clients ==> res.registry.clients[k] == r.clients[k]
    ensures res.registry.connectionCount == r.connectionCount + (if ip in r.clients then 0 else 1)
    ensures res.registry.order == if ip in r.clients then r.order else
                                  if ip in r.order then r.order else r.order + [ip]
    ensures Valid(r) ==> res.registry.order == if ip in r.order then r.order else r.order + [ip]
    ensures Valid(r) ==> Valid(res.registry)
  {
    var known := if ip in r.clients then r else AddClient(r, ip, NoPatch, now).registry;
    var stats := known.clients[ip].stats;
    var bumped := if success then stats.(dataReceived := Some(Tally(stats.dataReceived) + 1))
                  else stats.(errors := Some(Tally(stats.errors) + 1));
    UpdateClientStatus(known, ip, ClientPatch(None, None, None, Some(bumped)), now)
  }

  /** `getClient`: the record, or `null` for an unknown address. */
  function GetClient(r: Registry, ip: Address): (c: Option<Client>)
    ensures c.Some? <==> ip in r.clients
    ensures c.Some? ==> c.value == r.clients[ip]
  {
    if ip in r.clients then Some(r.clients[ip]) else None
  }

  /** `getAllClients`: every record with its address, in insertion order. */
  function GetAllClients(r: Registry): (entries: seq<Entry>)
    ensures forall i :: 0 <= i < |entries| ==>
      entries[i].ip in r.clients && entries[i].client == r.clients[entries[i].ip]
    ensures Valid(r) ==> |entries| == |r.order| && forall i :: 0 <= i < |entries| ==> entries[i].ip == r.order[i]
  {
    Entries(r.order, r.clients)
  }

  function Entries(order: seq<Address>, clients: map<Address, Client>): (entries: seq<Entry>)
    ensures |entries| <= |order|
    ensures forall i :: 0 <= i < |entries| ==>
      entries[i].ip in clients && entries[i].client == clients[entries[i].ip]
    ensures (forall k :: k in order ==> k in clients) ==>
      |entries| == |order| && forall i :: 0 <= i < |entries| ==> entries[i].ip == order[i]
  {
    if |order| == 0 then []
    else
      var rest := Entries(order[1..], clients);
      if order[0] in clients then [Entry(order[0], clients[order[0]])] + rest else rest
  }

  /** `getConnectionCount`: the counter, which is maintained apart from the map. */
  function GetConnectionCount(r: Registry): int {
    r.connectionCount
  }

  /** `hasActiveConnections`: whether the counter is positive. */
  function HasActiveConnections(r: Registry): (active: bool)
    ensures active <==> GetConnectionCount(r) > 0
  {
    r.connectionCount > 0
  }

  /** `resetConnections`: no records and a zero count. */
  function ResetConnections(r: Registry): (res: Registry)
    ensures Valid(res) && res.clients == map[] && res.order == [] && !HasActiveConnections(res)
  {
    NewRegistry()
  }

  // ---------------------------------------------------------------------------
  // Properties

  /** In a valid registry the counter is at least the number of records, so a registry
      that holds a record always reports an active connection. */
  lemma CountCoversClients(r: Registry)
    requires Valid(r)
    ensures |r.clients.Keys| <= r.connectionCount
    ensures |r.clients| > 0 ==> HasActiveConnections(r)
  {
    assert r.clients.Keys == set k | k in r.order;
    DistinctSetCard(r.order);
  }

  /** A sequence without repetitions has as many elements as its set of elements. */
  lemma {:induction false} DistinctSetCard(s: seq<Address>)
    requires Distinct(s)
    ensures |(set k | k in s)| == |s|
    decreases |s|
  {
    if |s| > 0 {
      var tail := s[1..];
      assert Distinct(tail);
      DistinctSetCard(tail);
      assert (set k | k in s) == (set k | k in tail) + {s[0]} by {
        assert s == [s[0]] + tail;
      }
      assert s[0] !in tail;
    }
  }

  /** Adding, then counting one datum and one error, gives counters of one and one. */
  lemma AddThenCountBoth(r: Registry, ip: Address, now: Time)
    ensures var r1 := AddClient(r, ip, NoPatch, now).registry;
      var r2 := UpdateClientDataStats(r1, ip, true, now).registry;
      var c := UpdateClientDataStats(r2, ip, false, now).value;
      c == Some(Client("connected", now, now, Stats(Some(1), Some(1))))
  {
  }

  /** Counting a datum and then an error for one address bumps both counters by one,
      whether or not the address was known. */
  lemma DataThenErrorCountsBoth(r: Registry, ip: Address, now: Time, r2: Registry)
    requires r2 == UpdateClientDataStats(UpdateClientDataStats(r, ip, true, now).registry, ip, false, now).registry
    ensures ip in r2.clients
    ensures r2.clients[ip].stats ==
      Stats(Some(Tally(StatsOf(r, ip).dataReceived) + 1), Some(Tally(StatsOf(r, ip).errors) + 1))
  {
    var first := UpdateClientDataStats(r, ip, true, now);
    var middle := first.registry.clients[ip].stats;
    var second := UpdateClientDataStats(first.registry, ip, false, now);
    assert second.registry.clients[ip].stats.dataReceived == middle.dataReceived;
  }

  /** Removing an address appended last to an order that did not have it gives the
      order back. */
  lemma {:induction false} WithoutAppended(s: seq<Address>, x: Address)
    requires x !in s
    ensures Without(s + [x], x) == s
    decreases |s|
  {
    if |s| == 0 {
      assert s + [x] == [x];
    } else {
      assert (s + [x])[1..] == s[1..] + [x];
      WithoutAppended(s[1..], x);
      assert [s[0]] + s[1..] == s;
    }
  }

  /** Connecting a new address and then disconnecting it restores the registry exactly. */
  lemma AddThenRemoveRestores(r: Registry, ip: Address, info: ClientPatch, now: Time)
    requires Valid(r) && ip !in r.clients
    ensures RemoveClient(AddClient(r, ip, info, now).registry, ip) == Change(r, true)
  {
    var added := AddClient(r, ip, info, now);
    assert ip !in r.order;
    assert added.registry.order == r.order + [ip];
    WithoutAppended(r.order, ip);
    assert added.registry.clients == r.clients[ip := added.value];
    UpdateThenDelete(r.clients, ip, added.value);
    assert r.connectionCount >= 0;
  }

  /** Deleting a key just added to a map that did not have it gives the map back. */
  lemma UpdateThenDelete(m: map<Address, Client>, k: Address, v: Client)
    requires k !in m
    ensures m[k := v] - {k} == m
  {
  }

  /** The first datum from an unknown address creates its record, counted as a connection. */
  lemma FirstDataCreatesClient(r: Registry, ip: Address, now: Time)
    requires ip !in r.clients
    ensures var res := UpdateClientDataStats(r, ip, true, now);
      && res.value == Some(Client("connected", now, now, Stats(Some(1), Some(0))))
      && res.registry.connectionCount == r.connectionCount + 1
  {
  }

  /** The counter drifts from the map: connecting the same address twice and
      disconnecting it once leaves no record but a positive count. */
  lemma CountDrifts(ip: Address, now: Time)
    ensures var r1 := AddClient(NewRegistry(), ip, NoPatch, now).registry;
      var r2 := AddClient(r1, ip, NoPatch, now).registry;
      var r3 := RemoveClient(r2, ip).registry;
      && r3.clients == map[]
      && GetAllClients(r3) == []
      && GetConnectionCount(r3) == 1
      && HasActiveConnections(r3)
  {
  }

  /** Removing twice never drives the counter below zero. */
  lemma RemoveNeverNegative(r: Registry, ip: Address)
    requires r.connectionCount >= 0
    ensures GetConnectionCount(RemoveClient(r, ip).registry) >= 0
    ensures GetConnectionCount(RemoveClient(RemoveClient(r, ip).registry, ip).registry) >= 0
  {
  }
}
