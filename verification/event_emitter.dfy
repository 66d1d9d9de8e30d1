/** The event dispatcher (`EventEmitter`): an ordered list of listeners per event
    name. A callback is known only by its identity and by whether calling it throws;
    what it does besides throwing is outside the model. */
module EventEmitter {
  import opened Wrappers

  /** A callback: its identity, and whether every call of it throws. */
  datatype Handler = Handler(id: nat, throws: bool)

  /** A registered listener: a handler registered with `on`, or the wrapper closure
      `once` registers around a handler. A wrapper is never identical to its handler. */
  datatype Listener = Plain(handler: Handler) | Once(handler: Handler)

  /** The `listeners` object. An event name absent from the map has no property. */
  datatype Emitter = Emitter(listeners: map<string, seq<Listener>>)

  /** The result of `emit`: the emitter afterwards, the handlers called in call order,
      and the returned flag. */
  datatype Emission = Emission(emitter: Emitter, invoked: seq<Handler>, delivered: bool)

  function NewEmitter(): (em: Emitter)
    ensures forall e :: Listeners(em, e) == []
  {
    Emitter(map[])
  }

  /** The listeners of `event`, empty when it has none. */
  function Listeners(em: Emitter, event: string): seq<Listener> {
    if event in em.listeners then em.listeners[event] else []
  }

  /** The handlers a list of listeners calls, in order. */
  function Handlers(ls: seq<Listener>): (hs: seq<Handler>)
    ensures |hs| == |ls|
    ensures forall i :: 0 <= i < |ls| ==> hs[i] == ls[i].handler
  {
    if |ls| == 0 then [] else [ls[0].handler] + Handlers(ls[1..])
  }

  /** `ls.filter(cb => cb !== l)`. */
  function Remove(ls: seq<Listener>, l: Listener): (r: seq<Listener>)
    ensures |r| <= |ls|
    ensures l !in r
    ensures forall x :: x in r <==> x in ls && x != l
    ensures l !in ls ==> r == ls
  {
    if |ls| == 0 then []
    else if ls[0] == l then Remove(ls[1..], l)
    else [ls[0]] + Remove(ls[1..], l)
  }

  /** `on`: appends the handler to the event's list, creating the list when missing;
      duplicates are kept and other events are untouched. */
  function On(em: Emitter, event: string, h: Handler): (r: Emitter)
    ensures Listeners(r, event) == Listeners(em, event) + [Plain(h)]
    ensures forall e :: e != event ==> Listeners(r, e) == Listeners(em, e)
    ensures r.listeners.Keys == em.listeners.Keys + {event}
  {
    Emitter(em.listeners[event := Listeners(em, event) + [Plain(h)]])
  }

  /** `once`: registers a wrapper that calls the handler and then unregisters itself. */
  function OnceListen(em: Emitter, event: string, h: Handler): (r: Emitter)
    ensures Listeners(r, event) == Listeners(em, event) + [Once(h)]
    ensures forall e :: e != event ==> Listeners(r, e) == Listeners(em, e)
  {
    Emitter(em.listeners[event := Listeners(em, event) + [Once(h)]])
  }

  /** `off`: nothing happens for an event that has no list; otherwise a given handler
      is filtered out wherever `on` registered it (wrappers made by `once` stay), and a
      missing handler empties the list. */
  function Off(em: Emitter, event: string, h: Option<Handler>): (r: Emitter)
    ensures event !in em.listeners ==> r == em
    ensures event in em.listeners && h.None? ==> r.listeners == em.listeners[event := []]
    ensures event in em.listeners && h.Some? ==>
      && r.listeners.Keys == em.listeners.Keys
      && Listeners(r, event) == Remove(Listeners(em, event), Plain(h.value))
      && (forall l :: l in Listeners(r, event) <==> l in Listeners(em, event) && l != Plain(h.value))
      && |Listeners(r, event)| <= |Listeners(em, event)|
    ensures forall e :: e != event ==> Listeners(r, e) == Listeners(em, e)
  {
    if event !in em.listeners then em
    else match h
      case Some(cb) => Emitter(em.listeners[event := Remove(em.listeners[event], Plain(cb))])
      case None => Emitter(em.listeners[event := []])
  }

  /** `removeAllListeners`: a non-empty event name empties that event's list (creating
      it when missing); no name, or the empty name, drops every list. */
  function RemoveAllListeners(em: Emitter, event: Option<string>): (r: Emitter)
    ensures event.Some? && event.value != "" ==>
      r.listeners == em.listeners[event.value := []]
    ensures event.None? || event.value == "" ==> r.listeners == map[]
    ensures forall e :: Listeners(r, e) == [] || (event.Some? && event.value != "" && e != event.value)
  {
    match event
    case Some(e) => if e != "" then Emitter(em.listeners[e := []]) else Emitter(map[])
    case None => Emitter(map[])
  }

  /** A listener that a normal return of its handler removes: a wrapper made by `once`
      whose handler does not throw. A throwing handler leaves its wrapper registered,
      because the wrapper unregisters itself only after the call. */
  predicate Detaches(l: Listener) {
    l.Once? && !l.handler.throws
  }

  /** The listeners left after an emission of `ls`, stated directly. */
  function Survivors(ls: seq<Listener>): (r: seq<Listener>)
    ensures |r| <= |ls|
    ensures forall l :: l in r <==> l in ls && !Detaches(l)
  {
    if |ls| == 0 then []
    else (if Detaches(ls[0]) then [] else [ls[0]]) + Survivors(ls[1..])
  }

  /** The call loop of `emit` over the snapshot `pending`: each wrapper whose handler
      returns normally filters itself out of the event's list as it stands then. */
  function Dispatch(pending: seq<Listener>, current: seq<Listener>): seq<Listener>
    decreases |pending|
  {
    if |pending| == 0 then current
    else
      var l := pending[0];
      Dispatch(pending[1..], if Detaches(l) then Remove(current, l) else current)
  }

  /** `emit`: `false` with nothing called when the event has no listeners. Otherwise
      every listener of the snapshot taken at the start is called in registration order,
      a throwing handler does not stop the ones after it, and `true` is returned; the
      wrappers made by `once` around handlers that returned normally are gone afterwards. */
  function Emit(em: Emitter, event: string): (r: Emission)
    ensures r.delivered <==> |Listeners(em, event)| > 0
    ensures r.invoked == Handlers(Listeners(em, event))
    ensures r.delivered ==> r.emitter.listeners == em.listeners[event := Survivors(Listeners(em, event))]
    ensures !r.delivered ==> r.emitter == em
  {
    var snapshot := Listeners(em, event);
    if |snapshot| == 0 then Emission(em, [], false)
    else
      DispatchLeavesSurvivors(snapshot);
      Emission(Emitter(em.listeners[event := Dispatch(snapshot, snapshot)]), Handlers(snapshot), true)
  }

  // ---------------------------------------------------------------------------
  // Dispatch against its direct statement

  /** The listeners of `current` that are neither detaching nor among `pending`'s. */
  function KeepUnless(current: seq<Listener>, pending: seq<Listener>): seq<Listener> {
    if |current| == 0 then []
    else (if Detaches(current[0]) && current[0] in pending then [] else [current[0]])
         + KeepUnless(current[1..], pending)
  }

  /** Emitting a list leaves exactly its survivors. */
  lemma DispatchLeavesSurvivors(ls: seq<Listener>)
    ensures Dispatch(ls, ls) == Survivors(ls)
  {
    DispatchKeepsUnless(ls, ls);
    KeepUnlessOfAll(ls, ls);
  }

  lemma {:induction false} DispatchKeepsUnless(pending: seq<Listener>, current: seq<Listener>)
    ensures Dispatch(pending, current) == KeepUnless(current, pending)
    decreases |pending|
  {
    if |pending| == 0 {
      KeepUnlessOfNone(current, pending);
    } else {
      var l := pending[0];
      var next := if Detaches(l) then Remove(current, l) else current;
      DispatchKeepsUnless(pending[1..], next);
      KeepUnlessStep(current, pending);
    }
  }

  lemma {:induction false} KeepUnlessOfNone(current: seq<Listener>, pending: seq<Listener>)
    requires |pending| == 0
    ensures KeepUnless(current, pending) == current
    decreases |current|
  {
    if |current| > 0 {
      KeepUnlessOfNone(current[1..], pending);
    }
  }

  /** Handling the first pending listener, then the rest, keeps what handling all keeps. */
  lemma {:induction false} KeepUnlessStep(current: seq<Listener>, pending: seq<Listener>)
    requires |pending| > 0
    ensures var l := pending[0];
      KeepUnless(if Detaches(l) then Remove(current, l) else current, pending[1..]) == KeepUnless(current, pending)
    decreases |current|
  {
    var l := pending[0];
    if |current| > 0 {
      KeepUnlessStep(current[1..], pending);
      var c := current[0];
      assert c in pending <==> c == l || c in pending[1..] by {
        assert pending == [l] + pending[1..];
      }
      if Detaches(l) && c == l {
        assert Remove(current, l) == Remove(current[1..], l);
      } else if Detaches(l) {
        assert Remove(current, l) == [c] + Remove(current[1..], l);
        assert ([c] + Remove(current[1..], l))[1..] == Remove(current[1..], l);
      }
    }
  }

  lemma {:induction false} KeepUnlessOfAll(current: seq<Listener>, pending: seq<Listener>)
    requires forall l :: l in current ==> l in pending
    ensures KeepUnless(current, pending) == Survivors(current)
    decreases |current|
  {
    if |current| > 0 {
      assert current[0] in current;
      KeepUnlessOfAll(current[1..], pending);
    }
  }

  // ---------------------------------------------------------------------------
  // Properties

  lemma {:induction false} SurvivorsAppend(a: seq<Listener>, b: seq<Listener>)
    ensures Survivors(a + b) == Survivors(a) + Survivors(b)
    decreases |a|
  {
    if |a| == 0 {
      assert a + b == b;
    } else {
      assert (a + b)[1..] == a[1..] + b;
      SurvivorsAppend(a[1..], b);
    }
  }

  /** Filtering distributes over concatenation: together with leaving a list without
      `l` alone, this says the others keep their order. */
  lemma {:induction false} RemoveAppend(a: seq<Listener>, b: seq<Listener>, l: Listener)
    ensures Remove(a + b, l) == Remove(a, l) + Remove(b, l)
    decreases |a|
  {
    if |a| == 0 {
      assert a + b == b;
    } else {
      assert (a + b)[1..] == a[1..] + b;
      RemoveAppend(a[1..], b, l);
    }
  }

  /** A handler registered with `once` that returns normally is called by the next
      emission and by none after it; one that throws is called again next time. */
  lemma OnceCallsOnce(em: Emitter, event: string, h: Handler)
    ensures var em1 := OnceListen(em, event, h);
      var first := Emit(em1, event);
      var second := Emit(first.emitter, event);
      && first.delivered
      && first.invoked == Handlers(Listeners(em, event)) + [h]
      && second.invoked == Handlers(Survivors(Listeners(em, event))) + (if h.throws then [h] else [])
  {
    var ls := Listeners(em, event);
    var em1 := OnceListen(em, event, h);
    assert Listeners(em1, event) == ls + [Once(h)];
    var first := Emit(em1, event);
    HandlersAppend(ls, [Once(h)]);
    assert first.invoked == Handlers(ls) + [h];
    var kept := if h.throws then [Once(h)] else [];
    assert Survivors([Once(h)]) == kept;
    SurvivorsAppend(ls, [Once(h)]);
    assert Listeners(first.emitter, event) == Survivors(ls) + kept;
    HandlersAppend(Survivors(ls), kept);
    assert Handlers(kept) == if h.throws then [h] else [];
  }

  lemma HandlersAppend(a: seq<Listener>, b: seq<Listener>)
    ensures Handlers(a + b) == Handlers(a) + Handlers(b)
  {
  }

  /** Emitting twice with only `on` listeners calls the same handlers both times. */
  lemma PlainListenersStay(em: Emitter, event: string)
    requires forall l :: l in Listeners(em, event) ==> l.Plain?
    ensures Emit(Emit(em, event).emitter, event).invoked == Emit(em, event).invoked
  {
    SurvivorsOfPlain(Listeners(em, event));
  }

  lemma {:induction false} SurvivorsOfPlain(ls: seq<Listener>)
    requires forall l :: l in ls ==> l.Plain?
    ensures Survivors(ls) == ls
    decreases |ls|
  {
    if |ls| > 0 {
      assert ls[0] in ls;
      SurvivorsOfPlain(ls[1..]);
      assert ls == [ls[0]] + ls[1..];
    }
  }

  /** `off(e, h)` after `on(e, h)` leaves the earlier list with every registration of `h`
      by `on` filtered out, the others in their order; so no later emission calls `h`
      except through a wrapper made by `once`. */
  lemma OffUndoesOn(em: Emitter, event: string, h: Handler)
    ensures var r := Off(On(em, event, h), event, Some(h));
      && Listeners(r, event) == Remove(Listeners(em, event), Plain(h))
      && Plain(h) !in Listeners(r, event)
    ensures Plain(h) !in Listeners(em, event) ==>
      Listeners(Off(On(em, event, h), event, Some(h)), event) == Listeners(em, event)
  {
    var ls := Listeners(em, event);
    RemoveAppend(ls, [Plain(h)], Plain(h));
    assert Remove([Plain(h)], Plain(h)) == [];
    assert Remove(ls + [Plain(h)], Plain(h)) == Remove(ls, Plain(h));
  }

  /** After `removeAllListeners`, an emission of a cleared event reaches nobody and
      returns false; with a non-empty name, any other event still calls the handlers it
      called before, and a later `on` starts that event's list afresh. */
  lemma RemoveAllSilences(em: Emitter, event: Option<string>, e: string, h: Handler)
    ensures event.None? || event.value == "" || event.value == e ==>
      var r := Emit(RemoveAllListeners(em, event), e);
      !r.delivered && r.invoked == []
    ensures event.Some? && event.value != "" && event.value != e ==>
      Emit(RemoveAllListeners(em, event), e).invoked == Emit(em, e).invoked
    ensures event.None? || event.value == "" || event.value == e ==>
      Emit(On(RemoveAllListeners(em, event), e, h), e).invoked == [h]
  {
    var cleared := RemoveAllListeners(em, event);
    if event.None? || event.value == "" || event.value == e {
      assert Listeners(cleared, e) == [];
      assert Listeners(On(cleared, e, h), e) == [Plain(h)];
    }
  }

  /** `off(e, h)` does not remove a wrapper `once(e, h)` registered. */
  lemma OffKeepsOnceWrapper(em: Emitter, event: string, h: Handler)
    ensures Once(h) in Listeners(Off(OnceListen(em, event, h), event, Some(h)), event)
  {
    var em1 := OnceListen(em, event, h);
    assert Once(h) in Listeners(em1, event);
  }
}
