/**
 * The server's publish/subscribe registry (server/event_mananger.go).
 *
 * Handlers are Go closures; the model names each by an identifier. The
 * goroutine fan-out of a dispatch is modelled by the multiset of
 * invocations it performs: which handler ran with which event, and how
 * often, without any order among them.
 */
module Events {

  type EventType = string

  /** The one event type the server defines. */
  const MapGenerated: EventType := "map_generated"

  /** The payload `GenerateAndSave` attaches; other producers' payloads are opaque. */
  datatype EventData =
    | MapGeneratedData(filename: string, width: int, height: int, maxVal: int)
    | OpaqueData(tag: nat)

  datatype Event = Event(typ: EventType, data: EventData)

  /** A subscribed handler function, by name. */
  type HandlerId = nat

  /** The handler lists, per event type. A type that was never subscribed to has no entry. */
  type Registry = map<EventType, seq<HandlerId>>

  /** One handler run: `handler` was called with `event`. */
  datatype Invocation = Invocation(handler: HandlerId, event: Event)

  /** The handler list of `t`; a missing entry reads as Go's nil slice. */
  function Handlers(reg: Registry, t: EventType): seq<HandlerId> {
    if t in reg then reg[t] else []
  }

  /** A new manager has no handlers for any type. */
  function NewEventManager(): (reg: Registry)
    ensures forall t :: Handlers(reg, t) == []
  {
    map[]
  }

  /** Appends `h` to the list of `t`; every other type keeps its list. */
  function Subscribe(reg: Registry, t: EventType, h: HandlerId): (r: Registry)
    ensures Handlers(r, t) == Handlers(reg, t) + [h]
    ensures forall t' | t' != t :: Handlers(r, t') == Handlers(reg, t')
  {
    reg[t := Handlers(reg, t) + [h]]
  }

  /** The runs a dispatch of `e` performs when its copied handler list is `hs`: one per list entry. */
  function Invocations(hs: seq<HandlerId>, e: Event): (calls: multiset<Invocation>)
    ensures |calls| == |hs|
    ensures forall h :: calls[Invocation(h, e)] == multiset(hs)[h]
    ensures forall c | c in calls :: c.event == e && c.handler in hs
  {
    if hs == [] then multiset{}
    else
      var calls := Invocations(hs[..|hs| - 1], e) + multiset{Invocation(hs[|hs| - 1], e)};
      assert hs == hs[..|hs| - 1] + [hs[|hs| - 1]];
      calls
  }

  /**
   * Dispatch: copies the handler list of the event's type (under the read
   * lock), then runs every handler on the copy once with the event.
   */
  method Dispatch(reg: Registry, e: Event) returns (calls: multiset<Invocation>)
    ensures calls == Invocations(Handlers(reg, e.typ), e)
    ensures |calls| == |Handlers(reg, e.typ)|
    ensures forall h :: calls[Invocation(h, e)] == multiset(Handlers(reg, e.typ))[h]
    ensures forall c | c in calls :: c.event == e && c.handler in Handlers(reg, e.typ)
  {
    var handlers := Handlers(reg, e.typ);
    calls := multiset{};
    var i := 0;
    while i < |handlers|
      invariant 0 <= i <= |handlers|
      invariant calls == Invocations(handlers[..i], e)
    {
      assert handlers[..i + 1] == handlers[..i] + [handlers[i]];
      assert handlers[..i + 1][..i] == handlers[..i];
      calls := calls + multiset{Invocation(handlers[i], e)};
      i := i + 1;
    }
    assert handlers[..i] == handlers;
  }

  /** A subscription that may run while a dispatch is in flight. */
  datatype Subscription = Subscription(typ: EventType, handler: HandlerId)

  function SubscribeAll(reg: Registry, subs: seq<Subscription>): Registry
    decreases |subs|
  {
    if subs == [] then reg
    else SubscribeAll(Subscribe(reg, subs[0].typ, subs[0].handler), subs[1..])
  }

  /**
   * Handler lists only grow: whatever subscriptions run, the list a type had
   * before is a prefix of the list it has after, and the new entries are
   * exactly the handlers subscribed to that type, in order.
   */
  lemma {:induction false} SubscribeAllAppends(reg: Registry, subs: seq<Subscription>, t: EventType)
    ensures Handlers(SubscribeAll(reg, subs), t) == Handlers(reg, t) + SubscribedTo(subs, t)
    decreases |subs|
  {
    if subs != [] {
      var reg' := Subscribe(reg, subs[0].typ, subs[0].handler);
      assert SubscribeAll(reg, subs) == SubscribeAll(reg', subs[1..]);
      SubscribeAllAppends(reg', subs[1..], t);
      var later := SubscribedTo(subs[1..], t);
      if subs[0].typ == t {
        assert SubscribedTo(subs, t) == [subs[0].handler] + later;
        assert (Handlers(reg, t) + [subs[0].handler]) + later == Handlers(reg, t) + ([subs[0].handler] + later);
      } else {
        assert Handlers(reg', t) == Handlers(reg, t);
        assert SubscribedTo(subs, t) == [] + later;
      }
    }
  }

  /** The handlers `subs` adds to type `t`, in subscription order. */
  function SubscribedTo(subs: seq<Subscription>, t: EventType): seq<HandlerId> {
    if subs == [] then []
    else (if subs[0].typ == t then [subs[0].handler] else []) + SubscribedTo(subs[1..], t)
  }

  lemma {:induction false} SubscribedToContains(subs: seq<Subscription>, t: EventType, h: HandlerId)
    requires Subscription(t, h) in subs
    ensures h in SubscribedTo(subs, t)
  {
    if subs[0] != Subscription(t, h) {
      SubscribedToContains(subs[1..], t, h);
    }
  }

  /**
   * A handler subscribed after a dispatch copied its list is registered once
   * the subscription runs, yet the in-flight dispatch does not invoke it
   * (unless it was already in the copied list).
   */
  lemma LateSubscriberNotInvoked(reg: Registry, e: Event, later: seq<Subscription>, h: HandlerId)
    requires Subscription(e.typ, h) in later
    requires h !in Handlers(reg, e.typ)
    ensures h in Handlers(SubscribeAll(reg, later), e.typ)
    ensures Invocation(h, e) !in Invocations(Handlers(reg, e.typ), e)
  {
    SubscribeAllAppends(reg, later, e.typ);
    SubscribedToContains(later, e.typ, h);
  }
}
