/** The live-delivery registry of the messaging service: for each channel
    id, the set of open server-push streams subscribed to it. A stream is an
    opaque endpoint; a write that throws is modelled by naming the endpoints
    whose write fails on a given broadcast. */
module Subscriptions {
  import opened Types

  /** An open server-push stream, known only by its identity. */
  datatype Endpoint = Endpoint(id: nat)

  type Registry = map<string, set<Endpoint>>

  /** The two event kinds pushed to subscribers, with their wire codes. */
  datatype EventType = MessageSent | MessageDeleted {
    function Code(): (c: int)
      ensures c == 0 <==> MessageSent?
      ensures c == 1 <==> MessageDeleted?
    {
      match this
      case MessageSent => 0
      case MessageDeleted => 1
    }
  }

  datatype Event = Event(eventType: EventType, message: Message)

  /** One successful `stream.write(event)`. */
  datatype Delivery = Delivery(endpoint: Endpoint, event: Event)

  /** The registry never keeps a channel entry with no endpoints. */
  ghost predicate NoEmptyEntries(reg: Registry) {
    forall c | c in reg :: reg[c] != {}
  }

  /** The endpoints currently subscribed to `channelId`. */
  function Subscribers(reg: Registry, channelId: string): set<Endpoint> {
    if channelId in reg then reg[channelId] else {}
  }

  /** Registration on a successful subscribe: the entry is created when
      absent, and the endpoint joins it; no other channel changes. */
  function Attach(reg: Registry, channelId: string, e: Endpoint): (r: Registry)
    ensures Subscribers(r, channelId) == Subscribers(reg, channelId) + {e}
    ensures forall c | c != channelId :: Subscribers(r, c) == Subscribers(reg, c)
    ensures r.Keys == reg.Keys + {channelId}
    ensures NoEmptyEntries(reg) ==> NoEmptyEntries(r)
  {
    var subs := if channelId in reg then reg[channelId] else {};
    reg[channelId := subs + {e}]
  }

  /** The `cancelled` handler: the endpoint leaves the channel's entry, and
      the entry is dropped once empty; with no entry it does nothing. */
  function Detach(reg: Registry, channelId: string, e: Endpoint): (r: Registry)
    ensures channelId !in reg ==> r == reg
    ensures Subscribers(r, channelId) == Subscribers(reg, channelId) - {e}
    ensures forall c | c != channelId :: Subscribers(r, c) == Subscribers(reg, c)
    ensures r.Keys <= reg.Keys
    ensures NoEmptyEntries(reg) ==> NoEmptyEntries(r)
  {
    if channelId !in reg then reg
    else
      var subs := reg[channelId] - {e};
      if subs == {} then reg - {channelId} else reg[channelId := subs]
  }

  /** `notifySubscribers(channelId, event)`: the event reaches exactly the
      channel's subscribers whose write does not throw; a channel without
      an entry gets nothing. */
  function Notify(reg: Registry, channelId: string, event: Event, failing: set<Endpoint>)
    : (r: set<Delivery>)
    ensures forall d | d in r :: d.event == event
    ensures forall e :: Delivery(e, event) in r <==> e in Subscribers(reg, channelId) && e !in failing
    ensures channelId !in reg ==> r == {}
  {
    set e | e in Subscribers(reg, channelId) && e !in failing :: Delivery(e, event)
  }

  /** Once detached, an endpoint receives no further broadcast on that
      channel, whoever else stays subscribed. */
  lemma DetachedEndpointIsNotNotified(reg: Registry, channelId: string, e: Endpoint,
                                     event: Event, failing: set<Endpoint>)
    ensures Delivery(e, event) !in Notify(Detach(reg, channelId, e), channelId, event, failing)
  {
  }

  /** A broadcast on one channel never reaches an endpoint that is only
      subscribed to other channels. */
  lemma NotifyStaysInChannel(reg: Registry, channelId: string, e: Endpoint, event: Event, failing: set<Endpoint>)
    requires e !in Subscribers(reg, channelId)
    ensures Delivery(e, event) !in Notify(reg, channelId, event, failing)
  {
  }

  /** Subscribing and then cancelling leaves the registry as it was, when
      the endpoint was not subscribed before. */
  lemma AttachThenDetach(reg: Registry, channelId: string, e: Endpoint)
    requires NoEmptyEntries(reg)
    requires e !in Subscribers(reg, channelId)
    ensures Detach(Attach(reg, channelId, e), channelId, e) == reg
  {
    var r := Detach(Attach(reg, channelId, e), channelId, e);
    assert r.Keys == reg.Keys;
    forall c | c in reg ensures r[c] == reg[c] {
      assert Subscribers(r, c) == Subscribers(reg, c);
    }
  }
}
