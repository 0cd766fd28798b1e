/** The web application serving all routers at once: any mix of their messages, by way of topics,
    subscriptions and handlers, does to the store what the replication protocol says. */
module Serving {
  import opened Text
  import opened Devices
  import opened Replication
  import Store
  import Topics
  import Bus

  /** What a router publishes, with the payload's time stamp and the clock readings of the handler. */
  datatype Delivery =
    | Report(id: string, message: Message, updatedAt: int, stamp: int, now: int)
    | Presence(id: string, online: bool, now: int)

  /** The topic the router formats. */
  function TopicOf(d: Delivery): string {
    if d.Presence? then Topics.StatusTopic(d.id)
    else if d.message.Snapshot? then Topics.DevicesTopic(d.id)
    else Topics.EventTopic(d.id)
  }

  /** The subscription it is meant for. */
  function Levels(d: Delivery): seq<string> {
    if d.Presence? then ["status"] else if d.message.Snapshot? then ["devices"] else ["event", "device"]
  }

  /** Does it get to its handler? MQTT takes no topic with a wildcard in it, the buffers of the
      router leave room for ids of these lengths, and the handlers ignore an empty id. */
  predicate Arrives(d: Delivery) {
    && d.id != "" && '+' !in d.id && '#' !in d.id
    && (d.Report? ==> |d.id| <= if d.message.Snapshot? then 109 else 136)
  }

  function HandleOne(v: Store.View, d: Delivery): Store.View {
    if !Arrives(d) then v
    else
      match d
      case Presence(id, online, now) => Store.StatusNoted(v, id, online, now)
      case Report(id, Snapshot(devices), updatedAt, stamp, now) =>
        Store.Replaced(v, id, updatedAt, Bus.AllArrived(devices), stamp, now)
      case Report(id, Change(e), _, _, now) => Bus.EventHandled(v, id, Bus.Wire(e), now)
  }

  function HandleEach(v: Store.View, ds: seq<Delivery>): Store.View {
    if ds == [] then v else HandleOne(HandleEach(v, ds[..|ds| - 1]), ds[|ds| - 1])
  }

  /** The messages of one router that arrive. */
  function Of(id: string, ds: seq<Delivery>): seq<Message> {
    if ds == [] then []
    else
      var front, d := ds[..|ds| - 1], ds[|ds| - 1];
      if d.Report? && d.id == id && Arrives(d) then Of(id, front) + [d.message] else Of(id, front)
  }

  lemma OneFollows(v: Store.View, d: Delivery, id: string)
    ensures Bus.DevicesOf(HandleOne(v, d), id) ==
            if d.Report? && d.id == id && Arrives(d) then Handle(Bus.DevicesOf(v, id), d.message)
            else Bus.DevicesOf(v, id)
  {
    if d.Report? && Arrives(d) {
      match d.message
      case Snapshot(devices) =>
        Bus.SnapshotFollows(v, d.id, Bus.SnapshotPayload(d.updatedAt, devices), d.stamp, d.now);
      case Change(e) =>
        Bus.EventFollows(v, d.id, e, d.now);
    }
  }

  /** In any mix of messages of any routers, what the store shows of each router is the protocol's
      fold of that router's own. */
  lemma {:induction false} StoreFollows(v: Store.View, ds: seq<Delivery>, id: string)
    ensures Bus.DevicesOf(HandleEach(v, ds), id) == HandleAll(Bus.DevicesOf(v, id), Of(id, ds))
  {
    if ds == [] {
    } else {
      var front, d := ds[..|ds| - 1], ds[|ds| - 1];
      StoreFollows(v, front, id);
      OneFollows(HandleEach(v, front), d, id);
      if d.Report? {
        var msgs := Of(id, front);
        assert (msgs + [d.message])[..|msgs|] == msgs;
      }
    }
  }

  /** Packet `k` carried the snapshot of round `r`, and only packets of that round were handled since. */
  ghost predicate LastSnapshot(t: Net, k: nat, r: nat) {
    && k < |t.handled| && r < |t.rounds| && t.handled[k] == Packet(r, Snapshot(t.rounds[r]))
    && forall j :: k < j < |t.handled| ==> t.handled[j].round == r
  }

  /** The messages of one router in the mix are those of a run of the protocol that ends so. */
  ghost predicate Qualifies(v: Store.View, ds: seq<Delivery>, id: string, t: Net, k: nat, r: nat) {
    Reachable(Bus.DevicesOf(v, id), t) && Of(id, ds) == Messages(t.handled) && LastSnapshot(t, k, r)
  }

  lemma StoreIsReplica(v: Store.View, ds: seq<Delivery>, id: string, t: Net, k: nat, r: nat)
    requires Qualifies(v, ds, id, t, k, r)
    ensures IsReplica(Bus.DevicesOf(HandleEach(v, ds), id), t.rounds[r])
  {
    StoreFollows(v, ds, id);
    ReachableKeepsInv(Bus.DevicesOf(v, id), t);
    ReplicaAgreement(Bus.DevicesOf(v, id), t, k, r);
  }

  // ----- The store object

  /** The publication MQTT makes of it. */
  function Publication(d: Delivery): Bus.Arrival {
    match d
    case Presence(_, online, now) => Bus.Status(TopicOf(d), Some(online), now)
    case Report(_, Snapshot(devices), updatedAt, stamp, now) =>
      Bus.Snapshot(TopicOf(d), Some(Bus.SnapshotPayload(updatedAt, devices)), stamp, now)
    case Report(_, Change(e), _, _, now) => Bus.Event(TopicOf(d), Some(Bus.Wire(e)), now)
  }

  /** Publishing, matching and handling come to that. */
  lemma PublicationIsHandled(v: Store.View, d: Delivery)
    requires '/' !in d.id
    ensures HandleOne(v, d) ==
            if Topics.Accepted(TopicOf(d)) && Topics.Subscribed(TopicOf(d), Levels(d))
            then Bus.Received(v, Publication(d)) else v
  {
    Topics.RouterIdRecoveredIff(d.id);
    Topics.AcceptedIffId(d.id);
    Topics.StatusArrives(d.id);
    Topics.SnapshotSubscribedIff(d.id);
    Topics.EventSubscribedIff(d.id);
  }

  /** One message: the router formats the topic, MQTT takes it or not, the broker matches it
      against the subscriptions, and the handler subscribed is called. */
  method Deliver(h: Bus.Handlers, d: Delivery)
    requires h.store.Valid() && '/' !in d.id
    modifies h.store`routers, h.store.routers.Values
    ensures h.store.Valid() && h.store.View() == HandleOne(old(h.store.View()), d)
    ensures forall x :: x in h.store.routers.Values ==> x in old(h.store.routers).Values || fresh(x)
  {
    PublicationIsHandled(h.store.View(), d);
    if Topics.Accepted(TopicOf(d)) && Topics.Subscribed(TopicOf(d), Levels(d)) {
      h.Receive(Publication(d));
    }
  }

  /** Any mix of messages of any routers. */
  method Serve(h: Bus.Handlers, ds: seq<Delivery>)
    requires h.store.Valid() && forall d :: d in ds ==> '/' !in d.id
    modifies h.store`routers, h.store.routers.Values
    ensures h.store.Valid() && h.store.View() == HandleEach(old(h.store.View()), ds)
  {
    for i := 0 to |ds|
      invariant h.store.Valid() && h.store.View() == HandleEach(old(h.store.View()), ds[..i])
      invariant forall x :: x in h.store.routers.Values ==> x in old(h.store.routers).Values || fresh(x)
    {
      assert ds[..i + 1][..i] == ds[..i];
      Deliver(h, ds[i]);
    }
    assert ds[..|ds|] == ds;
  }

  /** The store object holds exactly the table of every router whose messages in the mix end with
      a round's snapshot and only that round's packets after it. */
  method ServeRouters(h: Bus.Handlers, ds: seq<Delivery>)
    requires h.store.Valid() && forall d :: d in ds ==> '/' !in d.id
    modifies h.store`routers, h.store.routers.Values
    ensures h.store.Valid()
    ensures forall id, t, k: nat, r: nat :: Qualifies(old(h.store.View()), ds, id, t, k, r) ==>
              IsReplica(Bus.DevicesOf(h.store.View(), id), t.rounds[r])
  {
    ghost var v := h.store.View();
    Serve(h, ds);
    forall id, t, k: nat, r: nat | Qualifies(v, ds, id, t, k, r)
      ensures IsReplica(Bus.DevicesOf(h.store.View(), id), t.rounds[r])
    {
      StoreIsReplica(v, ds, id, t, k, r);
    }
  }
}
