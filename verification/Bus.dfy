/** The web application's message handlers: from topics and payloads to the store, and how the
    store's view of one router follows the replication protocol. */
module Bus {
  import opened Text
  import opened Devices
  import opened Store
  import Diff
  import Replication
  import Topics

  /** A decoded event payload; a member that is missing from the JSON is None or empty. */
  datatype EventPayload = EventPayload(event: string, device: Option<Device>, mac: string)

  datatype SnapshotPayload = SnapshotPayload(updatedAt: int, devices: seq<Device>)

  /** The payload the router sends for an event. */
  function Wire(e: Diff.Event): EventPayload {
    match e
    case Added(d) => EventPayload("added", Some(d), "")
    case Changed(d) => EventPayload("changed", Some(d), "")
    case Removed(mac) => EventPayload("removed", None, mac)
  }

  /** A device as it is stored on arrival: the vendor is not part of the payload. */
  function Arrived(d: Device): DeviceView {
    DeviceView(d, "")
  }

  function AllArrived(ds: seq<Device>): seq<DeviceView> {
    seq(|ds|, i requires 0 <= i < |ds| => Arrived(ds[i]))
  }

  function EventHandled(v: View, id: string, p: EventPayload, now: int): View {
    if p.event == "added" || p.event == "changed" then
      if p.device.Some? then Upserted(v, id, Arrived(p.device.value), now) else v
    else if p.event == "removed" && p.mac != "" then Removed(v, id, p.mac, now)
    else v
  }

  // ----- What each handler makes of a topic and a payload, which is None if the JSON is bad

  function SnapshotReceived(v: View, topic: string, p: Option<SnapshotPayload>, stamp: int, now: int): View {
    var id := Topics.RouterId(topic);
    if id == "" || p.None? then v
    else Replaced(v, id, p.value.updatedAt, AllArrived(p.value.devices), stamp, now)
  }

  function EventReceived(v: View, topic: string, p: Option<EventPayload>, now: int): View {
    var id := Topics.RouterId(topic);
    if id == "" || p.None? then v else EventHandled(v, id, p.value, now)
  }

  function StatusReceived(v: View, topic: string, online: Option<bool>, now: int): View {
    var id := Topics.RouterId(topic);
    if id == "" || online.None? then v else StatusNoted(v, id, online.value, now)
  }

  /** A publication as the MQTT client hands it to the handler of its subscription, with the
      clock readings of the handler. */
  datatype Arrival =
    | Status(topic: string, online: Option<bool>, now: int)
    | Snapshot(topic: string, snapshot: Option<SnapshotPayload>, stamp: int, now: int)
    | Event(topic: string, event: Option<EventPayload>, now: int)

  function Received(v: View, a: Arrival): View {
    match a
    case Status(topic, online, now) => StatusReceived(v, topic, online, now)
    case Snapshot(topic, p, stamp, now) => SnapshotReceived(v, topic, p, stamp, now)
    case Event(topic, p, now) => EventReceived(v, topic, p, now)
  }

  class Handlers {
    const store: Store

    constructor (store: Store)
      ensures this.store == store
    {
      this.store := store;
    }

    /** `handleStatus` */
    method HandleStatus(topic: string, online: Option<bool>, now: int)
      requires store.Valid()
      modifies store`routers, store.routers.Values
      ensures store.Valid()
      ensures store.View() == StatusReceived(old(store.View()), topic, online, now)
      ensures store.OnlyNew()
    {
      var id := Topics.RouterId(topic);
      if id == "" || online.None? {
        return;
      }
      store.SetOnline(id, online.value, now);
    }

    /** `handleDevices` */
    method HandleDevices(topic: string, payload: Option<SnapshotPayload>, stamp: int, now: int)
      requires store.Valid()
      modifies store`routers, store.routers.Values
      ensures store.Valid()
      ensures store.View() == SnapshotReceived(old(store.View()), topic, payload, stamp, now)
      ensures store.OnlyNew()
    {
      var id := Topics.RouterId(topic);
      if id == "" || payload.None? {
        return;
      }
      Replace(id, payload.value, stamp, now);
    }

    method Replace(id: string, p: SnapshotPayload, stamp: int, now: int)
      requires store.Valid()
      modifies store`routers, store.routers.Values
      ensures store.Valid()
      ensures store.View() == Replaced(old(store.View()), id, p.updatedAt, AllArrived(p.devices), stamp, now)
      ensures store.OnlyNew()
    {
      var cells := NewCells(p.devices);
      store.NothingChanged();
      assert store.Cells() == old(store.Cells());
      store.ReplaceDevices(id, p.updatedAt, cells, stamp, now);
      assert Views(cells) == AllArrived(p.devices);
    }

    /** `handleDeviceEvent` */
    method HandleDeviceEvent(topic: string, payload: Option<EventPayload>, now: int)
      requires store.Valid()
      modifies store`routers, store.routers.Values
      ensures store.Valid()
      ensures store.View() == EventReceived(old(store.View()), topic, payload, now)
      ensures store.OnlyNew()
    {
      var id := Topics.RouterId(topic);
      if id == "" || payload.None? {
        return;
      }
      Switch(id, payload.value, now);
    }

    /** The switch on the event's name. */
    method Switch(id: string, p: EventPayload, now: int)
      requires store.Valid()
      modifies store`routers, store.routers.Values
      ensures store.Valid() && store.View() == EventHandled(old(store.View()), id, p, now)
      ensures store.OnlyNew()
    {
      if p.event == "added" || p.event == "changed" {
        if p.device.Some? {
          Upsert(id, p.device.value, now);
        }
      } else if p.event == "removed" {
        if p.mac != "" {
          store.RemoveDevice(id, p.mac, now);
        }
      }
    }

    method Upsert(id: string, device: Device, now: int)
      requires store.Valid()
      modifies store`routers, store.routers.Values
      ensures store.Valid() && store.View() == Upserted(old(store.View()), id, Arrived(device), now)
      ensures store.OnlyNew()
    {
      var d := new DeviceCell(device, "");
      assert d.View() == Arrived(device);
      store.NothingChanged();
      assert store.Cells() == old(store.Cells());
      store.UpsertDevice(id, d, now);
    }

    /** One publication. */
    method Receive(a: Arrival)
      requires store.Valid()
      modifies store`routers, store.routers.Values
      ensures store.Valid() && store.View() == Received(old(store.View()), a)
      ensures store.OnlyNew()
    {
      match a
      case Status(topic, online, now) => HandleStatus(topic, online, now);
      case Snapshot(topic, p, stamp, now) => HandleDevices(topic, p, stamp, now);
      case Event(topic, p, now) => HandleDeviceEvent(topic, p, now);
    }

    /** The cells JSON decoding allocates. */
    method NewCells(ds: seq<Device>) returns (cells: seq<DeviceCell>)
      ensures Views(cells) == AllArrived(ds) && forall d :: d in cells ==> fresh(d)
    {
      cells := [];
      for i := 0 to |ds|
        invariant |cells| == i
        invariant forall d :: d in cells ==> fresh(d)
        invariant forall k :: 0 <= k < i ==> cells[k].View() == Arrived(ds[k])
      {
        var d := new DeviceCell(ds[i], "");
        cells := cells + [d];
      }
    }
  }

  /** Events by their names: "added" and "changed" put their device, if they carry one, "removed"
      takes away the device of its MAC, if it carries one, and no other name does anything. */
  lemma EventsByName(v: View, id: string, p: EventPayload, now: int)
    ensures var (before, after) := (DevicesOf(v, id), DevicesOf(EventHandled(v, id, p, now), id));
            after == match p.event
                     case "added" => if p.device.Some? then before[p.device.value.mac := p.device.value] else before
                     case "changed" => if p.device.Some? then before[p.device.value.mac := p.device.value] else before
                     case "removed" => if p.mac != "" then before - {p.mac} else before
                     case _ => before
    ensures p.event !in ["added", "changed", "removed"] ==> EventHandled(v, id, p, now) == v
  {
    var before, after := DevicesOf(v, id), DevicesOf(EventHandled(v, id, p, now), id);
    if (p.event == "added" || p.event == "changed") && p.device.Some? {
      assert after == before[p.device.value.mac := p.device.value];
    } else if p.event == "removed" && p.mac != "" {
      assert after == before - {p.mac};
    }
  }

  /** A publication with bad JSON, or whose topic names no router, changes nothing. */
  lemma BadIsIgnored(v: View, a: Arrival)
    requires Topics.RouterId(a.topic) == "" ||
             match a case Status(_, o, _) => o.None? case Snapshot(_, p, _, _) => p.None? case Event(_, p, _) => p.None?
    ensures Received(v, a) == v
  {
  }

  /** The words of the router. */
  lemma WireMeans(e: Diff.Event)
    ensures Wire(e).event == if e.Added? then "added" else if e.Changed? then "changed" else "removed"
    ensures if e.Removed? then Wire(e).device == None && Wire(e).mac == e.mac else Wire(e).device == Some(e.device)
  {
  }

  // ----- The store follows the protocol

  /** What the store holds for one router, as the replication protocol sees it. */
  function DevicesOf(v: View, id: string): map<string, Device> {
    if id in v then map k | k in v[id].devices :: v[id].devices[k].device else map[]
  }

  lemma {:induction false} KeyedArrived(ds: seq<Device>)
    ensures (map k | k in Keyed(AllArrived(ds)) :: Keyed(AllArrived(ds))[k].device) == ByMac(ds)
  {
    if ds == [] {
    } else {
      var n := |ds| - 1;
      KeyedArrived(ds[..n]);
      assert AllArrived(ds)[..n] == AllArrived(ds[..n]);
    }
  }

  /** Handling a snapshot is what the protocol says, and no other router is touched. */
  lemma SnapshotFollows(v: View, id: string, p: SnapshotPayload, stamp: int, now: int)
    ensures var w := Replaced(v, id, p.updatedAt, AllArrived(p.devices), stamp, now);
            && DevicesOf(w, id) == Replication.Handle(DevicesOf(v, id), Replication.Snapshot(p.devices))
            && (forall other :: other != id ==> (other in w <==> other in v) && (other in v ==> w[other] == v[other]))
  {
    KeyedArrived(p.devices);
  }

  /** Handling an event as the router words it is what the protocol says. */
  lemma EventFollows(v: View, id: string, e: Diff.Event, now: int)
    ensures var w := EventHandled(v, id, Wire(e), now);
            && DevicesOf(w, id) == Replication.Handle(DevicesOf(v, id), Replication.Change(e))
            && (forall other :: other != id ==> (other in w <==> other in v) && (other in v ==> w[other] == v[other]))
  {
    var w := EventHandled(v, id, Wire(e), now);
    match e
    case Removed(mac) =>
      if mac != "" {
        assert DevicesOf(w, id) == DevicesOf(v, id) - {mac};
      }
    case _ =>
      assert DevicesOf(w, id) == DevicesOf(v, id)[e.device.mac := e.device];
  }
}
