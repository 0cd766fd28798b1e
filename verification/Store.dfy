/** The web application's store: routers and devices on the heap, and the map they stand for. */
module Store {
  import opened Text
  import opened Order
  import opened Devices

  // ----- The abstract view

  datatype DeviceView = DeviceView(device: Device, vendor: string)

  datatype RouterView = RouterView(id: string, online: bool, lastUpdate: int, devicesUpdate: int,
                                   devices: map<string, DeviceView>)

  type View = map<string, RouterView>

  /** `getOrCreate` */
  function Known(v: View, id: string): RouterView {
    if id in v then v[id] else RouterView(id, false, 0, 0, map[])
  }

  function Upserted(v: View, id: string, d: DeviceView, now: int): View {
    var r := Known(v, id);
    v[id := r.(devices := r.devices[d.device.mac := d], lastUpdate := now)]
  }

  function Removed(v: View, id: string, mac: string, now: int): View {
    if id !in v then v else v[id := v[id].(devices := v[id].devices - {mac}, lastUpdate := now)]
  }

  function Replaced(v: View, id: string, updatedAt: int, ds: seq<DeviceView>, stamp: int, now: int): View {
    v[id := Known(v, id).(devices := Keyed(ds), lastUpdate := now,
                          devicesUpdate := if updatedAt > 0 then updatedAt else stamp)]
  }

  function StatusNoted(v: View, id: string, online: bool, now: int): View {
    v[id := Known(v, id).(online := online, lastUpdate := now)]
  }

  /** A list of devices as a map: a later entry replaces an earlier one with the same MAC. */
  function Keyed(ds: seq<DeviceView>): map<string, DeviceView> {
    if ds == [] then map[]
    else
      var d := ds[|ds| - 1];
      Keyed(ds[..|ds| - 1])[d.device.mac := d]
  }

  ghost predicate LastWith(ds: seq<DeviceView>, mac: string, i: int) {
    0 <= i < |ds| && ds[i].device.mac == mac && forall j :: i < j < |ds| ==> ds[j].device.mac != mac
  }

  /** Each MAC has the last device of the list with it. */
  lemma {:induction false} KeyedMeans(ds: seq<DeviceView>, mac: string)
    ensures mac in Keyed(ds) <==> exists d :: d in ds && d.device.mac == mac
    ensures forall i :: LastWith(ds, mac, i) ==> mac in Keyed(ds) && Keyed(ds)[mac] == ds[i]
  {
    if ds == [] {
    } else {
      var front, last := ds[..|ds| - 1], ds[|ds| - 1];
      assert ds == front + [last];
      KeyedMeans(front, mac);
      forall i | LastWith(ds, mac, i)
        ensures mac in Keyed(ds) && Keyed(ds)[mac] == ds[i]
      {
        if i < |front| {
          assert ds[|front|].device.mac != mac;
          assert LastWith(front, mac, i);
        }
      }
    }
  }

  /** Every key is the MAC of its device. */
  ghost predicate KeyedByMac(v: View) {
    forall id, k :: id in v && k in v[id].devices ==> v[id].devices[k].device.mac == k
  }

  // ----- The heap

  class DeviceCell {
    const device: Device
    var vendor: string

    constructor (device: Device, vendor: string)
      ensures View() == DeviceView(device, vendor)
    {
      this.device, this.vendor := device, vendor;
    }

    function View(): DeviceView
      reads this
    {
      DeviceView(device, vendor)
    }
  }

  function Views(ds: seq<DeviceCell>): seq<DeviceView>
    reads ds
  {
    seq(|ds|, i requires 0 <= i < |ds| reads ds => ds[i].View())
  }

  function DevicesIn(ds: seq<DeviceCell>): seq<Device> {
    seq(|ds|, i requires 0 <= i < |ds| => ds[i].device)
  }

  class RouterCell {
    const id: string
    var online: bool
    var lastUpdate: int
    var devicesUpdate: int
    var devices: map<string, DeviceCell>

    constructor (id: string)
      ensures View() == RouterView(id, false, 0, 0, map[]) && devices == map[]
    {
      this.id, online, lastUpdate, devicesUpdate, devices := id, false, 0, 0, map[];
    }

    function View(): RouterView
      reads this, devices.Values
    {
      RouterView(id, online, lastUpdate, devicesUpdate, map k | k in devices :: devices[k].View())
    }

    method Put(d: DeviceCell, now: int)
      modifies this
      ensures View() == old(View()).(devices := old(View()).devices[d.device.mac := d.View()], lastUpdate := now)
      ensures devices == old(devices)[d.device.mac := d]
    {
      ghost var was := View();
      devices := devices[d.device.mac := d];
      lastUpdate := now;
      assert View().devices == was.devices[d.device.mac := d.View()];
    }

    method Drop(mac: string, now: int)
      modifies this
      ensures View() == old(View()).(devices := old(View()).devices - {mac}, lastUpdate := now)
      ensures devices == old(devices) - {mac}
    {
      ghost var was := View();
      devices := devices - {mac};
      lastUpdate := now;
      assert View().devices == was.devices - {mac};
    }

    method Note(online: bool, now: int)
      modifies this
      ensures View() == old(View()).(online := online, lastUpdate := now) && devices == old(devices)
    {
      this.online := online;
      lastUpdate := now;
      assert View().devices == old(View()).devices;
    }

    /** The body of `ReplaceDevices`; `stamp` and `now` are two readings of the clock. */
    method Load(updatedAt: int, ds: seq<DeviceCell>, stamp: int, now: int)
      modifies this
      ensures View() == old(View()).(devices := Keyed(Views(ds)), lastUpdate := now,
                                     devicesUpdate := if updatedAt > 0 then updatedAt else stamp)
      ensures devices == CellMap(ds)
    {
      Fill(ds);
      assert View().devices == Keyed(Views(ds)) by {
        CellMapViews(ds);
      }
      Stamp(if updatedAt > 0 then updatedAt else stamp, now);
    }

    method Stamp(devicesUpdate: int, now: int)
      modifies this`devicesUpdate, this`lastUpdate
      ensures View() == old(View()).(lastUpdate := now, devicesUpdate := devicesUpdate)
    {
      this.devicesUpdate, lastUpdate := devicesUpdate, now;
      assert View().devices == old(View()).devices;
    }

    method Fill(ds: seq<DeviceCell>)
      modifies this`devices
      ensures devices == CellMap(ds)
    {
      devices := map[];
      for i := 0 to |ds|
        invariant devices == CellMap(ds[..i])
      {
        assert ds[..i + 1][..i] == ds[..i];
        devices := devices[ds[i].device.mac := ds[i]];
      }
      assert ds[..|ds|] == ds;
    }

    /** Cells of this router held under different keys are different. */
    ghost predicate Unshared()
      reads this
    {
      forall k, l :: k in devices && l in devices && k != l ==> devices[k] != devices[l]
    }

    /** The deep copy `Router` makes. */
    method Copy() returns (cp: RouterCell)
      ensures fresh(cp) && fresh(cp.devices.Values) && cp.Unshared()
      ensures cp.View() == View()
    {
      cp := new RouterCell(id);
      cp.online, cp.lastUpdate, cp.devicesUpdate := online, lastUpdate, devicesUpdate;
      cp.CopyDevices(this);
      assert cp.View().devices == View().devices;
    }

    /** A new cell for every device of the source, whose keys come in any order. */
    method CopyDevices(source: RouterCell)
      requires source != this && devices == map[]
      modifies this`devices
      ensures devices.Keys == source.devices.Keys && Unshared()
      ensures forall k :: k in devices ==> fresh(devices[k]) && devices[k].View() == source.devices[k].View()
    {
      var keys := source.devices.Keys;
      while keys != {}
        invariant keys <= source.devices.Keys && devices.Keys == source.devices.Keys - keys && Unshared()
        invariant forall k :: k in devices ==> fresh(devices[k]) && devices[k].View() == source.devices[k].View()
      {
        var k :| k in keys;
        var d := new DeviceCell(source.devices[k].device, source.devices[k].vendor);
        devices := devices[k := d];
        keys := keys - {k};
      }
    }

    /** Collects the devices, in any order. */
    method Collect() returns (out: seq<Device>)
      requires forall k :: k in devices ==> devices[k].device.mac == k
      ensures Distinct(out)
      ensures forall d :: d in out <==> d.mac in devices && d == devices[d.mac].device
    {
      out := [];
      var keys := devices.Keys;
      while keys != {}
        invariant keys <= devices.Keys && Distinct(out)
        invariant forall d :: d in out <==> d.mac in devices.Keys - keys && d == devices[d.mac].device
      {
        var k :| k in keys;
        out := out + [devices[k].device];
        keys := keys - {k};
      }
    }

    /** `DevicesList`: the cells in listing order. */
    method DevicesList() returns (out: seq<DeviceCell>)
      requires forall k :: k in devices ==> devices[k].device.mac == k
      ensures forall i :: 0 <= i < |out| ==> out[i] in devices.Values
      ensures IsListing(DevicesIn(out), View().devices)
    {
      var found := Collect();
      var sorted := Sort(ListLess, found);
      SortedListing(found);
      out := seq(|sorted|, i requires 0 <= i < |sorted| && sorted[i].mac in devices reads this =>
        devices[sorted[i].mac]);
      assert DevicesIn(out) == sorted;
    }
  }

  // ----- The order of the listing

  /** The comparator of `DevicesList`: named devices first, by name, then by MAC. */
  predicate ListLess(a: Device, b: Device) {
    if (a.hostname == "") != (b.hostname == "") then a.hostname != ""
    else if a.hostname != b.hostname then Less(a.hostname, b.hostname)
    else Less(a.mac, b.mac)
  }

  /** On devices with different MACs it is a strict total order. */
  lemma ListOrder(s: set<Device>)
    requires forall d, e :: d in s && e in s && d.mac == e.mac ==> d == e
    ensures StrictOrderOn(ListLess, s)
  {
    forall d, e | d in s && e in s
      ensures !ListLess(d, d)
      ensures d != e ==> ListLess(d, e) || ListLess(e, d)
    {
      LessIrreflexive(d.mac);
      LessTotal(d.mac, e.mac);
      LessTotal(d.hostname, e.hostname);
    }
    forall d, e, f | d in s && e in s && f in s && ListLess(d, e) && ListLess(e, f)
      ensures ListLess(d, f)
    {
      ListTransitive(d, e, f);
    }
  }

  lemma ListTransitive(d: Device, e: Device, f: Device)
    requires ListLess(d, e) && ListLess(e, f)
    ensures ListLess(d, f)
  {
    if d.hostname == e.hostname == f.hostname {
      LessTransitive(d.mac, e.mac, f.mac);
    } else if d.hostname != e.hostname && e.hostname != f.hostname && d.hostname != "" && e.hostname != "" {
      if f.hostname != "" {
        LessTransitive(d.hostname, e.hostname, f.hostname);
        LessTrichotomy(d.hostname, f.hostname);
      }
    }
  }

  /** The devices of the map, in listing order. */
  ghost predicate IsListing(out: seq<Device>, devices: map<string, DeviceView>) {
    && StrictlySorted(ListLess, out)
    && forall d :: d in out <==> d.mac in devices && d == devices[d.mac].device
  }

  /** In a listing named devices come before unnamed ones, names in ascending order, and devices of
      one name, or of none, in ascending order of their MACs. */
  lemma ListingMeans(out: seq<Device>, devices: map<string, DeviceView>, i: nat, j: nat)
    requires IsListing(out, devices) && i < j < |out|
    ensures out[j].hostname != "" ==> out[i].hostname != ""
    ensures out[j].hostname != "" && out[i].hostname != out[j].hostname ==> Less(out[i].hostname, out[j].hostname)
    ensures out[i].hostname == out[j].hostname ==> Less(out[i].mac, out[j].mac)
  {
    assert ListLess(out[i], out[j]);
  }

  lemma SortedListing(found: seq<Device>)
    requires Distinct(found)
    requires forall d, e :: d in found && e in found && d.mac == e.mac ==> d == e
    ensures StrictlySorted(ListLess, Sort(ListLess, found))
    ensures forall d :: d in Sort(ListLess, found) <==> d in found
  {
    ListOrder(Elements(found));
    SortSorts(ListLess, found, Elements(found));
    forall d
      ensures d in Sort(ListLess, found) <==> d in found
    {
      assert d in multiset(Sort(ListLess, found)) <==> d in multiset(found);
    }
  }

  /** The listing is the same whatever order the map is walked in and however it is sorted. */
  lemma ListingUnique(s: seq<Device>, t: seq<Device>, devices: map<string, DeviceView>)
    requires IsListing(s, devices) && IsListing(t, devices)
    ensures s == t
  {
    ListOrder(Elements(s));
    SortedDistinct(s);
    SortedDistinct(t);
    assert forall d :: d in s <==> d in t;
    SameElements(s, t);
    SortedUnique(ListLess, s, t, Elements(s));
  }

  lemma SortedDistinct(s: seq<Device>)
    requires StrictlySorted(ListLess, s)
    ensures Distinct(s)
  {
    forall i, j | 0 <= i < j < |s|
      ensures s[i] != s[j]
    {
      LessIrreflexive(s[i].mac);
      assert ListLess(s[i], s[j]);
    }
  }

  function CellMap(ds: seq<DeviceCell>): (m: map<string, DeviceCell>)
    ensures forall k :: k in m ==> m[k] in ds
  {
    if ds == [] then map[] else CellMap(ds[..|ds| - 1])[ds[|ds| - 1].device.mac := ds[|ds| - 1]]
  }

  lemma {:induction false} CellMapViews(ds: seq<DeviceCell>)
    ensures (map k | k in CellMap(ds) :: CellMap(ds)[k].View()) == Keyed(Views(ds))
  {
    if ds == [] {
    } else {
      CellMapViews(ds[..|ds| - 1]);
      assert Views(ds)[..|ds| - 1] == Views(ds[..|ds| - 1]);
    }
  }

  class Store {
    var routers: map<string, RouterCell>

    constructor ()
      ensures Valid() && View() == map[]
    {
      routers := map[];
    }

    /** The device cells of all routers. */
    ghost function Cells(): set<DeviceCell>
      reads this, routers.Values
    {
      set id, k | id in routers && k in routers[id].devices :: routers[id].devices[k]
    }

    ghost function View(): View
      reads this, routers.Values, Cells()
    {
      map id | id in routers :: routers[id].View()
    }

    ghost predicate Valid()
      reads this, routers.Values, Cells()
    {
      && (forall id :: id in routers ==> routers[id].id == id)
      && KeyedByMac(View())
    }

    /** The routers and devices that have come in are new objects. */
    twostate predicate OnlyNew()
      reads this, routers.Values
    {
      && (forall r :: r in routers.Values ==> r in old(routers).Values || fresh(r))
      && (forall c :: c in Cells() ==> c in old(Cells()) || fresh(c))
    }

    method GetOrCreate(id: string) returns (r: RouterCell)
      requires Valid()
      modifies this`routers
      ensures id in routers && r == routers[id] && (r in old(routers).Values || fresh(r))
      ensures routers == old(routers)[id := r] && r.id == id
      ensures r.View() == Known(old(View()), id)
      ensures forall k :: k in r.devices ==> r.devices[k] in old(Cells())
    {
      if id in routers {
        r := routers[id];
      } else {
        r := new RouterCell(id);
        routers := routers[id := r];
      }
    }

    /** If one router's fields are all that changed, the view changed at that router only. */
    twostate lemma OneRouterChanged(id: string, new r: RouterCell)
      requires old(Valid()) && routers == old(routers)[id := r] && r.id == id
      requires forall x :: x in old(routers).Values && x != r ==> unchanged(x)
      requires forall c :: c in old(Cells()) ==> unchanged(c)
      ensures View() == old(View())[id := r.View()]
    {
      forall other | other in routers && other != id
        ensures View()[other] == old(View())[other]
      {
        var x := routers[other];
        assert x in old(routers).Values && x.id == other;
        assert forall k :: k in x.devices ==> x.devices[k] in old(Cells());
        assert x.View().devices == old(x.View()).devices;
      }
    }

    /** No device cell comes in except by that router. */
    twostate lemma CellsOfOneRouter(id: string, new r: RouterCell, new extra: set<DeviceCell>)
      requires old(Valid()) && routers == old(routers)[id := r] && r.id == id
      requires forall x :: x in old(routers).Values && x != r ==> unchanged(x)
      requires forall k :: k in r.devices ==> r.devices[k] in old(Cells()) || r.devices[k] in extra
      ensures Cells() <= old(Cells()) + extra
    {
      forall other, k | other in routers && other != id && k in routers[other].devices
        ensures routers[other].devices[k] in old(Cells())
      {
        assert routers[other] in old(routers).Values && routers[other].id == other;
        assert old(routers)[other].devices[k] in old(Cells());
      }
    }

    twostate lemma NothingChanged()
      requires unchanged(this) && forall r :: r in routers.Values ==> unchanged(r)
      requires forall c :: c in old(Cells()) ==> unchanged(c)
      ensures View() == old(View())
    {
      forall id | id in routers
        ensures View()[id] == old(View())[id]
      {
        var r := routers[id];
        assert r in routers.Values && id in old(routers) && r == old(routers[id]) && unchanged(r);
        assert forall k :: k in r.devices ==> old(r.devices[k]) in old(Cells());
        assert r.View().devices == old(r.View()).devices;
      }
    }

    method UpsertDevice(id: string, d: DeviceCell, now: int)
      requires Valid()
      modifies this`routers, routers.Values
      ensures Valid() && View() == Upserted(old(View()), id, d.View(), now)
      ensures Cells() <= old(Cells()) + {d}
      ensures forall x :: x in routers.Values ==> x in old(routers).Values || fresh(x)
    {
      var r := GetOrCreate(id);
      r.Put(d, now);
      OneRouterChanged(id, r);
      CellsOfOneRouter(id, r, {d});
      UpsertedKeepsKeys(old(View()), id, d.View(), now);
    }

    method RemoveDevice(id: string, mac: string, now: int)
      requires Valid()
      modifies routers.Values
      ensures Valid() && View() == Removed(old(View()), id, mac, now)
      ensures Cells() <= old(Cells())
      ensures forall x :: x in routers.Values ==> x in old(routers).Values || fresh(x)
    {
      if id !in routers {
        return;
      }
      var r := routers[id];
      r.Drop(mac, now);
      assert routers == routers[id := r];
      OneRouterChanged(id, r);
      CellsOfOneRouter(id, r, {});
      RemovedKeepsKeys(old(View()), id, mac, now);
    }

    method SetOnline(id: string, online: bool, now: int)
      requires Valid()
      modifies this`routers, routers.Values
      ensures Valid() && View() == StatusNoted(old(View()), id, online, now)
      ensures Cells() <= old(Cells())
      ensures forall x :: x in routers.Values ==> x in old(routers).Values || fresh(x)
    {
      var r := GetOrCreate(id);
      r.Note(online, now);
      OneRouterChanged(id, r);
      CellsOfOneRouter(id, r, {});
    }

    /** `stamp` and `now` are two readings of the clock. */
    method ReplaceDevices(id: string, updatedAt: int, ds: seq<DeviceCell>, stamp: int, now: int)
      requires Valid()
      modifies this`routers, routers.Values
      ensures Valid() && View() == Replaced(old(View()), id, updatedAt, Views(ds), stamp, now)
      ensures Cells() <= old(Cells()) + set d | d in ds
      ensures forall x :: x in routers.Values ==> x in old(routers).Values || fresh(x)
    {
      var r := GetOrCreate(id);
      r.Load(updatedAt, ds, stamp, now);
      OneRouterChanged(id, r);
      CellsOfOneRouter(id, r, set d | d in ds);
      KeyedKeepsKeys(Views(ds));
    }

    /** A deep copy of a router, or null if it is unknown. */
    method Router(id: string) returns (cp: RouterCell?)
      requires Valid()
      ensures cp == null <==> id !in View()
      ensures cp != null ==> fresh(cp) && fresh(cp.devices.Values) && cp.Unshared() && cp.View() == View()[id]
    {
      if id !in routers {
        return null;
      }
      cp := routers[id].Copy();
    }
  }

  // ----- Every operation keeps the keys

  lemma UpsertedKeepsKeys(v: View, id: string, d: DeviceView, now: int)
    requires KeyedByMac(v)
    ensures KeyedByMac(Upserted(v, id, d, now))
  {
  }

  lemma RemovedKeepsKeys(v: View, id: string, mac: string, now: int)
    requires KeyedByMac(v)
    ensures KeyedByMac(Removed(v, id, mac, now))
  {
  }

  lemma {:induction false} KeyedKeepsKeys(ds: seq<DeviceView>)
    ensures forall k :: k in Keyed(ds) ==> Keyed(ds)[k].device.mac == k
  {
    if ds == [] {
    } else {
      KeyedKeepsKeys(ds[..|ds| - 1]);
    }
  }
}
