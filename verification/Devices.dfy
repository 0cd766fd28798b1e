/** Device records and the tables made of them. */
module Devices {
  import opened Text
  import opened Order

  /** One known device: `struct dev` on the router, and its JSON form on the wire. */
  datatype Device = Device(mac: string, ip: string, hostname: string, blocked: bool,
                           leaseExpires: int, lastSeen: int)

  type Table = seq<Device>

  /** The record of a device of which nothing but its MAC is known. */
  function Blank(mac: string): Device {
    Device(mac, "", "", false, 0, 0)
  }

  /** `devcmp(a, b) < 0` */
  predicate MacLess(a: Device, b: Device) {
    Less(a.mac, b.mac)
  }

  ghost predicate Sorted(t: Table) {
    StrictlySorted(MacLess, t)
  }

  function Macs(t: Table): set<string> {
    set d | d in t :: d.mac
  }

  /** The map a receiver builds from a list of devices: a later entry replaces an earlier one. */
  function ByMac(t: Table): (m: map<string, Device>)
    ensures m.Keys == Macs(t)
    ensures forall k :: k in m ==> m[k] in t && m[k].mac == k
  {
    if t == [] then map[]
    else
      var n := |t| - 1;
      assert t == t[..n] + [t[n]];
      ByMac(t[..n])[t[n].mac := t[n]]
  }

  lemma SortedIndex(t: Table, i: nat, j: nat)
    requires Sorted(t) && i < |t| && j < |t|
    ensures t[i].mac == t[j].mac <==> i == j
    ensures Less(t[i].mac, t[j].mac) <==> i < j
  {
    LessTrichotomy(t[i].mac, t[j].mac);
    if i < j {
      assert MacLess(t[i], t[j]);
    } else if j < i {
      assert MacLess(t[j], t[i]);
      LessTrichotomy(t[j].mac, t[i].mac);
    }
  }

  /** In a sorted table the map holds each entry under its own MAC. */
  lemma SortedByMac(t: Table, d: Device)
    requires Sorted(t)
    ensures d in t <==> d.mac in ByMac(t) && ByMac(t)[d.mac] == d
  {
    if d in t {
      var e := ByMac(t)[d.mac];
      var i :| 0 <= i < |t| && t[i] == d;
      var j :| 0 <= j < |t| && t[j] == e;
      SortedIndex(t, i, j);
    }
  }

  lemma MacOrder(t: set<Device>)
    requires forall d, e :: d in t && e in t && d.mac == e.mac ==> d == e
    ensures StrictOrderOn(MacLess, t)
  {
    forall d, e | d in t && e in t
      ensures !MacLess(d, d)
      ensures d != e ==> MacLess(d, e) || MacLess(e, d)
    {
      LessIrreflexive(d.mac);
      LessTotal(d.mac, e.mac);
    }
    forall d, e, f | d in t && e in t && f in t && MacLess(d, e) && MacLess(e, f)
      ensures MacLess(d, f)
    {
      LessTransitive(d.mac, e.mac, f.mac);
    }
  }

  // ----- Agreement up to the time of last sight

  /** `devs_differ`: everything but the time of last sight counts. */
  predicate Differ(a: Device, b: Device) {
    || a.mac != b.mac || a.ip != b.ip || a.hostname != b.hostname
    || a.blocked != b.blocked || a.leaseExpires != b.leaseExpires
  }

  /** The two maps hold the same devices, up to their times of last sight. */
  ghost predicate Agree(m: map<string, Device>, n: map<string, Device>) {
    m.Keys == n.Keys && forall k :: k in m ==> !Differ(m[k], n[k])
  }
}
