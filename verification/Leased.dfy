/** What the table shows, in terms of the text of the lease file and of the answers about the set:
    every field of an entry, and which devices find room. */
module Leased {
  import opened Text
  import opened Order
  import opened Devices
  import opened LeaseFile
  import opened Inventory
  import Mac
  import Scan

  /** Line `i` of the file is a lease of this device. */
  ghost predicate LineOf(lines: seq<Line>, i: int, mac: string) {
    0 <= i < |lines| && lines[i].Fields? && Mac.Normalize(lines[i].mac) == Some(mac)
  }

  /** What is shown is the value of the last of the first `n` lines of the device that has any, and
      `none` if no line of it has. */
  ghost predicate Latest<T>(lines: seq<Line>, n: nat, mac: string, value: Line -> T, none: T, shown: T)
    requires n <= |lines|
  {
    if shown == none then forall i :: 0 <= i < n && LineOf(lines, i, mac) ==> value(lines[i]) == none
    else exists i :: 0 <= i < n && LineOf(lines, i, mac) && value(lines[i]) == shown
                     && forall j :: i < j < n && LineOf(lines, j, mac) ==> value(lines[j]) == none
  }

  function IpIn(l: Line): string { if l.Fields? then l.ip else "" }

  /** "*" stands for no name. */
  function NameIn(l: Line): string { if l.Fields? && l.host.Some? && l.host != Some("*") then l.host.value else "" }

  function ExpiryIn(l: Line): int { if l.Fields? then l.expires else 0 }

  function TimeIn(l: Line): int { if l.Fields? then l.now else 0 }

  /** The record a line makes, if any. */
  lemma LineRecord(l: Line)
    ensures ParseLine(l) == if l.Short? || Mac.Normalize(l.mac).None? then None
                            else Some(Device(Mac.Normalize(l.mac).value, IpIn(l), NameIn(l), false, ExpiryIn(l),
                                             TimeIn(l)))
  {
  }

  /** A field of the records, and the value of the lines it comes from. */
  ghost predicate ComesFrom<T>(field: Device -> T, value: Line -> T) {
    forall l: Line :: ParseLine(l).Some? ==> field(ParseLine(l).value) == value(l)
  }

  lemma {:induction false} LatestNext<T>(lines: seq<Line>, n: nat, mac: string, value: Line -> T, none: T,
                                         before: T, after: T)
    requires n < |lines| && Latest(lines, n, mac, value, none, before)
    requires after == if LineOf(lines, n, mac) && value(lines[n]) != none then value(lines[n]) else before
    ensures Latest(lines, n + 1, mac, value, none, after)
  {
    if after != none && !(LineOf(lines, n, mac) && value(lines[n]) != none) {
      var i :| 0 <= i < n && LineOf(lines, i, mac) && value(lines[i]) == before
               && forall j :: i < j < n && LineOf(lines, j, mac) ==> value(lines[j]) == none;
      assert forall j :: i < j < n + 1 && LineOf(lines, j, mac) ==> value(lines[j]) == none;
    }
  }

  lemma {:induction false} LatestRecord<T>(lines: seq<Line>, n: nat, mac: string, field: Device -> T,
                                           value: Line -> T, none: T)
    requires n <= |lines| && ComesFrom(field, value)
    ensures Latest(lines, n, mac, value, none, Last(ParseLines(lines[..n]), mac, field, none))
  {
    if n == 0 {
    } else {
      var k := n - 1;
      LatestRecord(lines, k, mac, field, value, none);
      LineRecord(lines[k]);
      assert lines[..n][..k] == lines[..k];
      var front := ParseLines(lines[..k]);
      if ParseLine(lines[k]).Some? {
        var d := ParseLine(lines[k]).value;
        assert ParseLines(lines[..n]) == front + [d] && (front + [d])[..|front|] == front;
      }
      LatestNext(lines, k, mac, value, none, Last(front, mac, field, none),
                 Last(ParseLines(lines[..n]), mac, field, none));
    }
  }

  /** Records that have nothing in a field do not count for it. */
  lemma {:induction false} LastSkips<T>(ds: seq<Device>, es: seq<Device>, mac: string, field: Device -> T, none: T)
    requires forall e :: e in es ==> field(e) == none
    ensures Last(ds + es, mac, field, none) == Last(ds, mac, field, none)
  {
    if es == [] {
      assert ds + es == ds;
    } else {
      var front, e := es[..|es| - 1], es[|es| - 1];
      assert (ds + es)[..|ds + es| - 1] == ds + front;
      assert e in es;
      LastSkips(ds, front, mac, field, none);
    }
  }

  lemma LatestField<T>(w: World, mac: string, field: Device -> T, value: Line -> T, none: T)
    requires ComesFrom(field, value)
    requires forall e :: e in BlockedRecords(Scan.Listed(w.listing)) ==> field(e) == none
    ensures Latest(LinesOf(w), |LinesOf(w)|, mac, value, none, Last(Records(w), mac, field, none))
  {
    var lines := LinesOf(w);
    LatestRecord(lines, |lines|, mac, field, value, none);
    assert lines[..|lines|] == lines;
    LastSkips(ParseLines(lines), BlockedRecords(Scan.Listed(w.listing)), mac, field, none);
  }

  /** The entry shows the value that the last line of its device with one has. */
  ghost predicate ShowsLatest(lines: seq<Line>, d: Device) {
    var n := |lines|;
    && Latest(lines, n, d.mac, IpIn, "", d.ip) && Latest(lines, n, d.mac, NameIn, "", d.hostname)
    && Latest(lines, n, d.mac, ExpiryIn, 0, d.leaseExpires) && Latest(lines, n, d.mac, TimeIn, 0, d.lastSeen)
  }

  lemma SummaryShowsLatest(w: World, mac: string)
    ensures ShowsLatest(LinesOf(w), Summary(Records(w), mac))
  {
    forall l: Line
      ensures ParseLine(l).Some? ==>
                var d := ParseLine(l).value;
                && Ip(d) == IpIn(l) && Hostname(d) == NameIn(l)
                && LeaseExpires(d) == ExpiryIn(l) && LastSeen(d) == TimeIn(l)
    {
      LineRecord(l);
    }
    LatestField(w, mac, Ip, IpIn, "");
    LatestField(w, mac, Hostname, NameIn, "");
    LatestField(w, mac, LeaseExpires, ExpiryIn, 0);
    LatestField(w, mac, LastSeen, TimeIn, 0);
  }

  /** Every entry of a table shows, field by field, what the last line of its device that says
      anything says: the address, the name unless it is "*", the expiry and the time of reading
      unless they are zero; and nothing where no line says anything. */
  lemma EntryShowsLatest(w: World, d: Device)
    requires d in Rebuilt(w)
    ensures ShowsLatest(LinesOf(w), d)
  {
    RebuiltIsInventory(w);
    SummaryShowsLatest(w, d.mac);
  }

  // ----- The same in terms of the text of the file

  /** The lease file of the world is written so. */
  ghost predicate HasLeases(w: World, ls: seq<Lease>) {
    && w.leases.Some? && w.leases.value.text == AllWritten(ls)
    && forall i :: 0 <= i < |ls| ==> WellWritten(ls[i])
  }

  /** Lease `i` is one of this device. */
  ghost predicate LeaseOf(ls: seq<Lease>, i: int, mac: string) {
    0 <= i < |ls| && Mac.Normalize(ls[i].mac) == Some(mac)
  }

  lemma WrittenLine(l: Lease, now: int)
    ensures var line := AsRead(l, now);
            && line.Fields? && line.mac == l.mac
            && IpIn(line) == l.ip && ExpiryIn(line) == Decimal(l.expires) && TimeIn(line) == now
            && NameIn(line) == if l.host == "*" then "" else NameRead(l.host)
  {
    assert |l.host| > 63 ==> |NameRead(l.host)| == 63;
  }

  /** The lines of the file say what the leases say. */
  lemma {:induction false} LeasesAreLines(w: World, ls: seq<Lease>, mac: string)
    requires HasLeases(w, ls)
    ensures |LinesOf(w)| == |ls| && forall i :: LeaseOf(ls, i, mac) <==> LineOf(LinesOf(w), i, mac)
    ensures forall i :: 0 <= i < |ls| ==>
              && IpIn(LinesOf(w)[i]) == ls[i].ip && ExpiryIn(LinesOf(w)[i]) == Decimal(ls[i].expires)
              && NameIn(LinesOf(w)[i]) == (if ls[i].host == "*" then "" else NameRead(ls[i].host))
              && TimeIn(LinesOf(w)[i]) == w.leases.value.clock(i)
  {
    var lines, clock := LinesOf(w), w.leases.value.clock;
    FileRoundTrip(ls, clock);
    assert |lines| == |ls| && forall i :: 0 <= i < |ls| ==> lines[i] == AsRead(ls[i], clock(i));
    LinesSayLeases(lines, ls, clock, mac);
  }

  lemma LinesSayLeases(lines: seq<Line>, ls: seq<Lease>, clock: nat -> int, mac: string)
    requires |lines| == |ls| && forall i :: 0 <= i < |ls| ==> lines[i] == AsRead(ls[i], clock(i))
    ensures forall i :: LeaseOf(ls, i, mac) <==> LineOf(lines, i, mac)
    ensures forall i :: 0 <= i < |ls| ==>
              && IpIn(lines[i]) == ls[i].ip && ExpiryIn(lines[i]) == Decimal(ls[i].expires)
              && NameIn(lines[i]) == (if ls[i].host == "*" then "" else NameRead(ls[i].host))
              && TimeIn(lines[i]) == clock(i)
  {
    forall i | 0 <= i < |ls|
      ensures lines[i].Fields? && lines[i].mac == ls[i].mac
      ensures IpIn(lines[i]) == ls[i].ip && ExpiryIn(lines[i]) == Decimal(ls[i].expires)
      ensures NameIn(lines[i]) == (if ls[i].host == "*" then "" else NameRead(ls[i].host))
      ensures TimeIn(lines[i]) == clock(i)
    {
      WrittenLine(ls[i], clock(i));
    }
  }

  lemma {:induction false} LatestOfOne<T>(lines: seq<Line>, i: nat, mac: string, value: Line -> T, none: T, shown: T)
    requires LineOf(lines, i, mac) && forall j :: LineOf(lines, j, mac) ==> j == i
    requires Latest(lines, |lines|, mac, value, none, shown)
    ensures shown == value(lines[i])
  {
  }

  lemma {:induction false} OneLineExact(lines: seq<Line>, i: nat, d: Device)
    requires ShowsLatest(lines, d)
    requires LineOf(lines, i, d.mac) && forall j :: LineOf(lines, j, d.mac) ==> j == i
    ensures d.ip == IpIn(lines[i]) && d.hostname == NameIn(lines[i])
    ensures d.leaseExpires == ExpiryIn(lines[i]) && d.lastSeen == TimeIn(lines[i])
  {
    LatestOfOne(lines, i, d.mac, IpIn, "", d.ip);
    LatestOfOne(lines, i, d.mac, NameIn, "", d.hostname);
    LatestOfOne(lines, i, d.mac, ExpiryIn, 0, d.leaseExpires);
    LatestOfOne(lines, i, d.mac, TimeIn, 0, d.lastSeen);
  }

  /** A device with one lease has exactly this record: what the lease was written with, the time
      it was read, and whether the device is in the set. */
  lemma {:induction false} OneLeaseExact(w: World, elements: set<string>, ls: seq<Lease>, i: nat, d: Device)
    requires Stable(w, elements) && HasLeases(w, ls) && d in Rebuilt(w)
    requires LeaseOf(ls, i, d.mac) && forall j :: LeaseOf(ls, j, d.mac) ==> j == i
    ensures d == Device(d.mac, ls[i].ip, if ls[i].host == "*" then "" else NameRead(ls[i].host), d.mac in elements,
                        Decimal(ls[i].expires), w.leases.value.clock(i))
  {
    EntryShowsLatest(w, d);
    BlockedIffInSet(w, elements, d);
    LeasesAreLines(w, ls, d.mac);
    OneLineExact(LinesOf(w), i, d);
  }

  /** Leases that never expire, written with expiry 0, show no expiry, and leases without a name
      show no name. */
  lemma {:induction false} NothingWrittenNothingShown(w: World, ls: seq<Lease>, d: Device)
    requires HasLeases(w, ls) && d in Rebuilt(w)
    ensures (forall i :: LeaseOf(ls, i, d.mac) ==> Decimal(ls[i].expires) == 0) ==> d.leaseExpires == 0
    ensures (forall i :: LeaseOf(ls, i, d.mac) ==> ls[i].host == "*" || ls[i].host == "") ==> d.hostname == ""
  {
    EntryShowsLatest(w, d);
    LeasesAreLines(w, ls, d.mac);
  }

  // ----- The flag, whatever the answers about the set are

  /** An entry is flagged exactly if its MAC was listed or the query about it answered with a
      positive number; a query that failed counts as no. */
  lemma FlagMeans(w: World, d: Device)
    requires d in Rebuilt(w)
    ensures d.blocked <==> d.mac in Scan.Listed(w.listing) || w.query(d.mac) > 0
  {
    RebuiltIsInventory(w);
    EntryIsCanonical(w, d);
    var ds := Records(w);
    LastMeans(ds, d.mac, Blocked, false);
    if Last(ds, d.mac, Blocked, false) {
      var i :| 0 <= i < |ds| && ds[i].mac == d.mac && Blocked(ds[i]);
      RecordMacs(w, ds[i]);
    }
    if d.mac in Scan.Listed(w.listing) {
      ListedIsRecorded(w, d.mac);
    }
  }

  lemma ListedIsRecorded(w: World, mac: string)
    requires mac in Scan.Listed(w.listing)
    ensures exists i :: 0 <= i < |Records(w)| && Records(w)[i].mac == mac && Records(w)[i].blocked
  {
    var listed := Scan.Listed(w.listing);
    var i :| 0 <= i < |listed| && listed[i] == mac;
    Scan.ReportedAreCanonical(Scan.Cut(w.listing.value), 0, mac);
    CanonicalIsLower(mac);
    var e := BlockedRecords(listed)[i];
    assert e == BlockedRecord(mac) && e.mac == mac && e.blocked;
    var p := |ParseLines(LinesOf(w))| + i;
    assert Records(w)[p] == e;
  }

  // ----- Who finds room

  lemma {:induction false} ArrivalsExtend(ds: seq<Device>, es: seq<Device>)
    ensures Arrivals(ds) <= Arrivals(ds + es)
  {
    if es == [] {
      assert ds + es == ds;
    } else {
      var front := es[..|es| - 1];
      ArrivalsExtend(ds, front);
      assert (ds + es)[..|ds + es| - 1] == ds + front;
    }
  }

  lemma {:induction false} DistinctCount(r: seq<string>)
    requires Distinct(r)
    ensures |Elements(r)| == |r|
  {
    if r == [] {
    } else {
      var front, last := r[..|r| - 1], r[|r| - 1];
      DistinctCount(front);
      assert r == front + [last] && last !in Elements(front);
      assert Elements(r) == Elements(front) + {last};
    }
  }

  lemma LeasedArrive(w: World)
    ensures Elements(Arrivals(ParseLines(LinesOf(w)))) == LeaseMacs(w)
  {
    var ds := ParseLines(LinesOf(w));
    forall m
      ensures HasMac(ds, m) <==> m in LeaseMacs(w)
    {
      if HasMac(ds, m) {
        var d :| d in ds && d.mac == m;
        ParsedLine(LinesOf(w), d);
      }
      if m in LeaseMacs(w) {
        var l :| l in LinesOf(w) && ParseLine(l).Some? && ParseLine(l).value.mac == m;
        ParsedLine(LinesOf(w), ParseLine(l).value);
      }
    }
  }

  lemma KeptCount(w: World)
    ensures |Macs(Rebuilt(w))| <= 256
  {
    var kept := Kept(Records(w));
    DistinctCount(kept);
    forall m
      ensures m in Macs(Rebuilt(w)) <==> m in Elements(kept)
    {
      RebuiltHas(w, m);
    }
    assert Macs(Rebuilt(w)) == Elements(kept);
  }

  /** The first 256 to arrive are kept, whatever comes later. */
  lemma EarlyKept(ds: seq<Device>, es: seq<Device>, m: string)
    requires m in Arrivals(ds) && |Arrivals(ds)| <= 256
    ensures m in Kept(ds + es)
  {
    var all, early := Arrivals(ds + es), Arrivals(ds);
    ArrivalsExtend(ds, es);
    var i :| 0 <= i < |early| && early[i] == m;
    assert all[i] == m;
    assert |all| > 256 ==> all[..256][i] == m;
  }

  lemma LeasedKept(w: World, m: string)
    requires m in LeaseMacs(w) && |LeaseMacs(w)| <= 256
    ensures m in Kept(Records(w))
  {
    var leased := Arrivals(ParseLines(LinesOf(w)));
    LeasedArrive(w);
    DistinctCount(leased);
    assert m in Elements(leased);
    EarlyKept(ParseLines(LinesOf(w)), BlockedRecords(Scan.Listed(w.listing)), m);
  }

  /** A table holds at most 256 devices, and a blocked one never takes the place of a leased one:
      up to 256 leased devices are all there. */
  lemma LeasedFirst(w: World)
    ensures |Macs(Rebuilt(w))| <= 256
    ensures |LeaseMacs(w)| <= 256 ==> LeaseMacs(w) <= Macs(Rebuilt(w))
  {
    KeptCount(w);
    if |LeaseMacs(w)| <= 256 {
      forall m | m in LeaseMacs(w)
        ensures m in Macs(Rebuilt(w))
      {
        LeasedKept(w, m);
        RebuiltHas(w, m);
      }
    }
  }

  /** The devices leased are those with a line that gives three fields and a MAC. */
  lemma LeasedHaveLines(w: World, mac: string)
    ensures mac in LeaseMacs(w) <==> exists i :: LineOf(LinesOf(w), i, mac)
  {
    if mac in LeaseMacs(w) {
      var l :| l in LinesOf(w) && ParseLine(l).Some? && ParseLine(l).value.mac == mac;
      var i :| 0 <= i < |LinesOf(w)| && LinesOf(w)[i] == l;
      LineRecord(l);
      assert LineOf(LinesOf(w), i, mac);
    }
    if i :| LineOf(LinesOf(w), i, mac) {
      LineRecord(LinesOf(w)[i]);
      assert LinesOf(w)[i] in LinesOf(w);
    }
  }
}
