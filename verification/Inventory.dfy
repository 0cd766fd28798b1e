/** Building the device table: the bounded merging insert (`add_or_merge`) against a
    "group by MAC" reference, and the three passes and the sort of `rebuild`. */
module Inventory {
  import opened Text
  import opened Order
  import opened Devices
  import Mac
  import MacLaws
  import Scan
  import opened LeaseFile

  const LIMIT := 256

  // ----- The merging insert

  /** The record already kept, updated with whatever the new one knows. */
  function Merge(e: Device, d: Device): Device {
    Device(e.mac,
           if d.ip != "" then d.ip else e.ip,
           if d.hostname != "" then d.hostname else e.hostname,
           d.blocked || e.blocked,
           if d.leaseExpires != 0 then d.leaseExpires else e.leaseExpires,
           if d.lastSeen != 0 then d.lastSeen else e.lastSeen)
  }

  /** The first place of a MAC in the table, or the table's length. */
  function IndexOf(t: Table, mac: string): (i: nat)
    ensures i <= |t| && (i < |t| ==> t[i].mac == mac)
    ensures forall j :: 0 <= j < i ==> t[j].mac != mac
  {
    if t == [] then 0 else if t[0].mac == mac then 0 else 1 + IndexOf(t[1..], mac)
  }

  function Insert(t: Table, d: Device): Table {
    var i := IndexOf(t, d.mac);
    if i < |t| then t[i := Merge(t[i], d)]
    else if |t| >= LIMIT then t
    else t + [d]
  }

  function InsertAll(ds: seq<Device>): Table {
    if ds == [] then [] else Insert(InsertAll(ds[..|ds| - 1]), ds[|ds| - 1])
  }

  method MergeInto(list: array<Device>, i: nat, d: Device)
    requires i < list.Length
    modifies list
    ensures list[i] == Merge(old(list[i]), d)
    ensures forall j :: 0 <= j < list.Length && j != i ==> list[j] == old(list[j])
  {
    if d.ip != "" { list[i] := list[i].(ip := d.ip); }
    if d.hostname != "" { list[i] := list[i].(hostname := d.hostname); }
    if d.leaseExpires != 0 { list[i] := list[i].(leaseExpires := d.leaseExpires); }
    if d.lastSeen != 0 { list[i] := list[i].(lastSeen := d.lastSeen); }
    if d.blocked { list[i] := list[i].(blocked := true); }
  }

  method AddOrMerge(list: array<Device>, count: nat, d: Device) returns (count': nat)
    requires list.Length == LIMIT && count <= LIMIT
    modifies list
    ensures count' <= LIMIT
    ensures list[..count'] == Insert(old(list[..count]), d)
  {
    ghost var t := list[..count];
    for i := 0 to count
      invariant list[..count] == t
      invariant forall j :: 0 <= j < i ==> t[j].mac != d.mac
    {
      assert list[i] == t[i];
      if list[i].mac == d.mac {
        assert IndexOf(t, d.mac) == i;
        MergeInto(list, i, d);
        return count;
      }
    }
    assert IndexOf(t, d.mac) == count;
    if count >= LIMIT {
      return count;
    }
    list[count] := d;
    return count + 1;
  }

  // ----- The reference: group by MAC, the last informative value of each field wins

  ghost predicate HasMac(ds: seq<Device>, mac: string) {
    exists d :: d in ds && d.mac == mac
  }

  /** The distinct MACs, in the order of their first occurrence. */
  function Arrivals(ds: seq<Device>): (r: seq<string>)
    ensures Distinct(r)
    ensures forall m :: m in r <==> HasMac(ds, m)
  {
    if ds == [] then []
    else
      var front, d := ds[..|ds| - 1], ds[|ds| - 1];
      var r := Arrivals(front);
      assert ds == front + [d];
      assert forall m :: HasMac(ds, m) <==> m == d.mac || HasMac(front, m);
      if d.mac in r then r else r + [d.mac]
  }

  /** The last value other than `none` that a field has among the records of a MAC. */
  function Last<T(==)>(ds: seq<Device>, mac: string, field: Device -> T, none: T): T {
    if ds == [] then none
    else
      var d := ds[|ds| - 1];
      if d.mac == mac && field(d) != none then field(d) else Last(ds[..|ds| - 1], mac, field, none)
  }

  /** What `Last` means: it is `none` if no record has more, else the value of a record
      after which no record of that MAC has any. */
  lemma {:induction false} LastMeans<T>(ds: seq<Device>, mac: string, field: Device -> T, none: T)
    ensures var v := Last(ds, mac, field, none);
            if v == none then forall i :: 0 <= i < |ds| && ds[i].mac == mac ==> field(ds[i]) == none
            else exists i :: 0 <= i < |ds| && ds[i].mac == mac && field(ds[i]) == v
                        && forall j :: i < j < |ds| && ds[j].mac == mac ==> field(ds[j]) == none
  {
    if ds == [] {
    } else {
      var n := |ds| - 1;
      if !(ds[n].mac == mac && field(ds[n]) != none) {
        LastMeans(ds[..n], mac, field, none);
        if Last(ds, mac, field, none) != none {
          var i :| 0 <= i < n && ds[..n][i].mac == mac && field(ds[..n][i]) == Last(ds, mac, field, none)
                   && forall j :: i < j < n && ds[..n][j].mac == mac ==> field(ds[..n][j]) == none;
          assert ds[i].mac == mac;
          forall j | i < j < |ds| && ds[j].mac == mac ensures field(ds[j]) == none {
            assert j < n ==> ds[..n][j] == ds[j];
          }
        } else {
          forall i | 0 <= i < |ds| && ds[i].mac == mac ensures field(ds[i]) == none {
            assert i < n ==> ds[..n][i] == ds[i];
          }
        }
      }
    }
  }

  function Ip(d: Device): string { d.ip }
  function Hostname(d: Device): string { d.hostname }
  function Blocked(d: Device): bool { d.blocked }
  function LeaseExpires(d: Device): int { d.leaseExpires }
  function LastSeen(d: Device): int { d.lastSeen }

  function Summary(ds: seq<Device>, mac: string): Device {
    Device(mac, Last(ds, mac, Ip, ""), Last(ds, mac, Hostname, ""), Last(ds, mac, Blocked, false),
           Last(ds, mac, LeaseExpires, 0), Last(ds, mac, LastSeen, 0))
  }

  /** The MACs that find room: the first 256 to arrive. */
  function Kept(ds: seq<Device>): seq<string> {
    var r := Arrivals(ds);
    if |r| <= LIMIT then r else r[..LIMIT]
  }

  function Grouped(ds: seq<Device>): Table {
    var r := Kept(ds);
    seq(|r|, i requires 0 <= i < |r| => Summary(ds, r[i]))
  }

  lemma SummaryStep(ds: seq<Device>, d: Device, mac: string)
    ensures Summary(ds + [d], mac) == if d.mac == mac then Merge(Summary(ds, mac), d) else Summary(ds, mac)
  {
    assert (ds + [d])[..|ds|] == ds;
  }

  lemma {:induction false} SummaryAbsent(ds: seq<Device>, mac: string)
    requires forall i :: 0 <= i < |ds| ==> ds[i].mac != mac
    ensures Summary(ds, mac) == Blank(mac)
  {
    if ds == [] {
    } else {
      SummaryAbsent(ds[..|ds| - 1], mac);
    }
  }

  /** Inserting one by one is grouping: nothing kept loses a record, nothing dropped comes back. */
  lemma {:induction false} InsertAllGroups(ds: seq<Device>)
    ensures InsertAll(ds) == Grouped(ds)
  {
    if ds == [] {
    } else {
      var front, d := ds[..|ds| - 1], ds[|ds| - 1];
      assert ds == front + [d];
      InsertAllGroups(front);
      InsertGroups(front, d);
    }
  }

  lemma InsertGroups(front: seq<Device>, d: Device)
    ensures Insert(Grouped(front), d) == Grouped(front + [d])
  {
    var ds, t, r := front + [d], Grouped(front), Kept(front);
    assert ds[..|front|] == front;
    var i := IndexOf(t, d.mac);
    forall k | 0 <= k < |r|
      ensures Summary(ds, r[k]) == if r[k] == d.mac then Merge(t[k], d) else t[k]
    {
      SummaryStep(front, d, r[k]);
    }
    if i < |t| {
      assert r[i] == d.mac && Kept(ds) == r;
      assert forall k :: 0 <= k < |r| && k != i ==> r[k] != d.mac;
    } else {
      assert forall k :: 0 <= k < |r| ==> t[k].mac == r[k] != d.mac;
      if d.mac !in Arrivals(front) {
        SummaryAbsent(front, d.mac);
        SummaryStep(front, d, d.mac);
      }
    }
  }

  // ----- Rebuilding the table

  /** `parse_lease_line`, after `sscanf`. */
  function ParseLine(l: Line): Option<Device> {
    if l.Short? then None
    else
      match Mac.Normalize(l.mac)
      case None => None
      case Some(norm) =>
        var host := if l.host.Some? && l.host.value != "*" then l.host.value else "";
        Some(Device(norm, l.ip, host, false, l.expires, l.now))
  }

  function ParseLines(lines: seq<Line>): seq<Device> {
    if lines == [] then []
    else
      var front := ParseLines(lines[..|lines| - 1]);
      match ParseLine(lines[|lines| - 1])
      case None => front
      case Some(d) => front + [d]
  }

  /** `add_blocked_cb`: the record of a MAC reported by the listing. */
  function BlockedRecord(mac: string): Device {
    Blank(LowerAll(mac[..Scan.Min(|mac|, 17)])).(blocked := true)
  }

  function BlockedRecords(macs: seq<string>): seq<Device> {
    seq(|macs|, i requires 0 <= i < |macs| => BlockedRecord(macs[i]))
  }

  /** What one rebuild sees: the lease file (None: unreadable), the output of the listing
      command (None: not started), and the exit status of the membership query. */
  datatype World = World(leases: Option<LeaseFile.File>, listing: Option<string>, query: string -> int)

  /** `np_nft_is_blocked(mac) > 0`; a query is only made for a MAC that normalises. */
  predicate QueriedBlocked(query: string -> int, mac: string) {
    match Mac.Normalize(mac)
    case None => false
    case Some(norm) => query(norm) > 0
  }

  function LinesOf(w: World): seq<Line> {
    if w.leases.None? then [] else Lines(w.leases.value)
  }

  /** All records of one rebuild, leases first. */
  function Records(w: World): seq<Device> {
    ParseLines(LinesOf(w)) + BlockedRecords(Scan.Listed(w.listing))
  }

  function Mark(query: string -> int, d: Device): Device {
    d.(blocked := d.blocked || QueriedBlocked(query, d.mac))
  }

  function MarkAll(query: string -> int, t: Table): Table {
    seq(|t|, i requires 0 <= i < |t| => Mark(query, t[i]))
  }

  /** The table `rebuild` leaves behind. */
  function Rebuilt(w: World): Table {
    Sort(MacLess, MarkAll(w.query, InsertAll(Records(w))))
  }

  lemma GroupedEntries(ds: seq<Device>, query: string -> int)
    ensures var t := MarkAll(query, Grouped(ds));
            && Distinct(t)
            && (forall d, e :: d in t && e in t && d.mac == e.mac ==> d == e)
            && (forall d :: d in t <==> d.mac in Kept(ds) && d == Mark(query, Summary(ds, d.mac)))
  {
    var r, t := Kept(ds), MarkAll(query, Grouped(ds));
    forall d: Device | d.mac in r && d == Mark(query, Summary(ds, d.mac))
      ensures d in t
    {
      var i :| 0 <= i < |r| && r[i] == d.mac;
      assert t[i] == d;
    }
  }

  /** The rebuilt table is strictly sorted by MAC, and its entries are exactly the summaries
      of the MACs that found room, marked with the answers about the set. */
  lemma RebuiltIsInventory(w: World)
    ensures Sorted(Rebuilt(w))
    ensures forall d :: d in Rebuilt(w) <==>
                        d.mac in Kept(Records(w)) && d == Mark(w.query, Summary(Records(w), d.mac))
  {
    var ds := Records(w);
    InsertAllGroups(ds);
    GroupedEntries(ds, w.query);
    var t := MarkAll(w.query, Grouped(ds));
    MacOrder(Elements(t));
    SortSorts(MacLess, t, Elements(t));
    forall d
      ensures d in Rebuilt(w) <==> d in t
    {
      assert d in multiset(Rebuilt(w)) <==> d in multiset(t);
    }
  }

  // ----- What the set says

  /** A listing that prints the elements of the set, in any order and layout. */
  ghost predicate Prints(text: string, elements: set<string>) {
    exists items, trail :: PrintsAs(text, elements, items, trail)
  }

  ghost predicate PrintsAs(text: string, elements: set<string>, items: seq<Scan.Item>, trail: string) {
    && text == Scan.Render(items, trail)
    && (forall k :: 0 <= k < |items| ==> Scan.Padding(items[k].before) && Scan.IsMac(items[k].mac))
    && Scan.Quiet(trail)
    && Elements(Scan.Macs(items)) == elements
  }

  /** The world answers according to a set that stays the same during the rebuild. */
  ghost predicate Stable(w: World, elements: set<string>) {
    && (w.listing.Some? ==> Prints(w.listing.value, elements))
    && (forall m :: w.query(m) == if m in elements then 1 else 0)
  }

  /** What is reported of such a listing is in the set, and is the whole set unless it was cut. */
  lemma CompleteListing(text: string, elements: set<string>)
    requires Prints(text, elements)
    ensures Elements(Scan.Listed(Some(text))) <= elements
    ensures |text| <= 4095 ==> Elements(Scan.Listed(Some(text))) == elements
  {
    var items, trail :| PrintsAs(text, elements, items, trail);
    Scan.ScanRoundTrip(items, trail);
    Scan.TruncationLosesOnlyASuffix(text);
  }

  lemma ListedAreElements(w: World, elements: set<string>)
    requires Stable(w, elements)
    ensures Elements(Scan.Listed(w.listing)) <= elements
    ensures w.listing.Some? && |w.listing.value| <= 4095 ==> Elements(Scan.Listed(w.listing)) == elements
  {
    if w.listing.Some? {
      CompleteListing(w.listing.value, elements);
    }
  }

  lemma {:induction false} ParsedLine(lines: seq<Line>, d: Device)
    ensures d in ParseLines(lines) <==> exists l :: l in lines && ParseLine(l) == Some(d)
  {
    if lines == [] {
    } else {
      var n := |lines| - 1;
      assert lines == lines[..n] + [lines[n]];
      ParsedLine(lines[..n], d);
    }
  }

  /** The record of a listed MAC carries that MAC, and every record's MAC is canonical. */
  lemma RecordMacs(w: World, d: Device)
    requires d in Records(w)
    ensures Mac.Normalize(d.mac) == Some(d.mac)
    ensures d.blocked <==> d in BlockedRecords(Scan.Listed(w.listing))
    ensures d.blocked ==> d.mac in Scan.Listed(w.listing)
  {
    var listed := Scan.Listed(w.listing);
    if d in BlockedRecords(listed) {
      var i :| 0 <= i < |listed| && d == BlockedRecord(listed[i]);
      Scan.ReportedAreCanonical(Scan.Cut(w.listing.value), 0, listed[i]);
      CanonicalIsLower(listed[i]);
    } else {
      ParsedLine(LinesOf(w), d);
      var l :| l in LinesOf(w) && ParseLine(l) == Some(d);
      MacLaws.NormalizeIdempotent(l.mac);
    }
  }

  lemma CanonicalIsLower(m: string)
    requires Mac.Normalize(m) == Some(m)
    ensures |m| == 17 && LowerAll(m[..17]) == m
  {
    var a := Mac.Parse(m).value;
    forall k | 0 <= k < 17
      ensures Lower(m[k]) == m[k]
    {
      MacLaws.CanonicalAt(a, k / 3);
    }
  }

  /** A MAC flagged by its records was listed, and so is in the set. */
  lemma FlaggedIsElement(w: World, elements: set<string>, mac: string)
    requires Stable(w, elements) && Last(Records(w), mac, Blocked, false)
    ensures mac in elements
  {
    var ds := Records(w);
    LastMeans(ds, mac, Blocked, false);
    var i :| 0 <= i < |ds| && ds[i].mac == mac && Blocked(ds[i]);
    RecordMacs(w, ds[i]);
    ListedAreElements(w, elements);
    assert mac in Elements(Scan.Listed(w.listing));
  }

  lemma MarkIsMembership(w: World, elements: set<string>, mac: string)
    requires Stable(w, elements) && HasMac(Records(w), mac)
    ensures Mark(w.query, Summary(Records(w), mac)).blocked <==> mac in elements
  {
    assert QueriedBlocked(w.query, mac) <==> mac in elements by {
      var e :| e in Records(w) && e.mac == mac;
      RecordMacs(w, e);
    }
    if Last(Records(w), mac, Blocked, false) {
      FlaggedIsElement(w, elements, mac);
    }
  }

  /** Every kept entry's flag says whether its MAC is in the set, even when the listing was
      cut short or failed, and even when the table filled up. */
  lemma BlockedIffInSet(w: World, elements: set<string>, d: Device)
    requires Stable(w, elements) && d in Rebuilt(w)
    ensures d.blocked <==> d.mac in elements
  {
    RebuiltIsInventory(w);
    assert HasMac(Records(w), d.mac);
    MarkIsMembership(w, elements, d.mac);
  }

  /** The MACs of the lease lines that parse. */
  ghost function LeaseMacs(w: World): set<string> {
    set l | l in LinesOf(w) && ParseLine(l).Some? :: ParseLine(l).value.mac
  }

  lemma RecordMacsAre(w: World, m: string)
    ensures HasMac(Records(w), m) <==> m in LeaseMacs(w) || m in Scan.Listed(w.listing)
  {
    var listed := Scan.Listed(w.listing);
    if HasMac(Records(w), m) {
      var d :| d in Records(w) && d.mac == m;
      RecordMacs(w, d);
      if !d.blocked {
        ParsedLine(LinesOf(w), d);
      }
    }
    if m in LeaseMacs(w) {
      var l :| l in LinesOf(w) && ParseLine(l).Some? && ParseLine(l).value.mac == m;
      ParsedLine(LinesOf(w), ParseLine(l).value);
      assert ParseLine(l).value in Records(w);
    }
    if m in listed {
      var i :| 0 <= i < |listed| && listed[i] == m;
      Scan.ReportedAreCanonical(Scan.Cut(w.listing.value), 0, m);
      CanonicalIsLower(m);
      assert BlockedRecords(listed)[i] in Records(w) && BlockedRecord(m).mac == m;
    }
  }

  /** What is missing from the listing, if anything, is leased. */
  ghost predicate ListedOrLeased(w: World, elements: set<string>) {
    elements <= LeaseMacs(w) + Elements(Scan.Listed(w.listing))
  }

  /** Every device seen found room. */
  ghost predicate AllFit(w: World) {
    |Arrivals(Records(w))| <= 256
  }

  lemma RebuiltWithinUnion(w: World, elements: set<string>)
    requires Stable(w, elements)
    ensures Macs(Rebuilt(w)) <= LeaseMacs(w) + elements
  {
    RebuiltIsInventory(w);
    ListedAreElements(w, elements);
    forall m | m in Macs(Rebuilt(w))
      ensures m in LeaseMacs(w) + elements
    {
      RecordMacsAre(w, m);
    }
  }

  lemma RebuiltHas(w: World, m: string)
    ensures m in Macs(Rebuilt(w)) <==> m in Kept(Records(w))
  {
    RebuiltIsInventory(w);
    if m in Kept(Records(w)) {
      assert Mark(w.query, Summary(Records(w), m)) in Rebuilt(w);
    }
  }

  /** The table never holds a device that is neither leased nor blocked, and it holds all of both
      exactly if every device seen found room and no unleased one was cut off the listing. */
  lemma InventoryIsUnionIff(w: World, elements: set<string>)
    requires Stable(w, elements)
    ensures Macs(Rebuilt(w)) <= LeaseMacs(w) + elements
    ensures Macs(Rebuilt(w)) == LeaseMacs(w) + elements <==> AllFit(w) && ListedOrLeased(w, elements)
  {
    RebuiltWithinUnion(w, elements);
    ListedAreElements(w, elements);
    if AllFit(w) && ListedOrLeased(w, elements) {
      forall m | m in LeaseMacs(w) + elements
        ensures m in Macs(Rebuilt(w))
      {
        RecordMacsAre(w, m);
        RebuiltHas(w, m);
        assert m in Scan.Listed(w.listing) || m in LeaseMacs(w);
      }
    }
    if Macs(Rebuilt(w)) == LeaseMacs(w) + elements {
      UnionMeansAllFit(w, elements);
      forall m | m in elements
        ensures m in LeaseMacs(w) + Elements(Scan.Listed(w.listing))
      {
        RebuiltHas(w, m);
        RecordMacsAre(w, m);
      }
    }
  }

  /** The first device that found no room is missing. */
  lemma UnionMeansAllFit(w: World, elements: set<string>)
    requires Stable(w, elements) && Macs(Rebuilt(w)) == LeaseMacs(w) + elements
    ensures AllFit(w)
  {
    var r := Arrivals(Records(w));
    if |r| > LIMIT {
      var m := r[LIMIT];
      RecordMacsAre(w, m);
      ListedAreElements(w, elements);
      assert m in LeaseMacs(w) + elements;
      RebuiltHas(w, m);
    }
  }

  /** The records of a MAC that is not leased say that it is blocked, and nothing more. */
  lemma UnleasedRecord(w: World, d: Device)
    requires d in Records(w)
    ensures d.mac in LeaseMacs(w) || d == Blank(d.mac).(blocked := true)
  {
    if d in ParseLines(LinesOf(w)) {
      ParsedLine(LinesOf(w), d);
      var l :| l in LinesOf(w) && ParseLine(l) == Some(d);
      assert ParseLine(l).value.mac in LeaseMacs(w);
    } else {
      assert d in BlockedRecords(Scan.Listed(w.listing));
    }
  }

  lemma UnleasedSummary(w: World, mac: string)
    requires HasMac(Records(w), mac) && mac !in LeaseMacs(w)
    ensures Summary(Records(w), mac) == Blank(mac).(blocked := true)
  {
    var ds := Records(w);
    forall i | 0 <= i < |ds| && ds[i].mac == mac
      ensures ds[i] == Blank(mac).(blocked := true)
    {
      UnleasedRecord(w, ds[i]);
    }
    AllAlike(ds, mac, Blank(mac).(blocked := true));
  }

  /** The entry of a device without a lease is blank but for being blocked; its times are zero. */
  lemma UnleasedIsBlank(w: World, d: Device)
    requires d in Rebuilt(w) && d.mac !in LeaseMacs(w)
    ensures d == Device(d.mac, "", "", true, 0, 0)
  {
    RebuiltIsInventory(w);
    assert HasMac(Records(w), d.mac);
    UnleasedSummary(w, d.mac);
  }

  lemma {:induction false} AllAlike(ds: seq<Device>, mac: string, e: Device)
    requires e.mac == mac && forall i :: 0 <= i < |ds| && ds[i].mac == mac ==> ds[i] == e
    requires e.ip == e.hostname == "" && e.blocked && e.leaseExpires == e.lastSeen == 0
    ensures HasMac(ds, mac) ==> Summary(ds, mac) == e
    ensures !HasMac(ds, mac) ==> Summary(ds, mac) == Blank(mac)
  {
    if ds == [] {
    } else {
      var front, last := ds[..|ds| - 1], ds[|ds| - 1];
      assert ds == front + [last];
      AllAlike(front, mac, e);
      SummaryStep(front, last, mac);
      assert HasMac(ds, mac) <==> last.mac == mac || HasMac(front, mac);
    }
  }

  // ----- Inputs on which the union fails

  /** 257 different addresses. */
  function SomeAddress(i: nat): Mac.Address {
    [2, 0, 0, 0, i / 256 % 256, i % 256]
  }

  function SomeLease(i: nat): Lease {
    Lease("1", Mac.Canonical(SomeAddress(i)), "192.0.2.1", "*", "")
  }

  function SomeLeases(n: nat): seq<Lease> {
    seq(n, i requires 0 <= i < n => SomeLease(i))
  }

  lemma SomeLeaseIsWellWritten(i: nat)
    ensures WellWritten(SomeLease(i))
  {
    var mac := Mac.Canonical(SomeAddress(i));
    assert IsWord(mac) by {
      MacLaws.CanonicalMatches(SomeAddress(i));
    }
    assert |Written(SomeLease(i))| == 32;
  }

  lemma SomeLeasesAreRead(n: nat)
    ensures var lines := Lines(File(AllWritten(SomeLeases(n)), _ => 1));
            |lines| == n && forall i :: 0 <= i < n ==> lines[i] == AsRead(SomeLease(i), 1)
  {
    forall i: nat | i < n
      ensures WellWritten(SomeLeases(n)[i])
    {
      SomeLeaseIsWellWritten(i);
    }
    FileRoundTrip(SomeLeases(n), _ => 1);
  }

  lemma SomeMacsDiffer(i: nat, j: nat)
    requires i < j < 65536
    ensures Mac.Canonical(SomeAddress(i)) != Mac.Canonical(SomeAddress(j))
  {
    MacLaws.CanonicalRoundTrip(SomeAddress(i));
    MacLaws.CanonicalRoundTrip(SomeAddress(j));
    assert SomeAddress(i)[4] != SomeAddress(j)[4] || SomeAddress(i)[5] != SomeAddress(j)[5];
  }

  function SomeDevice(i: nat): Device {
    Device(Mac.Canonical(SomeAddress(i)), "192.0.2.1", "", false, 1, 1)
  }

  function SomeDevices(n: nat): seq<Device> {
    seq(n, i requires 0 <= i < n => SomeDevice(i))
  }

  lemma SomeLineParses(i: nat)
    ensures ParseLine(AsRead(SomeLease(i), 1)) == Some(SomeDevice(i))
  {
    MacLaws.CanonicalRoundTrip(SomeAddress(i));
    assert Decimal("1") == Decimal("") * 10 + 1;
  }

  lemma {:induction false} AllParse(lines: seq<Line>, ds: seq<Device>)
    requires |lines| == |ds| && forall i :: 0 <= i < |ds| ==> ParseLine(lines[i]) == Some(ds[i])
    ensures ParseLines(lines) == ds
  {
    if ds == [] {
    } else {
      var n := |ds| - 1;
      var front, last := ds[..n], ds[n];
      assert ds == front + [last];
      AllParse(lines[..n], front);
      assert ParseLine(lines[n]) == Some(last);
    }
  }

  lemma SomeLeasesParse(n: nat)
    ensures ParseLines(Lines(File(AllWritten(SomeLeases(n)), _ => 1))) == SomeDevices(n)
  {
    var lines := Lines(File(AllWritten(SomeLeases(n)), _ => 1));
    SomeLeasesAreRead(n);
    forall i | 0 <= i < n
      ensures ParseLine(lines[i]) == Some(SomeDevices(n)[i])
    {
      SomeLineParses(i);
    }
    AllParse(lines, SomeDevices(n));
  }

  /** Records of different devices all arrive. */
  lemma {:induction false} AllArrive(ds: seq<Device>)
    requires forall i, j :: 0 <= i < j < |ds| ==> ds[i].mac != ds[j].mac
    ensures |Arrivals(ds)| == |ds|
  {
    if ds == [] {
    } else {
      AllArrive(ds[..|ds| - 1]);
    }
  }

  lemma SomeDevicesArrive(n: nat)
    requires n < 65536
    ensures |Arrivals(SomeDevices(n))| == n
  {
    forall i, j | 0 <= i < j < n
      ensures SomeDevices(n)[i].mac != SomeDevices(n)[j].mac
    {
      SomeMacsDiffer(i, j);
    }
    AllArrive(SomeDevices(n));
  }

  lemma EmptyListing()
    ensures Prints("", {}) && Scan.Listed(Some("")) == []
  {
    assert Scan.Render([], "") == "" && Scan.Macs([]) == [];
    assert PrintsAs("", {}, [], "");
  }

  /** 257 leases and an empty set. */
  function CrowdedWorld(): World {
    World(Some(File(AllWritten(SomeLeases(LIMIT + 1)), _ => 1)), Some(""), _ => 0)
  }

  lemma CrowdedRecords()
    ensures Records(CrowdedWorld()) == SomeDevices(LIMIT + 1)
  {
    EmptyListing();
    SomeLeasesParse(LIMIT + 1);
    assert BlockedRecords([]) == [];
    assert SomeDevices(LIMIT + 1) + [] == SomeDevices(LIMIT + 1);
  }

  /** One leased device is missing. */
  lemma TooManyLeasesDropOne()
    ensures var w := CrowdedWorld();
            Stable(w, {}) && |Arrivals(Records(w))| == 257 && Macs(Rebuilt(w)) != LeaseMacs(w) + {}
  {
    EmptyListing();
    CrowdedRecords();
    SomeDevicesArrive(LIMIT + 1);
    InventoryIsUnionIff(CrowdedWorld(), {});
  }

  /** The MAC of every entry is canonical. */
  lemma EntryIsCanonical(w: World, d: Device)
    requires d in Rebuilt(w)
    ensures Mac.Normalize(d.mac) == Some(d.mac)
  {
    RebuiltIsInventory(w);
    assert HasMac(Records(w), d.mac);
    var e :| e in Records(w) && e.mac == d.mac;
    RecordMacs(w, e);
  }
}
