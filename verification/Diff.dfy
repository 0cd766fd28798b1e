/** The change events of one round (`diff_and_emit`): a two-pointer merge over two sorted
    tables, what it announces, and what the announcements do to a subscriber's map. */
module Diff {
  import opened Text
  import opened Order
  import opened Devices

  datatype Event = Added(device: Device) | Changed(device: Device) | Removed(mac: string)

  function EventMac(e: Event): string {
    if e.Removed? then e.mac else e.device.mac
  }

  predicate EventLess(e: Event, f: Event) {
    Less(EventMac(e), EventMac(f))
  }

  /** The events of the merge, from the heads of the two tables on. */
  function Merge(prev: Table, cur: Table): seq<Event>
    decreases |prev| + |cur|
  {
    if prev == [] && cur == [] then []
    else if cur == [] then [Removed(prev[0].mac)] + Merge(prev[1..], cur)
    else if prev == [] then [Added(cur[0])] + Merge(prev, cur[1..])
    else if prev[0].mac == cur[0].mac then
      (if Differ(prev[0], cur[0]) then [Changed(cur[0])] else []) + Merge(prev[1..], cur[1..])
    else if Less(prev[0].mac, cur[0].mac) then [Removed(prev[0].mac)] + Merge(prev[1..], cur)
    else [Added(cur[0])] + Merge(prev, cur[1..])
  }

  lemma MergeRemoves(p: Table, l: Table, i: nat, j: nat, before: seq<Event>)
    requires i < |p| && j <= |l|
    requires j == |l| || (p[i].mac != l[j].mac && Less(p[i].mac, l[j].mac))
    ensures before + Merge(p[i..], l[j..]) == before + [Removed(p[i].mac)] + Merge(p[i + 1..], l[j..])
  {
    assert p[i..][1..] == p[i + 1..];
  }

  lemma MergeAdds(p: Table, l: Table, i: nat, j: nat, before: seq<Event>)
    requires i <= |p| && j < |l|
    requires i == |p| || (p[i].mac != l[j].mac && !Less(p[i].mac, l[j].mac))
    ensures before + Merge(p[i..], l[j..]) == before + [Added(l[j])] + Merge(p[i..], l[j + 1..])
  {
    assert l[j..][1..] == l[j + 1..];
  }

  lemma MergeMatches(p: Table, l: Table, i: nat, j: nat, before: seq<Event>)
    requires i < |p| && j < |l| && p[i].mac == l[j].mac
    ensures before + Merge(p[i..], l[j..]) ==
            (if Differ(p[i], l[j]) then before + [Changed(l[j])] else before) + Merge(p[i + 1..], l[j + 1..])
  {
    assert p[i..][1..] == p[i + 1..] && l[j..][1..] == l[j + 1..];
  }

  /** The loops of `diff_and_emit` over the two arrays. */
  method MergeArrays(prev: array<Device>, prevCount: nat, list: array<Device>, count: nat)
    returns (events: seq<Event>)
    requires prevCount <= prev.Length && count <= list.Length
    ensures events == Merge(prev[..prevCount], list[..count])
  {
    events := [];
    var i, j := 0, 0;
    ghost var p, l := prev[..prevCount], list[..count];
    assert p[0..] == p && l[0..] == l;
    while i < prevCount && j < count
      invariant i <= prevCount && j <= count
      invariant events + Merge(p[i..], l[j..]) == Merge(p, l)
      decreases prevCount - i + count - j
    {
      if prev[i].mac == list[j].mac {
        MergeMatches(p, l, i, j, events);
        if Differ(prev[i], list[j]) {
          events := events + [Changed(list[j])];
        }
        i, j := i + 1, j + 1;
      } else if Less(prev[i].mac, list[j].mac) {
        MergeRemoves(p, l, i, j, events);
        events := events + [Removed(prev[i].mac)];
        i := i + 1;
      } else {
        MergeAdds(p, l, i, j, events);
        events := events + [Added(list[j])];
        j := j + 1;
      }
    }
    events := MergeRest(prev, prevCount, list, count, i, j, events);
  }

  /** The two loops over what is left of either array. */
  method MergeRest(prev: array<Device>, prevCount: nat, list: array<Device>, count: nat,
                   start: nat, from: nat, before: seq<Event>) returns (events: seq<Event>)
    requires start <= prevCount <= prev.Length && from <= count <= list.Length
    requires start == prevCount || from == count
    ensures events == before + Merge(prev[..prevCount][start..], list[..count][from..])
  {
    events := before;
    var i, j := start, from;
    ghost var p, l := prev[..prevCount], list[..count];
    ghost var all := before + Merge(p[start..], l[from..]);
    while i < prevCount
      invariant i <= prevCount && (i == prevCount || j == count)
      invariant events + Merge(p[i..], l[j..]) == all
    {
      MergeRemoves(p, l, i, j, events);
      events := events + [Removed(prev[i].mac)];
      i := i + 1;
    }
    while j < count
      invariant j <= count
      invariant events + Merge(p[i..], l[j..]) == all
    {
      MergeAdds(p, l, i, j, events);
      events := events + [Added(list[j])];
      j := j + 1;
    }
  }

  // ----- What is announced

  /** The events a round ought to announce, read off the two tables as sets. */
  ghost predicate Expected(prev: Table, cur: Table, e: Event) {
    match e
    case Added(d) => d in cur && d.mac !in Macs(prev)
    case Changed(d) => d in cur && exists p :: p in prev && p.mac == d.mac && Differ(p, d)
    case Removed(mac) => mac in Macs(prev) && mac !in Macs(cur)
  }

  lemma SortedTail(t: Table)
    requires Sorted(t) && t != []
    ensures Sorted(t[1..]) && Macs(t) == {t[0].mac} + Macs(t[1..])
    ensures forall d :: d in t <==> d == t[0] || d in t[1..]
    ensures forall d :: d in t[1..] ==> Less(t[0].mac, d.mac) && d.mac != t[0].mac
  {
    assert t == [t[0]] + t[1..];
    forall d | d in t[1..]
      ensures Less(t[0].mac, d.mac) && d.mac != t[0].mac
    {
      var i :| 0 <= i < |t[1..]| && t[1..][i] == d;
      assert MacLess(t[0], t[i + 1]);
      LessTrichotomy(t[0].mac, d.mac);
    }
  }

  /** A MAC below the head of a sorted table is not in it. */
  lemma BelowHead(mac: string, t: Table)
    requires Sorted(t) && (t == [] || Less(mac, t[0].mac))
    ensures mac !in Macs(t)
    ensures forall d :: d in t ==> Less(mac, d.mac)
  {
    forall d | d in t
      ensures Less(mac, d.mac) && mac != d.mac
    {
      var i :| 0 <= i < |t| && t[i] == d;
      if i > 0 {
        assert MacLess(t[0], t[i]);
        LessTransitive(mac, t[0].mac, d.mac);
      }
      LessIrreflexive(mac);
    }
  }

  /** Exactly the expected events are announced. */
  lemma {:induction false} MergeAnnounces(prev: Table, cur: Table, e: Event)
    requires Sorted(prev) && Sorted(cur)
    ensures e in Merge(prev, cur) <==> Expected(prev, cur, e)
    decreases |prev| + |cur|
  {
    if prev == [] && cur == [] {
    } else if prev != [] && (cur == [] || Less(prev[0].mac, cur[0].mac)) {
      if cur != [] { LessTrichotomy(prev[0].mac, cur[0].mac); }
      SortedTail(prev);
      BelowHead(prev[0].mac, cur);
      MergeAnnounces(prev[1..], cur, e);
    } else if cur != [] && (prev == [] || prev[0].mac != cur[0].mac) {
      if prev != [] { LessTrichotomy(prev[0].mac, cur[0].mac); }
      SortedTail(cur);
      BelowHead(cur[0].mac, prev);
      MergeAnnounces(prev, cur[1..], e);
    } else if prev != [] {
      LessIrreflexive(prev[0].mac);
      SortedTail(prev);
      SortedTail(cur);
      MergeAnnounces(prev[1..], cur[1..], e);
    }
  }

  lemma SortedCons(e: Event, es: seq<Event>)
    requires StrictlySorted(EventLess, es) && forall f :: f in es ==> Less(EventMac(e), EventMac(f))
    ensures StrictlySorted(EventLess, [e] + es)
  {
  }

  /** The events come in strictly increasing MAC order, so there is at most one per MAC. */
  lemma {:induction false} MergeIncreases(prev: Table, cur: Table)
    requires Sorted(prev) && Sorted(cur)
    ensures StrictlySorted(EventLess, Merge(prev, cur))
    decreases |prev| + |cur|
  {
    if prev == [] && cur == [] {
    } else if prev != [] && (cur == [] || Less(prev[0].mac, cur[0].mac)) {
      if cur != [] { LessTrichotomy(prev[0].mac, cur[0].mac); }
      SortedTail(prev);
      BelowHead(prev[0].mac, cur);
      MergeIncreases(prev[1..], cur);
      MergeAbove(prev[0].mac, prev[1..], cur);
      SortedCons(Removed(prev[0].mac), Merge(prev[1..], cur));
    } else if cur != [] && (prev == [] || prev[0].mac != cur[0].mac) {
      if prev != [] { LessTrichotomy(prev[0].mac, cur[0].mac); }
      SortedTail(cur);
      BelowHead(cur[0].mac, prev);
      MergeIncreases(prev, cur[1..]);
      MergeAbove(cur[0].mac, prev, cur[1..]);
      SortedCons(Added(cur[0]), Merge(prev, cur[1..]));
    } else if prev != [] {
      LessIrreflexive(prev[0].mac);
      SortedTail(prev);
      SortedTail(cur);
      MergeIncreases(prev[1..], cur[1..]);
      MergeAbove(cur[0].mac, prev[1..], cur[1..]);
      SortedCons(Changed(cur[0]), Merge(prev[1..], cur[1..]));
    }
  }

  lemma MergeAbove(mac: string, prev: Table, cur: Table)
    requires Sorted(prev) && Sorted(cur)
    requires forall d :: d in prev || d in cur ==> Less(mac, d.mac)
    ensures forall e :: e in Merge(prev, cur) ==> Less(mac, EventMac(e))
  {
    forall e | e in Merge(prev, cur)
      ensures Less(mac, EventMac(e))
    {
      MergeAnnounces(prev, cur, e);
    }
  }

  // ----- What a subscriber does with the events

  /** One event handled by the web application: `UpsertDevice` or `RemoveDevice`. */
  function Apply(m: map<string, Device>, e: Event): map<string, Device> {
    match e
    case Added(d) => m[d.mac := d]
    case Changed(d) => m[d.mac := d]
    case Removed(mac) => if mac == "" then m else m - {mac}
  }

  function ApplyAll(m: map<string, Device>, es: seq<Event>): map<string, Device> {
    if es == [] then m else Apply(ApplyAll(m, es[..|es| - 1]), es[|es| - 1])
  }

  /** The map reflects the event. */
  ghost predicate Reflects(m: map<string, Device>, e: Event) {
    if e.Removed? then e.mac !in m else e.device.mac in m && m[e.device.mac] == e.device
  }

  /** No two different events about one MAC, and none about the empty one. */
  ghost predicate Coherent(es: set<Event>) {
    && (forall e, f :: e in es && f in es && EventMac(e) == EventMac(f) ==> e == f)
    && (forall e :: e in es ==> EventMac(e) != "")
  }

  /** An event takes effect, one about another device does not undo it, and the rest stays. */
  lemma ApplyReflects(m: map<string, Device>, e: Event)
    requires EventMac(e) != ""
    ensures Reflects(Apply(m, e), e)
    ensures forall f :: EventMac(f) != EventMac(e) && Reflects(m, f) ==> Reflects(Apply(m, e), f)
    ensures forall k :: k != EventMac(e) ==> (k in Apply(m, e) <==> k in m) && (k in m ==> Apply(m, e)[k] == m[k])
  {
  }

  /** Handled in any order and any number of times, coherent events all take effect, and
      nothing else changes. */
  lemma {:induction false} ApplyAllReflects(m: map<string, Device>, es: seq<Event>, all: set<Event>)
    requires Coherent(all) && Elements(es) <= all
    ensures forall e :: e in es ==> Reflects(ApplyAll(m, es), e)
    ensures forall k :: (forall e :: e in es ==> EventMac(e) != k) ==>
              (k in ApplyAll(m, es) <==> k in m) && (k in m ==> ApplyAll(m, es)[k] == m[k])
  {
    if es == [] {
    } else {
      var front, last := es[..|es| - 1], es[|es| - 1];
      assert es == front + [last] && last in Elements(es);
      assert Elements(front) <= Elements(es);
      ApplyAllReflects(m, front, all);
      ApplyReflects(ApplyAll(m, front), last);
      forall e | e in es
        ensures Reflects(ApplyAll(m, es), e)
      {
        assert e in Elements(es);
        if EventMac(e) != EventMac(last) {
          assert e in front;
        }
      }
    }
  }

  lemma OneEventPerMac(es: seq<Event>, i: nat, j: nat)
    requires StrictlySorted(EventLess, es) && i < |es| && j < |es|
    ensures EventMac(es[i]) == EventMac(es[j]) ==> i == j
  {
    LessIrreflexive(EventMac(es[i]));
    assert i < j ==> EventLess(es[i], es[j]);
    assert j < i ==> EventLess(es[j], es[i]);
  }

  /** The events of one round are coherent. */
  lemma MergeCoherent(prev: Table, cur: Table)
    requires Sorted(prev) && Sorted(cur) && "" !in Macs(prev) && "" !in Macs(cur)
    ensures Coherent(Elements(Merge(prev, cur)))
  {
    var es := Merge(prev, cur);
    MergeIncreases(prev, cur);
    forall e, f | e in es && f in es && EventMac(e) == EventMac(f)
      ensures e == f
    {
      var i :| 0 <= i < |es| && es[i] == e;
      var j :| 0 <= j < |es| && es[j] == f;
      OneEventPerMac(es, i, j);
    }
    forall e | e in es ensures EventMac(e) != "" {
      MergeAnnounces(prev, cur, e);
    }
  }

  /** All events of a batch commute: any order and any duplication leads to the same map. */
  lemma BatchCommutes(m: map<string, Device>, prev: Table, cur: Table, es: seq<Event>)
    requires Sorted(prev) && Sorted(cur) && "" !in Macs(prev) && "" !in Macs(cur)
    requires Elements(es) == Elements(Merge(prev, cur))
    ensures ApplyAll(m, es) == ApplyAll(m, Merge(prev, cur))
  {
    var fs := Merge(prev, cur);
    MergeCoherent(prev, cur);
    ApplyAllReflects(m, es, Elements(fs));
    ApplyAllReflects(m, fs, Elements(fs));
    var x, y := ApplyAll(m, es), ApplyAll(m, fs);
    forall k
      ensures k in x <==> k in y
      ensures k in x ==> x[k] == y[k]
    {
      if e :| e in Elements(fs) && EventMac(e) == k {
        assert e in es && e in fs;
        assert Reflects(x, e) && Reflects(y, e);
      } else {
        assert forall e :: e in es ==> e in Elements(fs);
        assert forall e :: e in fs ==> e in Elements(fs);
      }
    }
  }

  /** A MAC about which nothing is announced is in both tables, alike, or in neither. */
  lemma Unannounced(prev: Table, cur: Table, k: string)
    requires Sorted(prev) && Sorted(cur)
    requires forall e :: e in Merge(prev, cur) ==> EventMac(e) != k
    ensures k in ByMac(prev) <==> k in ByMac(cur)
    ensures k in ByMac(prev) ==> !Differ(ByMac(prev)[k], ByMac(cur)[k])
  {
    if k in ByMac(cur) {
      var d := ByMac(cur)[k];
      MergeAnnounces(prev, cur, Added(d));
      MergeAnnounces(prev, cur, Changed(d));
      assert Added(d) !in Merge(prev, cur) && Changed(d) !in Merge(prev, cur);
    } else {
      MergeAnnounces(prev, cur, Removed(k));
      assert Removed(k) !in Merge(prev, cur);
    }
  }

  /** A map that reflects an event of the merge holds what the current table holds there. */
  lemma AnnouncedIsCurrent(prev: Table, cur: Table, e: Event, x: map<string, Device>)
    requires Sorted(prev) && Sorted(cur)
    requires e in Merge(prev, cur) && Reflects(x, e)
    ensures var k := EventMac(e);
            (k in x <==> k in ByMac(cur)) && (k in x ==> x[k] == ByMac(cur)[k])
  {
    MergeAnnounces(prev, cur, e);
    if !e.Removed? {
      SortedByMac(cur, e.device);
    }
  }

  /** Events carry a subscriber that agrees with the previous table over to the current one. */
  lemma MergeAdvances(m: map<string, Device>, prev: Table, cur: Table)
    requires Sorted(prev) && Sorted(cur) && "" !in Macs(prev) && "" !in Macs(cur)
    requires Agree(m, ByMac(prev))
    ensures Agree(ApplyAll(m, Merge(prev, cur)), ByMac(cur))
  {
    var es := Merge(prev, cur);
    var x := ApplyAll(m, es);
    MergeCoherent(prev, cur);
    ApplyAllReflects(m, es, Elements(es));
    forall k
      ensures k in x <==> k in ByMac(cur)
      ensures k in x ==> !Differ(x[k], ByMac(cur)[k])
    {
      if e :| e in es && EventMac(e) == k {
        AnnouncedIsCurrent(prev, cur, e, x);
      } else {
        Unannounced(prev, cur, k);
      }
    }
  }
}
