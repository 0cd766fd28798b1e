/** A subscriber that starts from one snapshot and then follows the events only. */
module Follower {
  import opened Order
  import opened Devices
  import opened Diff
  import opened Replication

  /** It starts from the snapshot of round `from` and applies the events of every later round. */
  function Follow(rounds: seq<Table>, from: nat, to: nat): map<string, Device>
    requires from <= to < |rounds|
  {
    if from == to then ByMac(rounds[from])
    else ApplyAll(Follow(rounds, from, to - 1), Merge(rounds[to - 1], rounds[to]))
  }

  ghost predicate AllPublishable(rounds: seq<Table>) {
    forall r :: 0 <= r < |rounds| ==> Publishable(rounds[r])
  }

  /** It holds the router's table after every round, up to the times of last sight. */
  lemma {:induction false} FollowerAgrees(rounds: seq<Table>, from: nat, to: nat)
    requires from <= to < |rounds| && AllPublishable(rounds)
    ensures Agree(Follow(rounds, from, to), ByMac(rounds[to]))
  {
    if from == to {
    } else {
      FollowerAgrees(rounds, from, to - 1);
      assert Publishable(rounds[to - 1]) && Publishable(rounds[to]);
      MergeAdvances(Follow(rounds, from, to - 1), rounds[to - 1], rounds[to]);
    }
  }

  // ----- Which records it holds

  ghost predicate Announces(prev: Table, cur: Table, mac: string) {
    exists e :: e in Merge(prev, cur) && EventMac(e) == mac
  }

  /** The last round after `from` that announced the MAC, or `from` if none did. */
  ghost function News(rounds: seq<Table>, from: nat, to: nat, mac: string): (r: nat)
    requires from <= to < |rounds|
    ensures from <= r <= to
  {
    if from == to then from
    else if Announces(rounds[to - 1], rounds[to], mac) then to
    else News(rounds, from, to - 1, mac)
  }

  /** The maps agree, absence included, about one MAC. */
  ghost predicate SameAt(m: map<string, Device>, n: map<string, Device>, mac: string) {
    (mac in m <==> mac in n) && (mac in m ==> m[mac] == n[mac])
  }

  lemma StepHolds(m: map<string, Device>, prev: Table, cur: Table, mac: string)
    requires Publishable(prev) && Publishable(cur)
    ensures SameAt(ApplyAll(m, Merge(prev, cur)), if Announces(prev, cur, mac) then ByMac(cur) else m, mac)
  {
    var es := Merge(prev, cur);
    MergeCoherent(prev, cur);
    ApplyAllReflects(m, es, Elements(es));
    if Announces(prev, cur, mac) {
      var e :| e in es && EventMac(e) == mac;
      AnnouncedIsCurrent(prev, cur, e, ApplyAll(m, es));
    }
  }

  /** About every MAC it holds what the table of the last round with news about it said. */
  lemma {:induction false} FollowerHoldsNews(rounds: seq<Table>, from: nat, to: nat, mac: string)
    requires from <= to < |rounds| && AllPublishable(rounds)
    ensures SameAt(Follow(rounds, from, to), ByMac(rounds[News(rounds, from, to, mac)]), mac)
  {
    if from == to {
    } else {
      FollowerHoldsNews(rounds, from, to - 1, mac);
      assert Publishable(rounds[to - 1]) && Publishable(rounds[to]);
      StepHolds(Follow(rounds, from, to - 1), rounds[to - 1], rounds[to], mac);
    }
  }

  /** The time of last sight in that table. */
  ghost predicate SeenThen(rounds: seq<Table>, from: nat, to: nat, d: Device)
    requires from <= to < |rounds|
  {
    var told := ByMac(rounds[News(rounds, from, to, d.mac)]);
    d.mac in told && told[d.mac].lastSeen == d.lastSeen
  }

  /** After any run of rounds it holds the very same records as the router exactly if every device
      has the time of last sight it had when there last was news about it. */
  lemma FollowerExactIff(rounds: seq<Table>, from: nat, to: nat)
    requires from <= to < |rounds| && AllPublishable(rounds)
    ensures Follow(rounds, from, to) == ByMac(rounds[to]) <==>
            forall d :: d in rounds[to] ==> SeenThen(rounds, from, to, d)
  {
    var m := Follow(rounds, from, to);
    FollowerAgrees(rounds, from, to);
    assert Publishable(rounds[to]);
    ReplicaIffByMac(m, rounds[to]);
    forall d | d in rounds[to]
      ensures d.mac in m && (m[d.mac] == d <==> SeenThen(rounds, from, to, d))
    {
      HoldsIffSeenThen(rounds, from, to, d);
    }
  }

  lemma HoldsIffSeenThen(rounds: seq<Table>, from: nat, to: nat, d: Device)
    requires from <= to < |rounds| && AllPublishable(rounds) && d in rounds[to]
    ensures var m, n := Follow(rounds, from, to), ByMac(rounds[to]);
            d.mac in m && d.mac in n && n[d.mac] == d && (m[d.mac] == d <==> SeenThen(rounds, from, to, d))
  {
    assert Publishable(rounds[to]);
    FollowerAgrees(rounds, from, to);
    SortedByMac(rounds[to], d);
    FollowerHoldsNews(rounds, from, to, d.mac);
  }

  /** A device that is merely seen again is not announced, and the follower keeps the old time. */
  lemma MerelySeenGoesUnnoticed(d: Device)
    requires d.mac != ""
    ensures var rounds := [[d], [d.(lastSeen := d.lastSeen + 1)]];
            AllPublishable(rounds) && Follow(rounds, 0, 1) != ByMac(rounds[1])
  {
    var e := d.(lastSeen := d.lastSeen + 1);
    var rounds := [[d], [e]];
    assert rounds[0][1..] == [] && rounds[1][1..] == [];
    assert Merge(rounds[0], rounds[1]) == [];
    assert Follow(rounds, 0, 0) == ByMac([d]);
    assert ByMac([d])[d.mac] == d && ByMac([e])[d.mac] == e by {
      assert d in [d] && e in [e];
    }
  }
}
