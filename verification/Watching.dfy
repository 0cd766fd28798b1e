/** The watcher object and the versions of the lease file: any schedule of file changes, polls and
    commands on the object is a run of the version system, so its freshness is the object's. */
module Watching {
  import opened Text
  import opened Devices
  import opened Runs
  import opened Freshness
  import Inventory
  import Leases
  import Replication

  /** What happens to a watcher; a world is what the rebuild finds, if there is one. */
  datatype Event =
    | Changes(n: nat)                        // the lease file changes so often
    | Poll(n: nat, world: Inventory.World)   // it changes so often between the stat and the read
    | Republish(world: Inventory.World)      // a command was granted

  /** The version of the file after the events. */
  function FileAfter(events: seq<Event>): nat {
    if events == [] then 0
    else
      var last := events[|events| - 1];
      FileAfter(events[..|events| - 1]) + if last.Republish? then 0 else last.n
  }

  /** `texts` gives the text of every version. The rebuild of the event reads the version `v`. */
  predicate Reads(texts: nat -> string, v: nat, w: Inventory.World) {
    w.leases.Some? && w.leases.value.text == texts(v)
  }

  predicate Fits(texts: nat -> string, file: nat, e: Event) {
    match e
    case Changes(_) => true
    case Poll(n, w) => Reads(texts, file + n, w)
    case Republish(w) => Reads(texts, file, w)
  }

  ghost predicate AllFit(texts: nat -> string, events: seq<Event>) {
    forall i :: 0 <= i < |events| ==> Fits(texts, FileAfter(events[..i]), events[i])
  }

  /** The table was rebuilt from that version of the file. */
  ghost predicate BuiltFrom(texts: nat -> string, v: nat, table: Table) {
    exists w :: Reads(texts, v, w) && table == Inventory.Rebuilt(w)
  }

  /** The object is in the state of the system, between two events. */
  ghost predicate Follows(l: Leases.Watcher, s: System, texts: nat -> string)
    reads l, l.prev
  {
    && l.Valid() && l.watch == s.watch && s.phase.Idle?
    && (l.Published().Some? <==> s.table.Some?)
    && (s.table.Some? ==> BuiltFrom(texts, s.table.value, l.Published().value))
  }

  /** A table is published, and none of an older version than `oldest`. */
  ghost predicate NoOlder(texts: nat -> string, oldest: nat, newest: nat, published: Option<Table>) {
    published.Some? && exists v: nat :: oldest <= v <= newest && BuiltFrom(texts, v, published.value)
  }

  /** The states of a poll: after the stat, after the changes that follow, and at the end. */
  function Stated(stamp: nat -> Stat, s: System, n: nat): System
    requires s.phase.Idle?
  {
    var t := Take(stamp, s, StatFile);
    t.(file := t.file + n)
  }

  function Polled(stamp: nat -> Stat, s: System, n: nat): System
    requires s.phase.Idle?
  {
    Take(stamp, Stated(stamp, s, n), Finish)
  }

  lemma PollReachable(stamp: nat -> Stat, s: System, n: nat)
    requires Reachable(stamp, s) && s.phase.Idle?
    ensures Reachable(stamp, Stated(stamp, s, n)) && Reachable(stamp, Polled(stamp, s, n))
  {
    ReachableOn(stamp, s, StatFile);
    ReachableTouched(stamp, Take(stamp, s, StatFile), n);
    ReachableOn(stamp, Stated(stamp, s, n), Finish);
  }

  /** What a poll leaves published, as the system sees it: what was there, or a new table. */
  lemma PollTable(stamp: nat -> Stat, s: System, n: nat)
    requires Reachable(stamp, s) && s.phase.Idle?
    ensures var (noted, due) := NoteStat(s.watch, stamp(s.file));
            && Polled(stamp, s, n).phase.Idle?
            && Polled(stamp, s, n).watch == (if due then noted.(firstRun := false) else noted)
            && Polled(stamp, s, n).table == (if due then Some(s.file + n) else s.table)
            && (Identifies(stamp) && NeverZero(stamp) && !due ==> s.table == Some(s.file))
  {
    PollReachable(stamp, s, n);
    if Identifies(stamp) && NeverZero(stamp) {
      VersionsInOrder(stamp, Stated(stamp, s, n));
    }
  }

  /** One poll of the object is a stat, changes of the file, and the second half of the poll. */
  method PollOnce(l: Leases.Watcher, stamp: nat -> Stat, texts: nat -> string, file: nat, n: nat,
                  w: Inventory.World, ghost s: System)
    requires Follows(l, s, texts) && s.file == file && Reads(texts, file + n, w) && Reachable(stamp, s)
    modifies l, l.list, l.prev
    ensures Follows(l, Polled(stamp, s, n), texts) && Reachable(stamp, Polled(stamp, s, n))
    ensures Identifies(stamp) && NeverZero(stamp) ==> NoOlder(texts, file, file + n, l.Published())
  {
    PollReachable(stamp, s, n);
    PollTable(stamp, s, n);
    assert BuiltFrom(texts, file + n, Inventory.Rebuilt(w));
    l.Poll(Some(stamp(file)), w);
  }

  method RepublishOnce(l: Leases.Watcher, stamp: nat -> Stat, texts: nat -> string, w: Inventory.World,
                       ghost s: System)
    requires Follows(l, s, texts) && Reads(texts, s.file, w) && Reachable(stamp, s)
    modifies l, l.list, l.prev
    ensures Follows(l, Take(stamp, s, Command), texts) && Reachable(stamp, Take(stamp, s, Command))
  {
    ReachableOn(stamp, s, Command);
    l.Republish(w);
    assert BuiltFrom(texts, s.file, Inventory.Rebuilt(w));
  }

  /** One event. After a poll, the table published is no older than the version the poll saw. */
  method Happen(l: Leases.Watcher, stamp: nat -> Stat, texts: nat -> string, file: nat, e: Event, ghost s: System)
    returns (ghost t: System)
    requires Follows(l, s, texts) && s.file == file && Fits(texts, file, e) && Reachable(stamp, s)
    modifies l, l.list, l.prev
    ensures Follows(l, t, texts) && Reachable(stamp, t)
    ensures t.file == file + if e.Republish? then 0 else e.n
    ensures e.Poll? && Identifies(stamp) && NeverZero(stamp) ==> NoOlder(texts, file, t.file, l.Published())
  {
    match e
    case Changes(n) =>
      t := s.(file := file + n);
      ReachableTouched(stamp, s, n);
    case Poll(n, w) =>
      t := Polled(stamp, s, n);
      PollOnce(l, stamp, texts, file, n, w, s);
    case Republish(w) =>
      t := Take(stamp, s, Command);
      RepublishOnce(l, stamp, texts, w, s);
  }

  /** A new watcher, through any schedule. If different versions have different stats and none but
      the first has the all-zero one, then after every poll the table published is no older than
      the version the poll saw. */
  method Watch(stamp: nat -> Stat, texts: nat -> string, events: seq<Event>)
    returns (l: Leases.Watcher, ghost s: System)
    requires AllFit(texts, events)
    ensures Follows(l, s, texts) && Reachable(stamp, s) && s.file == FileAfter(events)
    ensures Identifies(stamp) && NeverZero(stamp) && events != [] && events[|events| - 1].Poll? ==>
              NoOlder(texts, FileAfter(events[..|events| - 1]), FileAfter(events), l.Published())
  {
    l := new Leases.Watcher();
    s := START;
    ReachesItself(Next(stamp), START);
    var file := 0;
    for i := 0 to |events|
      invariant fresh(l) && fresh(l.list) && fresh(l.prev)
      invariant Follows(l, s, texts) && Reachable(stamp, s) && s.file == file == FileAfter(events[..i])
      invariant Identifies(stamp) && NeverZero(stamp) && i > 0 && events[i - 1].Poll? ==>
                  NoOlder(texts, FileAfter(events[..i - 1]), file, l.Published())
    {
      var e := events[i];
      assert events[..i + 1][..i] == events[..i];
      s := Happen(l, stamp, texts, file, e, s);
      file := file + if e.Republish? then 0 else e.n;
    }
    assert events[..|events|] == events;
  }

  /** Without a lease file a new watcher publishes one round at its first poll, its snapshot alone,
      and nothing at the polls after it. */
  method PollWithoutFile(worlds: seq<Inventory.World>) returns (l: Leases.Watcher)
    requires worlds != []
    ensures l.Valid() && l.Published() == Some(Inventory.Rebuilt(worlds[0]))
    ensures l.outbox == [Replication.Snapshot(Inventory.Rebuilt(worlds[0]))]
  {
    l := new Leases.Watcher();
    Replication.FirstRoundIsSnapshot(Inventory.Rebuilt(worlds[0]));
    l.Poll(None, worlds[0]);
    ghost var table := Inventory.Rebuilt(worlds[0]);
    for i := 1 to |worlds|
      invariant fresh(l) && fresh(l.list) && fresh(l.prev)
      invariant l.Valid() && !l.watch.firstRun && l.Published() == Some(table)
      invariant l.outbox == [Replication.Snapshot(table)]
    {
      l.Poll(None, worlds[i]);
    }
  }

  /** If stats do not tell versions apart, there are schedules that go wrong on the object: it read
      version `v`, on a poll or on a command, and the poll that sees the stat of version `w` leaves
      the table as it is. */
  method MissChange(stamp: nat -> Stat, v: nat, w: nat, seen: Inventory.World, unseen: Inventory.World)
    returns (l: Leases.Watcher)
    requires v < w && (stamp(v) == stamp(w) || stamp(w) == Stat(0, 0))
    ensures l.Valid() && l.Published() == Some(Inventory.Rebuilt(seen))
    ensures l.outbox == Replication.RoundMessages(None, Inventory.Rebuilt(seen))
  {
    l := new Leases.Watcher();
    if stamp(v) == stamp(w) {
      l.Poll(Some(stamp(v)), seen);
    } else {
      l.Republish(seen);
    }
    l.Poll(Some(stamp(w)), unseen);
  }
}
