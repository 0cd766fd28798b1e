/** The router's lease watcher (`struct np_leases`): two fixed arrays, the fields of the last
    stat, and the messages it hands to MQTT. */
module Leases {
  import opened Text
  import opened Order
  import opened Devices
  import opened Inventory
  import opened Freshness
  import Diff
  import Scan
  import LeaseFile
  import Replication

  class Watcher {
    const list: array<Device>
    var count: nat
    const prev: array<Device>
    var prevCount: nat
    var watch: Watch
    var outbox: seq<Replication.Message>

    ghost predicate Valid()
      reads this
    {
      && list != prev && list.Length == prev.Length == LIMIT
      && count <= LIMIT && prevCount <= LIMIT
    }

    /** The table last published; None before the first round. */
    ghost function Published(): Option<Table>
      reads this, prev
      requires Valid()
    {
      if watch.firstRun then None else Some(prev[..prevCount])
    }

    constructor ()
      ensures Valid() && fresh(list) && fresh(prev)
      ensures Published() == None && watch == NEW_WATCH && outbox == []
    {
      list := new Device[LIMIT](_ => Blank(""));
      prev := new Device[LIMIT](_ => Blank(""));
      count, prevCount := 0, 0;
      watch := NEW_WATCH;
      outbox := [];
    }

    method Rebuild(w: World)
      requires Valid()
      modifies this`count, list
      ensures Valid() && list[..count] == Rebuilt(w)
    {
      count := 0;
      if w.leases.Some? {
        ReadLeases(w.leases.value);
      }
      var macs := Scan.List(w.listing);
      AddBlocked(macs, ParseLines(LinesOf(w)));
      MarkBlocked(w.query);
      SortList();
    }

    /** First pass: the lines of the lease file that parse. */
    method ReadLeases(file: LeaseFile.File)
      requires Valid() && count == 0
      modifies this`count, list
      ensures Valid() && list[..count] == InsertAll(ParseLines(LeaseFile.Lines(file)))
    {
      ghost var lines := LeaseFile.Lines(file);
      var rest, k := file.text, 0;
      while rest != ""
        invariant k <= |lines| && LeaseFile.Chunks(file.text)[k..] == LeaseFile.Chunks(rest)
        invariant Valid() && list[..count] == InsertAll(ParseLines(lines[..k]))
        decreases |rest|
      {
        var n := FgetsLength(rest, LeaseFile.CAPACITY - 1);
        LeaseFile.NextChunk(LeaseFile.Chunks(file.text), k, rest);
        ReadLine(lines, k, LeaseFile.ScanLine(rest[..n], file.clock(k)));
        rest, k := rest[n..], k + 1;
      }
      assert lines[..k] == lines;
    }

    method ReadLine(ghost lines: seq<LeaseFile.Line>, ghost k: nat, line: LeaseFile.Line)
      requires Valid() && k < |lines| && line == lines[k] && list[..count] == InsertAll(ParseLines(lines[..k]))
      modifies this`count, list
      ensures Valid() && list[..count] == InsertAll(ParseLines(lines[..k + 1]))
    {
      assert lines[..k + 1][..k] == lines[..k];
      var d := ParseLine(line);
      if d.Some? {
        InsertOneMore(ParseLines(lines[..k]), d.value);
        count := AddOrMerge(list, count, d.value);
      }
    }

    /** Second pass: the MACs the listing reports. */
    method AddBlocked(macs: seq<string>, ghost ds: seq<Device>)
      requires Valid() && list[..count] == InsertAll(ds)
      modifies this`count, list
      ensures Valid() && list[..count] == InsertAll(ds + BlockedRecords(macs))
    {
      assert ds + BlockedRecords(macs[..0]) == ds;
      for k := 0 to |macs|
        invariant Valid() && list[..count] == InsertAll(ds + BlockedRecords(macs[..k]))
      {
        OneMoreBlocked(ds, macs, k);
        count := AddOrMerge(list, count, BlockedRecord(macs[k]));
      }
      assert macs[..|macs|] == macs;
    }

    /** Third pass: entries not known to be blocked are queried one by one. */
    method MarkBlocked(query: string -> int)
      requires Valid()
      modifies list
      ensures list[..count] == MarkAll(query, old(list[..count]))
    {
      ghost var t := list[..count];
      for i := 0 to count
        invariant forall k :: 0 <= k < i ==> list[k] == Mark(query, t[k])
        invariant forall k :: i <= k < count ==> list[k] == t[k]
      {
        if !list[i].blocked {
          list[i] := list[i].(blocked := QueriedBlocked(query, list[i].mac));
        }
      }
    }

    /** `qsort` with `devcmp` on the entries in use. */
    method SortList()
      requires Valid()
      modifies list
      ensures list[..count] == Sort(MacLess, old(list[..count]))
    {
      var sorted := Sort(MacLess, list[..count]);
      SortLength(MacLess, list[..count]);
      forall k | 0 <= k < count {
        list[k] := sorted[k];
      }
    }

    /** Announces what changed since the previous round, and remembers the table. */
    method DiffAndEmit()
      requires Valid()
      modifies this`watch, this`prevCount, this`outbox, prev
      ensures Valid() && Published() == Some(list[..count])
      ensures watch == old(watch).(firstRun := false)
      ensures outbox == old(outbox) + Replication.Changes(
                if old(Published()).None? then [] else Diff.Merge(old(Published()).value, list[..count]))
    {
      ghost var before := Published();
      var events := [];
      if watch.firstRun {
        watch := watch.(firstRun := false);
        assert outbox == outbox + Replication.Changes(events);
      } else {
        events := Diff.MergeArrays(prev, prevCount, list, count);
        outbox := outbox + Replication.Changes(events);
      }
      assert events == if before.None? then [] else Diff.Merge(before.value, list[..count]);
      forall k | 0 <= k < count {
        prev[k] := list[k];
      }
      prevCount := count;
      assert prev[..prevCount] == list[..count];
      assert list[..count] == old(list[..count]);
    }

    /** One round: what is sent depends on the table published before and on the world only. */
    method Republish(w: World)
      requires Valid()
      modifies this`count, this`watch, this`prevCount, this`outbox, list, prev
      ensures Valid() && Published() == Some(Rebuilt(w))
      ensures watch == old(watch).(firstRun := false)
      ensures outbox == old(outbox) + Replication.RoundMessages(old(Published()), Rebuilt(w))
    {
      Rebuild(w);
      DiffAndEmit();
      outbox := outbox + [Replication.Snapshot(list[..count])];
    }

    /** `st` is the stat of the lease file, `w` the world as a rebuild would find it after that. */
    method Poll(st: Option<Stat>, w: World)
      requires Valid()
      modifies this`count, this`watch, this`prevCount, this`outbox, list, prev
      ensures Valid()
      ensures if old(watch.firstRun) || (st.Some? && st.value != old(watch.last)) then
                && watch == Watch(if st.Some? then st.value else old(watch.last), false)
                && Published() == Some(Rebuilt(w))
                && outbox == old(outbox) + Replication.RoundMessages(old(Published()), Rebuilt(w))
              else
                watch == old(watch) && Published() == old(Published()) && outbox == old(outbox)
    {
      var changed := false;
      if st.Some? {
        if st.value != watch.last {
          watch := watch.(last := st.value);
          changed := true;
        }
      }
      if changed || watch.firstRun {
        Republish(w);
      }
    }
  }

  lemma InsertOneMore(ds: seq<Device>, d: Device)
    ensures InsertAll(ds + [d]) == Insert(InsertAll(ds), d)
  {
    assert (ds + [d])[..|ds|] == ds;
  }

  lemma OneMoreBlocked(ds: seq<Device>, macs: seq<string>, k: nat)
    requires k < |macs|
    ensures InsertAll(ds + BlockedRecords(macs[..k + 1])) ==
            Insert(InsertAll(ds + BlockedRecords(macs[..k])), BlockedRecord(macs[k]))
  {
    var before, d := BlockedRecords(macs[..k]), BlockedRecord(macs[k]);
    assert BlockedRecords(macs[..k + 1]) == before + [d];
    assert ds + (before + [d]) == ds + before + [d];
    InsertOneMore(ds + before, d);
  }
}
