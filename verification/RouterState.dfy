/** What the web store shows of a router besides its devices: whether it is online, and the times of
    its last message and of its last snapshot, read off the messages that arrived. */
module RouterState {
  import opened Text
  import opened Devices
  import opened Replication
  import opened Serving
  import Diff
  import Store
  import Bus

  predicate IsStatus(d: Delivery, id: string) {
    Arrives(d) && d.id == id && d.Presence?
  }

  predicate IsSnapshot(d: Delivery, id: string) {
    Arrives(d) && d.id == id && d.Report? && d.message.Snapshot?
  }

  predicate IsUpsert(d: Delivery, id: string) {
    Arrives(d) && d.id == id && d.Report? && d.message.Change? && !d.message.event.Removed?
  }

  predicate IsRemoval(d: Delivery, id: string) {
    Arrives(d) && d.id == id && d.Report? && d.message.Change? && d.message.event.Removed? && d.message.event.mac != ""
  }

  /** The messages that make a router known; a removal does not. */
  predicate Introduces(d: Delivery, id: string) {
    IsStatus(d, id) || IsSnapshot(d, id) || IsUpsert(d, id)
  }

  /** The messages noted as an update: a removal only counts for a router known by then. */
  ghost predicate Touches(v: Store.View, ds: seq<Delivery>, i: int, id: string)
    requires 0 <= i < |ds|
  {
    Introduces(ds[i], id) ||
    (IsRemoval(ds[i], id) && (id in v || exists j :: 0 <= j < i && Introduces(ds[j], id)))
  }

  /** The router is known exactly if it was before or some message introduced it. */
  lemma {:induction false} KnownIff(v: Store.View, ds: seq<Delivery>, id: string)
    ensures id in HandleEach(v, ds) <==> id in v || exists i :: 0 <= i < |ds| && Introduces(ds[i], id)
  {
    if ds == [] {
    } else {
      var n := |ds| - 1;
      KnownIff(v, ds[..n], id);
      OneKnown(HandleEach(v, ds[..n]), ds[n], id);
      if i :| 0 <= i < n && Introduces(ds[..n][i], id) {
        assert Introduces(ds[i], id);
      }
      if i :| 0 <= i < n && Introduces(ds[i], id) {
        assert Introduces(ds[..n][i], id);
      }
    }
  }

  lemma OneKnown(v: Store.View, d: Delivery, id: string)
    ensures id in HandleOne(v, d) <==> id in v || Introduces(d, id)
  {
    if d.Report? && d.message.Change? && d.message.event.Removed? {
      assert HandleOne(v, d).Keys == v.Keys;
    }
  }

  /** What one message does to the fields of one router. */
  lemma OneMessage(v: Store.View, d: Delivery, id: string)
    requires id in HandleOne(v, d)
    ensures var r := HandleOne(v, d)[id];
            && r.online == (if IsStatus(d, id) then d.online else id in v && v[id].online)
            && r.lastUpdate == (if Introduces(d, id) || (IsRemoval(d, id) && id in v) then d.now
                                else if id in v then v[id].lastUpdate else 0)
            && r.devicesUpdate == if IsSnapshot(d, id) then if d.updatedAt > 0 then d.updatedAt else d.stamp
                                  else if id in v then v[id].devicesUpdate else 0
  {
  }

  // ----- The last message of a kind

  /** `i` is the last place before `n` where `p` holds. */
  ghost predicate LastAt(n: nat, p: nat -> bool, i: nat) {
    i < n && p(i) && forall j: nat :: i < j < n ==> !p(j)
  }

  ghost predicate NoneBefore(n: nat, p: nat -> bool) {
    forall i: nat :: i < n ==> !p(i)
  }

  /** What is shown of a known router is the value of the last message of a kind before `n`, and
      what it was, or is for a new router, if there was none. */
  ghost predicate ShowsLast<T>(n: nat, p: nat -> bool, value: nat -> T, was: T, known: bool, shown: T) {
    && (forall i: nat :: LastAt(n, p, i) ==> known && shown == value(i))
    && (NoneBefore(n, p) && known ==> shown == was)
  }

  lemma LastNext(n: nat, p: nat -> bool, i: nat)
    requires LastAt(n + 1, p, i)
    ensures p(n) ==> i == n
    ensures !p(n) ==> LastAt(n, p, i)
  {
  }

  lemma NoneNext(n: nat, p: nat -> bool)
    ensures NoneBefore(n + 1, p) <==> NoneBefore(n, p) && !p(n)
  {
  }

  lemma {:induction false} ShowsNext<T>(n: nat, p: nat -> bool, value: nat -> T, was: T, known: bool, shown: T,
                                        known': bool, shown': T)
    requires ShowsLast(n, p, value, was, known, shown) && (known || p(n) ==> known')
    requires known' ==> shown' == if p(n) then value(n) else if known then shown else was
    ensures ShowsLast(n + 1, p, value, was, known', shown')
  {
    NoneNext(n, p);
    forall i: nat | LastAt(n + 1, p, i)
      ensures known' && shown' == value(i)
    {
      LastNext(n, p, i);
    }
  }

  /** What message `n` does to the fields of a router. */
  lemma OneMore(v: Store.View, ds: seq<Delivery>, n: nat, id: string)
    requires n < |ds|
    ensures var (d, before, after) := (ds[n], HandleEach(v, ds[..n]), HandleEach(v, ds[..n + 1]));
            && (id in v ==> id in before)
            && (id in after <==> id in before || Introduces(d, id))
            && (Touches(v, ds, n, id) <==> Introduces(d, id) || (IsRemoval(d, id) && id in before))
            && (id in after ==>
                  && after[id].online == (if IsStatus(d, id) then d.online else id in before && before[id].online)
                  && after[id].lastUpdate == (if Touches(v, ds, n, id) then d.now
                                              else if id in before then before[id].lastUpdate else 0)
                  && after[id].devicesUpdate ==
                     if IsSnapshot(d, id) then if d.updatedAt > 0 then d.updatedAt else d.stamp
                     else if id in before then before[id].devicesUpdate else 0)
  {
    assert ds[..n + 1][..n] == ds[..n];
    KnownIff(v, ds[..n], id);
    OneKnown(HandleEach(v, ds[..n]), ds[n], id);
    TouchesIff(v, ds, n, id);
    if id in HandleEach(v, ds[..n + 1]) {
      OneMessage(HandleEach(v, ds[..n]), ds[n], id);
    }
  }

  lemma TouchesIff(v: Store.View, ds: seq<Delivery>, n: nat, id: string)
    requires n < |ds|
    ensures Touches(v, ds, n, id) <==>
            Introduces(ds[n], id) || (IsRemoval(ds[n], id) && id in HandleEach(v, ds[..n]))
  {
    KnownIff(v, ds[..n], id);
    if j :| 0 <= j < n && Introduces(ds[j], id) {
      assert Introduces(ds[..n][j], id);
    }
    if j :| 0 <= j < n && Introduces(ds[..n][j], id) {
      assert Introduces(ds[j], id);
    }
  }

  // ----- Online, the time of the last snapshot, the time of the last update

  function Online(v: Store.View, id: string): bool { id in v && v[id].online }

  function SnapshotTime(v: Store.View, id: string): int { if id in v then v[id].devicesUpdate else 0 }

  function UpdateTime(v: Store.View, id: string): int { if id in v then v[id].lastUpdate else 0 }

  /** A router is online exactly if the last of its status messages that arrived said so. */
  ghost predicate OnlineRule(v: Store.View, ds: seq<Delivery>, n: nat, w: Store.View, id: string) {
    ShowsLast(n, (i: nat) => i < |ds| && IsStatus(ds[i], id), (i: nat) => i < |ds| && ds[i].Presence? && ds[i].online,
              Online(v, id), id in w, Online(w, id))
  }

  /** The time of a snapshot: what it carries, if that is positive, or else when it came. */
  function Stamped(d: Delivery): int {
    if d.Presence? then 0 else if d.updatedAt > 0 then d.updatedAt else d.stamp
  }

  ghost predicate SnapshotTimeRule(v: Store.View, ds: seq<Delivery>, n: nat, w: Store.View, id: string) {
    ShowsLast(n, (i: nat) => i < |ds| && IsSnapshot(ds[i], id), (i: nat) => if i < |ds| then Stamped(ds[i]) else 0,
              SnapshotTime(v, id), id in w, SnapshotTime(w, id))
  }

  ghost predicate UpdateTimeRule(v: Store.View, ds: seq<Delivery>, n: nat, w: Store.View, id: string) {
    ShowsLast(n, (i: nat) => i < |ds| && Touches(v, ds, i, id), (i: nat) => if i < |ds| then ds[i].now else 0,
              UpdateTime(v, id), id in w, UpdateTime(w, id))
  }

  ghost predicate StateRule(v: Store.View, ds: seq<Delivery>, n: nat, w: Store.View, id: string) {
    OnlineRule(v, ds, n, w, id) && SnapshotTimeRule(v, ds, n, w, id) && UpdateTimeRule(v, ds, n, w, id)
  }

  lemma StateNext(v: Store.View, ds: seq<Delivery>, n: nat, before: Store.View, after: Store.View, id: string)
    requires n < |ds| && StateRule(v, ds, n, before, id)
    requires before == HandleEach(v, ds[..n]) && after == HandleEach(v, ds[..n + 1])
    ensures StateRule(v, ds, n + 1, after, id)
  {
    OneMore(v, ds, n, id);
    ShowsNext(n, (i: nat) => i < |ds| && IsStatus(ds[i], id), (i: nat) => i < |ds| && ds[i].Presence? && ds[i].online,
              Online(v, id), id in before, Online(before, id), id in after, Online(after, id));
    ShowsNext(n, (i: nat) => i < |ds| && IsSnapshot(ds[i], id), (i: nat) => if i < |ds| then Stamped(ds[i]) else 0,
              SnapshotTime(v, id), id in before, SnapshotTime(before, id), id in after, SnapshotTime(after, id));
    ShowsNext(n, (i: nat) => i < |ds| && Touches(v, ds, i, id), (i: nat) => if i < |ds| then ds[i].now else 0,
              UpdateTime(v, id), id in before, UpdateTime(before, id), id in after, UpdateTime(after, id));
  }

  /** After any mix of messages of any routers, each router shows the state and the times of its own
      last messages of each kind. */
  lemma {:induction false} StateFollows(v: Store.View, ds: seq<Delivery>, n: nat, id: string)
    requires n <= |ds|
    ensures StateRule(v, ds, n, HandleEach(v, ds[..n]), id)
  {
    if n == 0 {
      assert ds[..0] == [];
    } else {
      StateFollows(v, ds, n - 1, id);
      StateNext(v, ds, n - 1, HandleEach(v, ds[..n - 1]), HandleEach(v, ds[..n]), id);
    }
  }

  // ----- Vendors are not part of messages

  ghost predicate NoVendors(v: Store.View) {
    forall id, k :: id in v && k in v[id].devices ==> v[id].devices[k].vendor == ""
  }

  lemma {:induction false} ArrivedHaveNoVendor(ds: seq<Device>)
    ensures forall k :: k in Store.Keyed(Bus.AllArrived(ds)) ==> Store.Keyed(Bus.AllArrived(ds))[k].vendor == ""
  {
    if ds == [] {
    } else {
      ArrivedHaveNoVendor(ds[..|ds| - 1]);
      assert Bus.AllArrived(ds)[..|ds| - 1] == Bus.AllArrived(ds[..|ds| - 1]);
    }
  }

  lemma OneBringsNoVendor(v: Store.View, d: Delivery)
    requires NoVendors(v)
    ensures NoVendors(HandleOne(v, d))
  {
    if d.Report? && d.message.Snapshot? {
      ArrivedHaveNoVendor(d.message.devices);
    }
  }

  /** No message brings a vendor into the store. */
  lemma {:induction false} NoVendorStored(v: Store.View, ds: seq<Delivery>)
    requires NoVendors(v)
    ensures NoVendors(HandleEach(v, ds))
  {
    if ds == [] {
    } else {
      NoVendorStored(v, ds[..|ds| - 1]);
      OneBringsNoVendor(HandleEach(v, ds[..|ds| - 1]), ds[|ds| - 1]);
    }
  }

  /** The store object after any mix of messages of any routers. */
  method ServeStates(h: Bus.Handlers, ds: seq<Delivery>)
    requires h.store.Valid() && forall d :: d in ds ==> '/' !in d.id
    modifies h.store`routers, h.store.routers.Values
    ensures h.store.Valid()
    ensures forall id :: StateRule(old(h.store.View()), ds, |ds|, h.store.View(), id)
    ensures NoVendors(old(h.store.View())) ==> NoVendors(h.store.View())
  {
    ghost var v := h.store.View();
    Serve(h, ds);
    assert ds[..|ds|] == ds;
    forall id
      ensures StateRule(v, ds, |ds|, HandleEach(v, ds), id)
    {
      StateFollows(v, ds, |ds|, id);
    }
    if NoVendors(v) {
      NoVendorStored(v, ds);
    }
  }
}
