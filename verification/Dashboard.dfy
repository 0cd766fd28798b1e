/** What the dashboard reads: a deep copy of a router, enriched with vendors, that shares nothing
    with the store however the store goes on. */
module Dashboard {
  import opened Text
  import opened Order
  import opened Devices
  import opened Runs
  import opened Store
  import Bus
  import Oui
  import Vendor

  /** The vendor a lookup shows at this moment. */
  function ShownVendor(cache: map<string, string>, mac: string): string {
    match Oui.OuiKey(mac)
    case None => ""
    case Some(key) => if key in cache then Vendor.Shown(cache[key]) else ""
  }

  // ----- The request, with everything else going on

  /** What happens elsewhere while a request is served: a goroutine of the resolver, or of another
      request, takes a step, or a message is handled. */
  datatype Other = Fetching(step: Vendor.Step) | Arriving(a: Bus.Arrival)

  /** The resolver with its goroutines, and what the store shows. */
  datatype Scene = Scene(sys: Vendor.System, view: View)

  /** A step that cannot be taken now is not taken. */
  function Happen(sc: Scene, o: Other): Scene {
    match o
    case Fetching(step) => if Vendor.Enabled(sc.sys, step) then sc.(sys := Vendor.Take(sc.sys, step)) else sc
    case Arriving(a) => sc.(view := Bus.Received(sc.view, a))
  }

  function Meanwhile(sc: Scene, os: seq<Other>): Scene {
    if os == [] then sc else Happen(Meanwhile(sc, os[..|os| - 1]), os[|os| - 1])
  }

  /** The resolver after a lookup by the request. */
  function LookedUp(s: Vendor.System, mac: string): Vendor.System {
    Vendor.Take(s, Vendor.Lookup(mac, Vendor.FreeId(s.fetches, 0)))
  }

  /** The scene after the first `k` lookups of a request for `ds`; `others(k)` happens next. */
  function After(sc: Scene, others: nat -> seq<Other>, ds: seq<Device>, k: nat): Scene
    requires k <= |ds|
    decreases k, 0
  {
    if k == 0 then sc
    else
      var seen := SeenBy(sc, others, ds, k - 1);
      seen.(sys := LookedUp(seen.sys, ds[k - 1].mac))
  }

  /** The scene as lookup `k` finds it. */
  function SeenBy(sc: Scene, others: nat -> seq<Other>, ds: seq<Device>, k: nat): Scene
    requires k <= |ds|
    decreases k, 1
  {
    Meanwhile(After(sc, others, ds, k), others(k))
  }

  /** The vendors the first `n` lookups return: what is cached when each one's turn comes. */
  function Shown(sc: Scene, others: nat -> seq<Other>, ds: seq<Device>, n: nat): (r: seq<string>)
    requires n <= |ds|
    ensures |r| == n
  {
    if n == 0 then []
    else Shown(sc, others, ds, n - 1) + [ShownVendor(SeenBy(sc, others, ds, n - 1).sys.cache, ds[n - 1].mac)]
  }

  function VendorsOf(cells: seq<DeviceCell>): seq<string>
    reads cells
  {
    seq(|cells|, k requires 0 <= k < |cells| reads cells => cells[k].vendor)
  }

  /** The answer for one router: its own fields and the cells of its devices. */
  datatype Page = Page(id: string, online: bool, lastUpdate: int, devicesUpdate: int, devices: seq<DeviceCell>)

  /** The objects are in the state of the scene. */
  ghost predicate Matches(h: Bus.Handlers, resolver: Vendor.Resolver, sc: Scene)
    reads resolver, h.store, h.store.routers.Values, h.store.Cells()
  {
    h.store.Valid() && h.store.View() == sc.view && resolver.Shows(sc.sys)
  }

  /** `handleAPIDevices`: None for an unknown router, else its fields and its devices in listing
      order as they were when the copy was made, each with the vendor that is cached when its turn
      comes. The resolver goes on as the lookups and the others' steps say, and the store shows the
      messages handled meanwhile and nothing else. */
  method HandleAPIDevices(h: Bus.Handlers, resolver: Vendor.Resolver, id: string, s: Vendor.System,
                          others: nat -> seq<Other>)
    returns (page: Option<Page>, t: Vendor.System)
    requires h.store.Valid() && resolver.Shows(s)
    modifies resolver, h.store`routers, h.store.routers.Values
    ensures page.None? <==> id !in old(h.store.View())
    ensures page.None? ==> t == s && Matches(h, resolver, Scene(s, old(h.store.View())))
    ensures page.Some? ==>
              && var (p, sc) := (page.value, Scene(s, old(h.store.View())));
              var (r, ds) := (sc.view[id], DevicesIn(p.devices));
              && p.id == r.id && p.online == r.online
              && p.lastUpdate == r.lastUpdate && p.devicesUpdate == r.devicesUpdate
              && fresh(p.devices) && IsListing(ds, r.devices)
              && VendorsOf(p.devices) == Shown(sc, others, ds, |ds|)
              && t == SeenBy(sc, others, ds, |ds|).sys && Matches(h, resolver, SeenBy(sc, others, ds, |ds|))
  {
    page := CopyOf(h.store, id);
    h.store.NothingChanged();
    t := s;
    if page.Some? {
      t := EnrichAll(h, resolver, page.value.devices, s, others, Scene(s, h.store.View()));
    }
  }

  /** The router as it is now, with cells of its own. */
  method CopyOf(store: Store, id: string) returns (page: Option<Page>)
    requires store.Valid()
    ensures page.None? <==> id !in store.View()
    ensures page.Some? ==>
              && var (p, r) := (page.value, store.View()[id]);
              && p.id == r.id && p.online == r.online
              && p.lastUpdate == r.lastUpdate && p.devicesUpdate == r.devicesUpdate
              && fresh(p.devices) && IsListing(DevicesIn(p.devices), r.devices) && Distinct(DevicesIn(p.devices))
  {
    var router := store.Router(id);
    if router == null {
      return None;
    }
    var out := ListAll(router);
    assert forall i :: 0 <= i < |out| ==> fresh(out[i]);
    page := Some(Page(router.id, router.online, router.lastUpdate, router.devicesUpdate, out));
  }

  method ListAll(router: RouterCell) returns (out: seq<DeviceCell>)
    requires forall k :: k in router.View().devices ==> router.View().devices[k].device.mac == k
    ensures forall i :: 0 <= i < |out| ==> out[i] in router.devices.Values
    ensures IsListing(DevicesIn(out), router.View().devices) && Distinct(DevicesIn(out))
  {
    assert forall k :: k in router.devices ==> router.View().devices[k] == router.devices[k].View();
    out := router.DevicesList();
    SortedDistinct(DevicesIn(out));
  }

  method EnrichAll(h: Bus.Handlers, resolver: Vendor.Resolver, out: seq<DeviceCell>, s: Vendor.System,
                   others: nat -> seq<Other>, ghost sc: Scene)
    returns (t: Vendor.System)
    requires Matches(h, resolver, sc) && s == sc.sys
    requires Distinct(DevicesIn(out)) && forall i :: 0 <= i < |out| ==> out[i] !in h.store.Cells()
    modifies resolver, h.store`routers, h.store.routers.Values, out
    ensures Matches(h, resolver, SeenBy(sc, others, DevicesIn(out), |out|))
    ensures t == SeenBy(sc, others, DevicesIn(out), |out|).sys
    ensures VendorsOf(out) == Shown(sc, others, DevicesIn(out), |out|)
  {
    ghost var now;
    t, now := EnrichEach(h, resolver, out, s, others, sc);
    ghost var vendors := VendorsOf(out);
    t := Wait(h, resolver, t, others(|out|), now);
    assert VendorsOf(out) == vendors;
  }

  /** The loop over the listed cells, none of which belongs to the store. */
  method EnrichEach(h: Bus.Handlers, resolver: Vendor.Resolver, out: seq<DeviceCell>, s: Vendor.System,
                    others: nat -> seq<Other>, ghost sc: Scene)
    returns (t: Vendor.System, ghost now: Scene)
    requires Matches(h, resolver, sc) && s == sc.sys
    requires Distinct(DevicesIn(out)) && forall i :: 0 <= i < |out| ==> out[i] !in h.store.Cells()
    modifies resolver, h.store`routers, h.store.routers.Values, out
    ensures now == After(sc, others, DevicesIn(out), |out|) && Matches(h, resolver, now) && t == now.sys
    ensures VendorsOf(out) == Shown(sc, others, DevicesIn(out), |out|)
    ensures h.store.OnlyNew()
  {
    t, now := s, sc;
    for i := 0 to |out|
      invariant Progress(h, resolver, out, others, sc, i, now) && t == now.sys
      invariant h.store.OnlyNew()
    {
      t, now := Turn(h, resolver, out, others, i, t, sc, now);
    }
  }

  /** The first `i` cells have their vendors, and the scene is what it is to be. */
  ghost predicate Progress(h: Bus.Handlers, resolver: Vendor.Resolver, out: seq<DeviceCell>, others: nat -> seq<Other>,
                           sc: Scene, i: nat, now: Scene)
    requires i <= |out|
    reads resolver, h.store, h.store.routers.Values, h.store.Cells(), out
  {
    && Matches(h, resolver, now) && now == After(sc, others, DevicesIn(out), i)
    && VendorsOf(out)[..i] == Shown(sc, others, DevicesIn(out), i)
  }

  method Turn(h: Bus.Handlers, resolver: Vendor.Resolver, out: seq<DeviceCell>, others: nat -> seq<Other>, i: nat,
              s: Vendor.System, ghost sc: Scene, ghost before: Scene)
    returns (t: Vendor.System, ghost now: Scene)
    requires i < |out| && Progress(h, resolver, out, others, sc, i, before) && s == before.sys
    requires Distinct(DevicesIn(out)) && out[i] !in h.store.Cells()
    modifies resolver, h.store`routers, h.store.routers.Values, out[i]
    ensures Progress(h, resolver, out, others, sc, i + 1, now) && t == now.sys && h.store.OnlyNew()
  {
    t, now := Serve(h, resolver, out, i, s, others(i), before);
  }

  /** One turn of the loop, and what happens before it. */
  method Serve(h: Bus.Handlers, resolver: Vendor.Resolver, out: seq<DeviceCell>, i: nat, s: Vendor.System,
               os: seq<Other>, ghost sc: Scene)
    returns (t: Vendor.System, ghost now: Scene)
    requires Matches(h, resolver, sc) && s == sc.sys
    requires i < |out| && Distinct(DevicesIn(out)) && out[i] !in h.store.Cells()
    modifies resolver, h.store`routers, h.store.routers.Values, out[i]
    ensures Matches(h, resolver, now) && t == now.sys && h.store.OnlyNew()
    ensures now == Meanwhile(sc, os).(sys := LookedUp(Meanwhile(sc, os).sys, out[i].device.mac))
    ensures VendorsOf(out) ==
            old(VendorsOf(out))[i := ShownVendor(Meanwhile(sc, os).sys.cache, out[i].device.mac)]
  {
    forall k | 0 <= k < |out| && k != i
      ensures out[k] != out[i]
    {
      assert DevicesIn(out)[k] != DevicesIn(out)[i];
    }
    t := Wait(h, resolver, s, os, sc);
    now := Meanwhile(sc, os);
    t := Enrich(h, resolver, out[i], t, now);
    now := now.(sys := t);
  }

  method Enrich(h: Bus.Handlers, resolver: Vendor.Resolver, d: DeviceCell, s: Vendor.System, ghost sc: Scene)
    returns (t: Vendor.System)
    requires Matches(h, resolver, sc) && s == sc.sys && d !in h.store.Cells()
    modifies resolver, d
    ensures t == LookedUp(s, d.device.mac) && d.vendor == ShownVendor(s.cache, d.device.mac)
    ensures Matches(h, resolver, sc.(sys := t)) && h.store.Cells() == old(h.store.Cells())
  {
    var fetch;
    d.vendor, fetch := resolver.Lookup(d.device.mac);
    t := LookedUp(s, d.device.mac);
    h.store.NothingChanged();
  }

  /** What happens elsewhere, one thing after the other. */
  method Wait(h: Bus.Handlers, resolver: Vendor.Resolver, s: Vendor.System, os: seq<Other>, ghost sc: Scene)
    returns (t: Vendor.System)
    requires Matches(h, resolver, sc) && s == sc.sys
    modifies resolver, h.store`routers, h.store.routers.Values
    ensures Matches(h, resolver, Meanwhile(sc, os)) && t == Meanwhile(sc, os).sys && h.store.OnlyNew()
  {
    t := s;
    for i := 0 to |os|
      invariant Matches(h, resolver, Meanwhile(sc, os[..i])) && t == Meanwhile(sc, os[..i]).sys
      invariant h.store.OnlyNew()
    {
      assert os[..i + 1][..i] == os[..i];
      t := Act(h, resolver, t, os[i], Meanwhile(sc, os[..i]));
    }
    assert os[..|os|] == os;
  }

  method Act(h: Bus.Handlers, resolver: Vendor.Resolver, s: Vendor.System, o: Other, ghost sc: Scene)
    returns (t: Vendor.System)
    requires Matches(h, resolver, sc) && s == sc.sys
    modifies resolver, h.store`routers, h.store.routers.Values
    ensures Matches(h, resolver, Happen(sc, o)) && t == Happen(sc, o).sys && h.store.OnlyNew()
  {
    t := s;
    match o
    case Fetching(step) =>
      if Vendor.Enabled(s, step) {
        t := resolver.Perform(s, step);
      }
      h.store.NothingChanged();
    case Arriving(a) =>
      h.Receive(a);
  }

  // ----- Which vendors are shown

  /** Once a successful answer of the API is stored, every later lookup of a MAC with that key shows
      the vendor answered, or nothing if there was none, and starts no fetch. */
  lemma StoredIsShown(s: Vendor.System, id: nat, v: string, mac: string, u: Vendor.System)
    requires Vendor.Reachable(s) && id in s.fetches && s.fetches[id].stage == Vendor.Answered(Vendor.Found(v))
    requires Oui.OuiKey(mac) == Some(s.fetches[id].key) && v != "\0unknown"
    requires Reaches(Vendor.Next, Vendor.Take(s, Vendor.Store(id)), u)
    ensures ShownVendor(u.cache, mac) == v
    ensures !Vendor.Misses(u.cache, u.inflight, s.fetches[id].key)
  {
    var first :| Vendor.Initial(first) && Reaches(Vendor.Next, first, s);
    ReachesOn(Vendor.Next, first, s, Vendor.Store(id));
    Vendor.CacheNeverChanges(Vendor.Take(s, Vendor.Store(id)), u);
  }

  /** A vendor is shown exactly if the API answered with it for the key of the MAC and the answer
      is stored. */
  lemma ShownIffAnswered(s: Vendor.System, mac: string, v: string)
    requires Vendor.Reachable(s) && v != "" && v != "\0unknown"
    ensures ShownVendor(s.cache, mac) == v <==>
            var key := Oui.OuiKey(mac);
            key.Some? && key.value in s.cache && (key.value, v) in s.answers
  {
    Vendor.ReachableKeepsInv(s);
    var key := Oui.OuiKey(mac);
    if key.Some? && key.value in s.cache {
      var i :| Vendor.CachedFrom(s, key.value, i);
      if j :| 0 <= j < |s.answers| && s.answers[j] == (key.value, v) {
        assert i == j;
      }
      assert s.answers[i] in s.answers;
    }
  }

  // ----- What a request shows, and the fetches it starts

  lemma LookedUpIsStep(s: Vendor.System, mac: string)
    ensures Reaches(Vendor.Next, s, LookedUp(s, mac))
  {
    ReachesItself(Vendor.Next, s);
    ReachesOn(Vendor.Next, s, s, Vendor.Lookup(mac, Vendor.FreeId(s.fetches, 0)));
  }

  lemma {:induction false} MeanwhileRuns(sc: Scene, os: seq<Other>)
    ensures Reaches(Vendor.Next, sc.sys, Meanwhile(sc, os).sys)
  {
    if os == [] {
      ReachesItself(Vendor.Next, sc.sys);
    } else {
      var front, o := os[..|os| - 1], os[|os| - 1];
      MeanwhileRuns(sc, front);
      var t := Meanwhile(sc, front).sys;
      if o.Fetching? && Vendor.Enabled(t, o.step) {
        ReachesOn(Vendor.Next, sc.sys, t, o.step);
      }
    }
  }

  /** The lookups of a request see states of one run. */
  lemma {:induction false} SeenInTurn(sc: Scene, others: nat -> seq<Other>, ds: seq<Device>, i: nat, j: nat)
    requires i <= j <= |ds|
    ensures Reaches(Vendor.Next, SeenBy(sc, others, ds, i).sys, SeenBy(sc, others, ds, j).sys)
  {
    var first := SeenBy(sc, others, ds, i).sys;
    if i == j {
      ReachesItself(Vendor.Next, first);
    } else {
      SeenInTurn(sc, others, ds, i, j - 1);
      var before, after := SeenBy(sc, others, ds, j - 1).sys, After(sc, others, ds, j);
      LookedUpIsStep(before, ds[j - 1].mac);
      ReachesThrough(Vendor.Next, first, before, after.sys);
      MeanwhileRuns(after, others(j));
      ReachesThrough(Vendor.Next, first, after.sys, SeenBy(sc, others, ds, j).sys);
    }
  }

  lemma SeenIsReachable(sc: Scene, others: nat -> seq<Other>, ds: seq<Device>, i: nat)
    requires Vendor.Reachable(sc.sys) && i <= |ds|
    ensures Vendor.Reachable(SeenBy(sc, others, ds, i).sys)
  {
    var first :| Vendor.Initial(first) && Reaches(Vendor.Next, first, sc.sys);
    var zero := SeenBy(sc, others, ds, 0).sys;
    MeanwhileRuns(sc, others(0));
    ReachesThrough(Vendor.Next, first, sc.sys, zero);
    SeenInTurn(sc, others, ds, 0, i);
    ReachesThrough(Vendor.Next, first, zero, SeenBy(sc, others, ds, i).sys);
  }

  lemma {:induction false} ShownAt(sc: Scene, others: nat -> seq<Other>, ds: seq<Device>, n: nat, i: nat)
    requires i < n <= |ds|
    ensures Shown(sc, others, ds, n)[i] == ShownVendor(SeenBy(sc, others, ds, i).sys.cache, ds[i].mac)
  {
    if i == n - 1 {
    } else {
      ShownAt(sc, others, ds, n - 1, i);
    }
  }

  /** A vendor that a page shows is the one that every later lookup shows. */
  lemma ShownIsFinal(sc: Scene, others: nat -> seq<Other>, ds: seq<Device>, i: nat, later: Vendor.System)
    requires Vendor.Reachable(sc.sys) && i < |ds|
    requires Reaches(Vendor.Next, SeenBy(sc, others, ds, i).sys, later)
    ensures var shown := Shown(sc, others, ds, |ds|)[i];
            shown == "" || shown == ShownVendor(later.cache, ds[i].mac)
  {
    ShownAt(sc, others, ds, |ds|, i);
    SeenIsReachable(sc, others, ds, i);
    Vendor.CacheNeverChanges(SeenBy(sc, others, ds, i).sys, later);
  }

  /** So of two devices with the same key on a page, the one below shows what the one above shows,
      unless that is still nothing. */
  lemma SameKeySameVendor(sc: Scene, others: nat -> seq<Other>, ds: seq<Device>, i: nat, j: nat)
    requires Vendor.Reachable(sc.sys) && i < j < |ds| && Oui.OuiKey(ds[i].mac) == Oui.OuiKey(ds[j].mac)
    ensures var shown := Shown(sc, others, ds, |ds|);
            shown[i] == "" || shown[j] == shown[i]
  {
    SeenInTurn(sc, others, ds, i, j);
    ShownIsFinal(sc, others, ds, i, SeenBy(sc, others, ds, j).sys);
    ShownAt(sc, others, ds, |ds|, j);
  }

  /** A lookup of the request starts a fetch exactly if its MAC has a key, no fetch for the key was
      ever answered with success, and none is live at that moment. */
  lemma LookupStartsIff(sc: Scene, others: nat -> seq<Other>, ds: seq<Device>, i: nat)
    requires Vendor.Reachable(sc.sys) && i < |ds|
    ensures var (seen, key) := (SeenBy(sc, others, ds, i).sys, Oui.OuiKey(ds[i].mac));
            After(sc, others, ds, i + 1).sys.fetches != seen.fetches <==>
            key.Some? && !Vendor.AnsweredFor(seen, key.value) && !Vendor.LiveFor(seen, key.value)
  {
    SeenIsReachable(sc, others, ds, i);
    var seen, key := SeenBy(sc, others, ds, i).sys, Oui.OuiKey(ds[i].mac);
    var id := Vendor.FreeId(seen.fetches, 0);
    if key.Some? {
      Vendor.MissesIff(seen, key.value);
      assert id in seen.fetches[id := Vendor.Fetch(key.value, Vendor.Queued)];
    }
  }

  lemma OneMore(sc: Scene, os: seq<Other>, o: Other)
    ensures Meanwhile(sc, os + [o]) == Happen(Meanwhile(sc, os), o)
  {
    assert (os + [o])[..|os|] == os;
  }

  /** The course of a fetch that fails. */
  function Failing(id: nat): seq<Other> {
    [] + [Fetching(Vendor.Acquire(id))] + [Fetching(Vendor.Release(id))]
    + [Fetching(Vendor.Answer(id, Vendor.Failed))] + [Fetching(Vendor.Store(id))] + [Fetching(Vendor.Finish(id))]
  }

  /** It leaves the cache alone, and its key is no longer in flight. */
  lemma FailingRun(sc: Scene, id: nat)
    requires id in sc.sys.fetches && sc.sys.fetches[id].stage.Queued?
    requires sc.sys.holder == None && sc.sys.lastSent == None
    ensures var t := Meanwhile(sc, Failing(id)).sys;
            t.cache == sc.sys.cache && t.inflight == sc.sys.inflight - {sc.sys.fetches[id].key}
  {
    var os: seq<Other> := [];
    var acquire, release := Fetching(Vendor.Acquire(id)), Fetching(Vendor.Release(id));
    var answer, store := Fetching(Vendor.Answer(id, Vendor.Failed)), Fetching(Vendor.Store(id));
    OneMore(sc, os, acquire);
    OneMore(sc, os + [acquire], release);
    OneMore(sc, os + [acquire] + [release], answer);
    OneMore(sc, os + [acquire] + [release] + [answer], store);
    OneMore(sc, os + [acquire] + [release] + [answer] + [store], Fetching(Vendor.Finish(id)));
  }

  /** One request can start two fetches for a key: the first fails before the second lookup. */
  lemma SecondFetchAfterFailure(a: string, b: string) returns (sc: Scene, others: nat -> seq<Other>)
    requires Oui.OuiKey(a).Some? && Oui.OuiKey(a) == Oui.OuiKey(b)
    ensures Vendor.Reachable(sc.sys)
    ensures var ds := [Blank(a), Blank(b)];
            forall i: nat :: i < 2 ==> After(sc, others, ds, i + 1).sys.fetches != SeenBy(sc, others, ds, i).sys.fetches
  {
    sc := Scene(Vendor.System(0, map[], {}, None, None, map[], [], [], []), map[]);
    ReachesItself(Vendor.Next, sc.sys);
    var key, ds := Oui.OuiKey(a).value, [Blank(a), Blank(b)];
    others := (k: nat) => if k == 1 then Failing(0) else [];
    assert SeenBy(sc, others, ds, 0) == sc;
    FailingRun(After(sc, others, ds, 1), 0);
    var seen := SeenBy(sc, others, ds, 1).sys;
    assert Vendor.Misses(seen.cache, seen.inflight, key);
    var id := Vendor.FreeId(seen.fetches, 0);
    assert id in After(sc, others, ds, 2).sys.fetches;
  }

  // ----- The copy and the store, interleaved

  /** One thing that happens: a vendor is written to a device of the copy, or a message is handled. */
  datatype Action =
    | Write(mac: string, vendor: string)
    | Message(a: Bus.Arrival)

  function StoreStep(v: View, act: Action): View {
    match act
    case Write(_, _) => v
    case Message(a) => Bus.Received(v, a)
  }

  function CopyStep(r: RouterView, act: Action): RouterView {
    if act.Write? && act.mac in r.devices
    then r.(devices := r.devices[act.mac := r.devices[act.mac].(vendor := act.vendor)]) else r
  }

  function StoreAfter(v: View, acts: seq<Action>): View {
    if acts == [] then v else StoreStep(StoreAfter(v, acts[..|acts| - 1]), acts[|acts| - 1])
  }

  function CopyAfter(r: RouterView, acts: seq<Action>): RouterView {
    if acts == [] then r else CopyStep(CopyAfter(r, acts[..|acts| - 1]), acts[|acts| - 1])
  }

  /** Nothing of the copy belongs to the store. */
  ghost predicate Apart(store: Store, cp: RouterCell)
    reads store, store.routers.Values, cp
  {
    cp !in store.routers.Values && forall c :: c in cp.devices.Values ==> c !in store.Cells()
  }

  method WriteVendor(cp: RouterCell, mac: string, vendor: string)
    requires cp.Unshared()
    modifies cp.devices.Values
    ensures cp.View() == CopyStep(old(cp.View()), Write(mac, vendor))
  {
    ghost var was := cp.View();
    if mac in cp.devices {
      var d := cp.devices[mac];
      d.vendor := vendor;
      assert cp.View().devices == was.devices[mac := was.devices[mac].(vendor := vendor)];
    }
  }

  method TakeAction(handlers: Bus.Handlers, cp: RouterCell, act: Action)
    requires handlers.store.Valid() && cp.Unshared() && Apart(handlers.store, cp)
    modifies handlers.store`routers, handlers.store.routers.Values, cp.devices.Values
    ensures handlers.store.Valid() && Apart(handlers.store, cp) && cp.devices == old(cp.devices)
    ensures handlers.store.OnlyNew()
    ensures handlers.store.View() == StoreStep(old(handlers.store.View()), act)
    ensures cp.View() == CopyStep(old(cp.View()), act)
  {
    match act
    case Write(mac, vendor) =>
      WriteVendor(cp, mac, vendor);
      handlers.store.NothingChanged();
    case Message(a) =>
      handlers.Receive(a);
      assert cp.View().devices == old(cp.View()).devices;
  }

  /** In any interleaving, the store shows the effect of the messages alone and the copy the
      effect of the writes to it alone. */
  method Interleave(handlers: Bus.Handlers, cp: RouterCell, acts: seq<Action>)
    requires handlers.store.Valid() && cp.Unshared() && Apart(handlers.store, cp)
    modifies handlers.store`routers, handlers.store.routers.Values, cp.devices.Values
    ensures handlers.store.View() == StoreAfter(old(handlers.store.View()), acts)
    ensures cp.View() == CopyAfter(old(cp.View()), acts)
  {
    for i := 0 to |acts|
      invariant handlers.store.Valid() && Apart(handlers.store, cp) && cp.devices == old(cp.devices)
      invariant handlers.store.OnlyNew()
      invariant handlers.store.View() == StoreAfter(old(handlers.store.View()), acts[..i])
      invariant cp.View() == CopyAfter(old(cp.View()), acts[..i])
    {
      assert acts[..i + 1][..i] == acts[..i];
      TakeAction(handlers, cp, acts[i]);
    }
    assert acts[..|acts|] == acts;
  }

  /** The copy of a router that a reader takes stays its own: nothing handled afterwards reaches
      it, and nothing written to it reaches the store. */
  method CopyThenInterleave(handlers: Bus.Handlers, id: string, acts: seq<Action>) returns (cp: RouterCell?)
    requires handlers.store.Valid()
    modifies handlers.store`routers, handlers.store.routers.Values
    ensures cp == null <==> id !in old(handlers.store.View())
    ensures cp != null ==>
              && handlers.store.View() == StoreAfter(old(handlers.store.View()), acts)
              && cp.View() == CopyAfter(old(handlers.store.View())[id], acts)
  {
    cp := handlers.store.Router(id);
    handlers.store.NothingChanged();
    if cp != null {
      assert Apart(handlers.store, cp);
      Interleave(handlers, cp, acts);
    }
  }
}
