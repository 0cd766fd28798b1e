/** Replication of the device table from the router to the web application: rounds of events
    and a snapshot, carried at least once and in any order, handled one at a time. */
module Replication {
  import opened Text
  import opened Order
  import opened Devices
  import opened Diff
  import opened Runs

  datatype Message = Snapshot(devices: Table) | Change(event: Event)

  /** What one handler call does to the map of a router's devices. */
  function Handle(m: map<string, Device>, msg: Message): map<string, Device> {
    match msg
    case Snapshot(devices) => ByMac(devices)
    case Change(e) => Apply(m, e)
  }

  function HandleAll(m: map<string, Device>, msgs: seq<Message>): map<string, Device> {
    if msgs == [] then m else Handle(HandleAll(m, msgs[..|msgs| - 1]), msgs[|msgs| - 1])
  }

  /** The tables a rebuild publishes: sorted, and no MAC is empty. */
  ghost predicate Publishable(t: Table) {
    Sorted(t) && "" !in Macs(t)
  }

  function Changes(es: seq<Event>): seq<Message> {
    seq(|es|, i requires 0 <= i < |es| => Change(es[i]))
  }

  /** What one republish sends: the changes since the previous table, except in the first
      round, and then the whole table. */
  function RoundMessages(prev: Option<Table>, cur: Table): seq<Message> {
    Changes(if prev.None? then [] else Merge(prev.value, cur)) + [Snapshot(cur)]
  }

  /** The first round is the snapshot alone. */
  lemma FirstRoundIsSnapshot(cur: Table)
    ensures RoundMessages(None, cur) == [Snapshot(cur)]
  {
    assert Changes([]) == [];
  }

  /** A round ends with its snapshot, and before that come the events its two tables call for, each
      once, in the order of their MACs. */
  lemma RoundMeans(prev: Table, cur: Table)
    requires Sorted(prev) && Sorted(cur)
    ensures var msgs := RoundMessages(Some(prev), cur);
            var n := |msgs| - 1;
            && n >= 0 && msgs[n] == Snapshot(cur)
            && (forall i :: 0 <= i < n ==> msgs[i].Change? && Expected(prev, cur, msgs[i].event))
            && (forall i, j :: 0 <= i < j < n ==> Less(EventMac(msgs[i].event), EventMac(msgs[j].event)))
            && (forall e :: Expected(prev, cur, e) ==> exists i :: 0 <= i < n && msgs[i] == Change(e))
  {
    var es, msgs := Merge(prev, cur), RoundMessages(Some(prev), cur);
    MergeIncreases(prev, cur);
    forall e
      ensures e in es <==> Expected(prev, cur, e)
    {
      MergeAnnounces(prev, cur, e);
    }
    assert forall i :: 0 <= i < |es| ==> msgs[i] == Change(es[i]) && es[i] in es;
    forall e | Expected(prev, cur, e)
      ensures exists i :: 0 <= i < |msgs| - 1 && msgs[i] == Change(e)
    {
      var i :| 0 <= i < |es| && es[i] == e;
      assert msgs[i] == Change(e);
    }
    forall i, j | 0 <= i < j < |es|
      ensures Less(EventMac(msgs[i].event), EventMac(msgs[j].event))
    {
      assert EventLess(es[i], es[j]);
    }
  }

  /** The map holds exactly the devices of the table, each under its own MAC. */
  ghost predicate IsReplica(m: map<string, Device>, t: Table) {
    m.Keys == Macs(t) && forall d :: d in t ==> d.mac in m && m[d.mac] == d
  }

  /** For a sorted table that is the map a receiver of the table builds, and no other. */
  lemma ReplicaIffByMac(m: map<string, Device>, t: Table)
    requires Sorted(t)
    ensures IsReplica(m, t) <==> m == ByMac(t)
  {
    forall d | d in t
      ensures ByMac(t)[d.mac] == d
    {
      SortedByMac(t, d);
    }
    if IsReplica(m, t) {
      forall k | k in m
        ensures m[k] == ByMac(t)[k]
      {
        assert m[ByMac(t)[k].mac] == ByMac(t)[k];
      }
    }
  }

  // ----- Handling a message of a round after its snapshot

  /** The message says nothing the table does not say already. */
  ghost predicate Confirms(t: Table, msg: Message) {
    match msg
    case Snapshot(devices) => ByMac(devices) == ByMac(t)
    case Change(Removed(mac)) => mac == "" || mac !in Macs(t)
    case Change(e) => e.device in t
  }

  lemma UpsertKeepsIff(t: Table, d: Device)
    requires Sorted(t)
    ensures ByMac(t)[d.mac := d] == ByMac(t) <==> d in t
  {
    SortedByMac(t, d);
    var m := ByMac(t)[d.mac := d];
    assert m[d.mac] == d;
  }

  lemma RemovalKeepsIff(t: Table, mac: string)
    ensures ByMac(t) - {mac} == ByMac(t) <==> mac !in Macs(t)
  {
    var m := ByMac(t) - {mac};
    assert mac !in m;
    if mac !in Macs(t) {
      assert m.Keys == ByMac(t).Keys;
    }
  }

  /** A replica of a table stays one after a message exactly if the message confirms the table. */
  lemma KeepsReplicaIffConfirms(t: Table, msg: Message)
    requires Sorted(t)
    ensures Handle(ByMac(t), msg) == ByMac(t) <==> Confirms(t, msg)
  {
    match msg
    case Snapshot(_) =>
    case Change(Removed(mac)) => RemovalKeepsIff(t, mac);
    case Change(e) => UpsertKeepsIff(t, e.device);
  }

  /** Every message of a round confirms the round's own table. */
  lemma RoundConfirms(prev: Option<Table>, cur: Table, msg: Message)
    requires (prev.Some? ==> Sorted(prev.value)) && Sorted(cur)
    requires msg in RoundMessages(prev, cur)
    ensures Confirms(cur, msg)
  {
    if msg.Change? {
      MergeAnnounces(prev.value, cur, msg.event);
    }
  }

  // ----- The network

  datatype Packet = Packet(round: nat, message: Message)

  /** The router's published tables, the packets under way, the web application's map and the
      packets handled so far. */
  datatype Net = Net(rounds: seq<Table>, inflight: multiset<Packet>,
                     web: map<string, Device>, handled: seq<Packet>)

  datatype Step =
    | Publish(table: Table)                  // one republish by the router
    | Deliver(packet: Packet, again: bool)   // handled; a copy may stay under way
    | Lose(packet: Packet)                   // dropped with a broken session
    | Resend(round: nat)                     // a retained snapshot is sent to a new subscription

  function Sent(rounds: seq<Table>, r: nat): seq<Message>
    requires r < |rounds|
  {
    RoundMessages(if r == 0 then None else Some(rounds[r - 1]), rounds[r])
  }

  function Tagged(r: nat, msgs: seq<Message>): seq<Packet> {
    seq(|msgs|, i requires 0 <= i < |msgs| => Packet(r, msgs[i]))
  }

  ghost predicate Enabled(s: Net, step: Step) {
    match step
    case Publish(t) => Publishable(t)
    case Deliver(p, _) => p in s.inflight
    case Lose(p) => p in s.inflight
    case Resend(r) => r < |s.rounds|
  }

  ghost function Take(s: Net, step: Step): Net
    requires Enabled(s, step)
  {
    match step
    case Publish(t) =>
      var rounds := s.rounds + [t];
      var r := |s.rounds|;
      s.(rounds := rounds, inflight := s.inflight + multiset(Tagged(r, Sent(rounds, r))))
    case Deliver(p, again) =>
      s.(inflight := if again then s.inflight else s.inflight - multiset{p},
         web := Handle(s.web, p.message), handled := s.handled + [p])
    case Lose(p) => s.(inflight := s.inflight - multiset{p})
    case Resend(r) => s.(inflight := s.inflight + multiset{Packet(r, Snapshot(s.rounds[r]))})
  }

  ghost function Next(s: Net, step: Step): Option<Net> {
    if Enabled(s, step) then Some(Take(s, step)) else None
  }

  /** Nothing published or under way yet; the web application may hold anything. */
  ghost predicate Initial(s: Net) {
    s.rounds == [] && s.inflight == multiset{} && s.handled == []
  }

  ghost predicate Genuine(s: Net, p: Packet) {
    p.round < |s.rounds| && p.message in Sent(s.rounds, p.round)
  }

  ghost predicate Inv(s: Net, start: map<string, Device>) {
    && (forall r :: 0 <= r < |s.rounds| ==> Publishable(s.rounds[r]))
    && (forall p :: p in s.inflight ==> Genuine(s, p))
    && (forall p :: p in s.handled ==> Genuine(s, p))
    && s.web == HandleAll(start, Messages(s.handled))
  }

  function Messages(ps: seq<Packet>): seq<Message> {
    seq(|ps|, i requires 0 <= i < |ps| => ps[i].message)
  }

  lemma GenuineStays(s: Net, t: Net, p: Packet)
    requires Genuine(s, p) && s.rounds <= t.rounds
    ensures Genuine(t, p)
  {
  }

  lemma GenuineAfterPublish(s: Net, table: Table, p: Packet)
    requires Publishable(table) && p in Take(s, Publish(table)).inflight
    ensures p in s.inflight || Genuine(Take(s, Publish(table)), p)
  {
    var r, rounds := |s.rounds|, s.rounds + [table];
    if p !in s.inflight {
      var sent := Tagged(r, Sent(rounds, r));
      assert p in multiset(sent);
      var i :| 0 <= i < |sent| && sent[i] == p;
    }
  }

  lemma StepKeepsPackets(s: Net, step: Step, p: Packet)
    requires Enabled(s, step) && (forall q :: q in s.inflight ==> Genuine(s, q))
    requires p in Take(s, step).inflight || p in Take(s, step).handled
    ensures p in s.handled || Genuine(Take(s, step), p)
  {
    var t := Take(s, step);
    if p in s.inflight {
      GenuineStays(s, t, p);
    } else if step.Publish? && p in t.inflight {
      GenuineAfterPublish(s, step.table, p);
    } else if step.Resend? && p in t.inflight {
      var rounds, r := s.rounds, step.round;
      assert Sent(rounds, r)[|Sent(rounds, r)| - 1] == Snapshot(rounds[r]);
    }
  }

  lemma StepKeepsWeb(s: Net, step: Step, start: map<string, Device>)
    requires s.web == HandleAll(start, Messages(s.handled)) && Enabled(s, step)
    ensures Take(s, step).web == HandleAll(start, Messages(Take(s, step).handled))
  {
    if step.Deliver? {
      var before, after := Messages(s.handled), Messages(s.handled + [step.packet]);
      assert after[..|before|] == before;
    }
  }

  lemma StepKeepsGenuine(s: Net, step: Step, p: Packet)
    requires Enabled(s, step)
    requires (forall q :: q in s.inflight ==> Genuine(s, q)) && (forall q :: q in s.handled ==> Genuine(s, q))
    requires p in Take(s, step).inflight || p in Take(s, step).handled
    ensures Genuine(Take(s, step), p)
  {
    StepKeepsPackets(s, step, p);
    if p in s.handled {
      GenuineStays(s, Take(s, step), p);
    }
  }

  lemma StepKeepsInv(s: Net, step: Step, start: map<string, Device>)
    requires Inv(s, start) && Enabled(s, step)
    ensures Inv(Take(s, step), start)
  {
    StepKeepsWeb(s, step, start);
    forall p | p in Take(s, step).inflight || p in Take(s, step).handled
      ensures Genuine(Take(s, step), p)
    {
      StepKeepsGenuine(s, step, p);
    }
  }

  lemma RunKeepsInv(s: Net, steps: seq<Step>, t: Net, start: map<string, Device>)
    requires Inv(s, start) && Leads(Next, s, steps, t)
    ensures Inv(t, start)
  {
    var inv := (u: Net) => Inv(u, start);
    forall u, step | inv(u) && Next(u, step).Some?
      ensures inv(Next(u, step).value)
    {
      StepKeepsInv(u, step, start);
    }
    RunKeeps(Next, inv, s, steps, t);
  }

  /** Some run that starts with the web application holding `start` leads to `t`. */
  ghost predicate Reachable(start: map<string, Device>, t: Net) {
    exists s :: Initial(s) && s.web == start && Reaches(Next, s, t)
  }

  /** In every reachable state each packet under way or handled belongs to its round, and the
      web application's map is the fold of the messages handled. */
  lemma ReachableKeepsInv(start: map<string, Device>, t: Net)
    requires Reachable(start, t)
    ensures Inv(t, start)
  {
    var s :| Initial(s) && s.web == start && Reaches(Next, s, t);
    var steps :| Leads(Next, s, steps, t);
    RunKeepsInv(s, steps, t, start);
  }

  // ----- Agreement

  lemma {:induction false} HandleAllFrom(m: map<string, Device>, msgs: seq<Message>, k: nat, t: Table)
    requires k < |msgs| && Sorted(t)
    requires msgs[k] == Snapshot(t)
    requires forall j :: k < j < |msgs| ==> Confirms(t, msgs[j])
    ensures HandleAll(m, msgs) == ByMac(t)
  {
    var n := |msgs| - 1;
    if k == n {
    } else {
      HandleAllFrom(m, msgs[..n], k, t);
      KeepsReplicaIffConfirms(t, msgs[n]);
    }
  }

  lemma AgreementFromInv(t: Net, start: map<string, Device>, k: nat, r: nat)
    requires Inv(t, start)
    requires k < |t.handled| && r < |t.rounds| && t.handled[k] == Packet(r, Snapshot(t.rounds[r]))
    requires forall j :: k < j < |t.handled| ==> t.handled[j].round == r
    ensures IsReplica(t.web, t.rounds[r])
  {
    var msgs, table := Messages(t.handled), t.rounds[r];
    forall j | k < j < |msgs|
      ensures Confirms(table, msgs[j])
    {
      assert Genuine(t, t.handled[j]);
      RoundConfirms(if r == 0 then None else Some(t.rounds[r - 1]), table, msgs[j]);
    }
    HandleAllFrom(start, msgs, k, table);
    ReplicaIffByMac(t.web, table);
  }

  /** In every reachable state, from any starting store and however packets were reordered,
      repeated, lost or resent: once a round's snapshot has been handled and only packets of
      that round after it, the web application holds exactly the table of that round. */
  lemma ReplicaAgreement(start: map<string, Device>, t: Net, k: nat, r: nat)
    requires Reachable(start, t)
    requires k < |t.handled| && r < |t.rounds| && t.handled[k] == Packet(r, Snapshot(t.rounds[r]))
    requires forall j :: k < j < |t.handled| ==> t.handled[j].round == r
    ensures IsReplica(t.web, t.rounds[r])
  {
    ReachableKeepsInv(start, t);
    AgreementFromInv(t, start, k, r);
  }

  // ----- Exactly when agreement lasts

  /** Handled one by one, messages after a snapshot leave the replica alone throughout exactly if
      each of them confirms the table. */
  lemma ReplicaKeptIff(m: map<string, Device>, msgs: seq<Message>, k: nat, t: Table)
    requires k < |msgs| && Sorted(t) && msgs[k] == Snapshot(t)
    ensures (forall n :: k < n <= |msgs| ==> HandleAll(m, msgs[..n]) == ByMac(t)) <==>
            (forall j :: k < j < |msgs| ==> Confirms(t, msgs[j]))
  {
    if forall n :: k < n <= |msgs| ==> HandleAll(m, msgs[..n]) == ByMac(t) {
      forall j | k < j < |msgs|
        ensures Confirms(t, msgs[j])
      {
        assert msgs[..j + 1][..j] == msgs[..j];
        assert HandleAll(m, msgs[..j + 1]) == Handle(HandleAll(m, msgs[..j]), msgs[j]);
        KeepsReplicaIffConfirms(t, msgs[j]);
      }
    }
    if forall j :: k < j < |msgs| ==> Confirms(t, msgs[j]) {
      forall n | k < n <= |msgs|
        ensures HandleAll(m, msgs[..n]) == ByMac(t)
      {
        HandleAllFrom(m, msgs[..n], k, t);
      }
    }
  }

  /** Runs only add rounds and handled packets. */
  lemma RunGrows(s: Net, t: Net)
    requires Reaches(Next, s, t)
    ensures s.rounds <= t.rounds && s.handled <= t.handled
  {
    var steps :| Leads(Next, s, steps, t);
    RunKeeps(Next, (u: Net) => s.rounds <= u.rounds && s.handled <= u.handled, s, steps, t);
  }

  /** A run passes through every number of handled packets. */
  lemma {:induction false} PassesThrough(s: Net, steps: seq<Step>, t: Net, n: nat) returns (u: Net)
    requires Leads(Next, s, steps, t) && |s.handled| <= n <= |t.handled|
    ensures Reaches(Next, s, u) && Reaches(Next, u, t) && |u.handled| == n
    decreases |steps|
  {
    if |s.handled| == n {
      u := s;
      ReachesItself(Next, s);
    } else {
      u := PassesThrough(Take(s, steps[0]), steps[1..], t, n);
      ReachesItself(Next, s);
      ReachesOn(Next, s, s, steps[0]);
      ReachesThrough(Next, s, Take(s, steps[0]), u);
    }
  }

  /** `u` is a state on some run to `t`. */
  ghost predicate OnTheWay(start: map<string, Device>, u: Net, t: Net) {
    Reachable(start, u) && Reaches(Next, u, t)
  }

  /** What the web application held when it had handled `n` packets, on any run to `t`. */
  lemma WebOnTheWay(start: map<string, Device>, u: Net, t: Net)
    requires OnTheWay(start, u, t)
    ensures u.handled <= t.handled
    ensures u.web == HandleAll(start, Messages(t.handled)[..|u.handled|])
  {
    RunGrows(u, t);
    ReachableKeepsInv(start, u);
    assert Messages(t.handled)[..|u.handled|] == Messages(u.handled);
  }

  lemma SomewhereOnTheWay(start: map<string, Device>, t: Net, n: nat) returns (u: Net)
    requires Reachable(start, t) && n <= |t.handled|
    ensures OnTheWay(start, u, t) && |u.handled| == n
  {
    var s :| Initial(s) && s.web == start && Reaches(Next, s, t);
    var steps :| Leads(Next, s, steps, t);
    u := PassesThrough(s, steps, t, n);
  }

  /** After a round's snapshot was handled, the web application holds that round's table in every
      state on every run to `t` exactly if each packet handled since, of whatever round, confirms
      the table. */
  lemma AgreementLastsIff(start: map<string, Device>, t: Net, k: nat, r: nat)
    requires Reachable(start, t)
    requires k < |t.handled| && r < |t.rounds| && t.handled[k] == Packet(r, Snapshot(t.rounds[r]))
    ensures (forall u :: OnTheWay(start, u, t) && |u.handled| > k ==> IsReplica(u.web, t.rounds[r])) <==>
            (forall j :: k < j < |t.handled| ==> Confirms(t.rounds[r], t.handled[j].message))
  {
    var msgs, table := Messages(t.handled), t.rounds[r];
    ReachableKeepsInv(start, t);
    ReplicaKeptIff(start, msgs, k, table);
    if forall u :: OnTheWay(start, u, t) && |u.handled| > k ==> IsReplica(u.web, table) {
      forall n | k < n <= |msgs|
        ensures HandleAll(start, msgs[..n]) == ByMac(table)
      {
        var u := SomewhereOnTheWay(start, t, n);
        WebOnTheWay(start, u, t);
        ReplicaIffByMac(u.web, table);
      }
      forall j | k < j < |t.handled|
        ensures Confirms(table, t.handled[j].message)
      {
        assert Confirms(table, msgs[j]);
      }
    }
    if forall j :: k < j < |t.handled| ==> Confirms(table, t.handled[j].message) {
      forall u | OnTheWay(start, u, t) && |u.handled| > k
        ensures IsReplica(u.web, table)
      {
        WebOnTheWay(start, u, t);
        ReplicaIffByMac(u.web, table);
      }
    }
  }

  // ----- Convergence

  /** A schedule that publishes nothing more and resends only the latest snapshot. */
  ghost predicate Settles(steps: seq<Step>, last: nat) {
    forall i :: 0 <= i < |steps| ==> !steps[i].Publish? && (steps[i].Resend? ==> steps[i].round == last)
  }

  /** Nothing of an earlier round is under way. */
  ghost predicate Settled(s: Net) {
    forall p :: p in s.inflight ==> p.round == |s.rounds| - 1
  }

  /** Some schedule from `s` to `t` publishes nothing more and resends only the latest snapshot. */
  ghost predicate Settling(s: Net, t: Net)
    requires s.rounds != []
  {
    exists steps :: Leads(Next, s, steps, t) && Settles(steps, |s.rounds| - 1)
  }

  lemma {:induction false} SettlingHandlesLast(s: Net, steps: seq<Step>, t: Net, last: nat)
    requires Leads(Next, s, steps, t) && Settles(steps, last)
    requires forall p :: p in s.inflight ==> p.round == last
    ensures t.rounds == s.rounds && s.handled <= t.handled
    ensures forall j :: |s.handled| <= j < |t.handled| ==> t.handled[j].round == last
    decreases |steps|
  {
    if steps == [] {
    } else {
      var u := Take(s, steps[0]);
      assert forall p :: p in u.inflight ==> p in s.inflight || p.round == last;
      SettlingHandlesLast(u, steps[1..], t, last);
      if steps[0].Deliver? {
        assert t.handled[|s.handled|] == u.handled[|s.handled|] == steps[0].packet;
      }
    }
  }

  lemma GenuineSnapshot(s: Net, p: Packet)
    requires Genuine(s, p) && p.message.Snapshot?
    ensures p.message == Snapshot(s.rounds[p.round])
  {
  }

  /** Convergence: when nothing of an earlier round is under way any more, every schedule that
      handles the latest snapshot ends with the web application holding the latest table. */
  lemma Convergence(start: map<string, Device>, mid: Net, t: Net, k: nat)
    requires Reachable(start, mid) && mid.rounds != [] && Settled(mid) && Settling(mid, t)
    requires |mid.handled| <= k < |t.handled| && t.handled[k].message.Snapshot?
    ensures IsReplica(t.web, mid.rounds[|mid.rounds| - 1])
  {
    var last := |mid.rounds| - 1;
    var steps :| Leads(Next, mid, steps, t) && Settles(steps, last);
    ReachableKeepsInv(start, mid);
    RunKeepsInv(mid, steps, t, start);
    SettlingHandlesLast(mid, steps, t, last);
    GenuineSnapshot(t, t.handled[k]);
    AgreementFromInv(t, start, k, last);
  }

  lemma ReachableOn(start: map<string, Device>, t: Net, step: Step)
    requires Reachable(start, t) && Enabled(t, step)
    ensures Reachable(start, Take(t, step))
  {
    var s :| Initial(s) && s.web == start && Reaches(Next, s, t);
    ReachesOn(Next, s, t, step);
  }

  /** What a run reaches from a reachable state is reachable. */
  lemma ReachableThrough(start: map<string, Device>, t: Net, u: Net)
    requires Reachable(start, t) && Reaches(Next, t, u)
    ensures Reachable(start, u)
  {
    var s :| Initial(s) && s.web == start && Reaches(Next, s, t);
    ReachesThrough(Next, s, t, u);
  }

  /** One more round from a reachable state. */
  lemma PublishOn(start: map<string, Device>, s: Net, table: Table, msg: Message) returns (t: Net)
    requires Reachable(start, s) && Publishable(table)
    requires msg in RoundMessages(if s.rounds == [] then None else Some(s.rounds[|s.rounds| - 1]), table)
    ensures Reachable(start, t) && t.rounds == s.rounds + [table] && t.web == s.web && t.handled == s.handled
    ensures Packet(|s.rounds|, msg) in t.inflight && forall p :: p in s.inflight ==> p in t.inflight
  {
    ReachableOn(start, s, Publish(table));
    t := Take(s, Publish(table));
    var r, rounds := |s.rounds|, s.rounds + [table];
    var sent := Sent(rounds, r);
    var i :| 0 <= i < |sent| && sent[i] == msg;
    assert Tagged(r, sent)[i] == Packet(r, msg);
  }

  lemma RemovalSent(d: Device)
    ensures Change(Removed(d.mac)) in RoundMessages(Some([d]), [])
    ensures forall prev :: Snapshot([d]) in RoundMessages(prev, [d])
  {
    var e := Removed(d.mac);
    assert [d][1..] == [] && Merge([d], []) == [e];
    assert Changes([e])[0] == Change(e) && RoundMessages(Some([d]), [])[0] == Change(e);
    forall prev
      ensures Snapshot([d]) in RoundMessages(prev, [d])
    {
      var msgs := RoundMessages(prev, [d]);
      assert msgs[|msgs| - 1] == Snapshot([d]);
    }
  }

  /** A device goes and comes back, and the web application has handled nothing yet. */
  lemma GoneAndBack(d: Device) returns (t: Net)
    requires d.mac != ""
    ensures Reachable(map[], t) && t.rounds == [[d], [], [d]] && t.web == map[] && t.handled == []
    ensures Packet(1, Change(Removed(d.mac))) in t.inflight && Packet(2, Snapshot([d])) in t.inflight
  {
    RemovalSent(d);
    t := Net([], multiset{}, map[], []);
    ReachesItself(Next, t);
    t := PublishOn(map[], t, [d], Snapshot([d]));
    t := PublishOn(map[], t, [], Change(Removed(d.mac)));
    t := PublishOn(map[], t, [d], Snapshot([d]));
  }

  /** Without the condition on later packets agreement can be lost: in some reachable state the
      latest snapshot was handled, and then the removal an earlier round announced of a device
      that has come back since. */
  lemma StaleRemovalBreaksAgreement(d: Device) returns (t: Net)
    requires d.mac != ""
    ensures Reachable(map[], t) && t.rounds == [[d], [], [d]]
    ensures t.handled == [Packet(2, Snapshot([d])), Packet(1, Change(Removed(d.mac)))]
    ensures !IsReplica(t.web, t.rounds[2])
  {
    var snapshot, removal := Packet(2, Snapshot([d])), Packet(1, Change(Removed(d.mac)));
    t := GoneAndBack(d);
    ReachableOn(map[], t, Deliver(snapshot, true));
    t := Take(t, Deliver(snapshot, true));
    ReachableOn(map[], t, Deliver(removal, true));
    t := Take(t, Deliver(removal, true));
    assert d in t.rounds[2] && d.mac !in t.web;
  }
}
