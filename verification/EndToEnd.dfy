/** From a command on the router to what the web application's store shows. */
module EndToEnd {
  import opened Text
  import opened Devices
  import opened Replication
  import Inventory
  import Mac
  import Commands
  import Leases
  import Runs
  import MacLaws
  import Serving
  import Topics

  // ----- What the router sends is what the protocol has under way

  /** Every rebuilt table may be published: it is sorted, and its MACs are canonical. */
  lemma RebuiltIsPublishable(w: Inventory.World)
    ensures Publishable(Inventory.Rebuilt(w))
    ensures forall d :: d in Inventory.Rebuilt(w) ==> Mac.Normalize(d.mac) == Some(d.mac)
  {
    Inventory.RebuiltIsInventory(w);
    forall d | d in Inventory.Rebuilt(w)
      ensures Mac.Normalize(d.mac) == Some(d.mac) && d.mac != ""
    {
      Inventory.EntryIsCanonical(w, d);
      Inventory.CanonicalIsLower(d.mac);
    }
  }

  function Tables(worlds: seq<Inventory.World>): seq<Table> {
    seq(|worlds|, i requires 0 <= i < |worlds| => Inventory.Rebuilt(worlds[i]))
  }

  /** What was sent before, and then everything of the first `n` rounds in order. */
  function SentUpTo(before: seq<Message>, rounds: seq<Table>, n: nat): seq<Message>
    requires n <= |rounds|
  {
    if n == 0 then before else SentUpTo(before, rounds, n - 1) + Sent(rounds, n - 1)
  }

  /** `table(i)` and `log(i)` are what is published and sent before round `i`. */
  ghost predicate Rounds(worlds: seq<Inventory.World>, table: nat -> Option<Table>, log: nat -> seq<Message>) {
    forall i: nat :: i < |worlds| ==> RoundIs(worlds[i], table, log, i)
  }

  ghost predicate RoundIs(w: Inventory.World, table: nat -> Option<Table>, log: nat -> seq<Message>, i: nat) {
    && table(i + 1) == Some(Inventory.Rebuilt(w))
    && log(i + 1) == log(i) + RoundMessages(table(i), Inventory.Rebuilt(w))
  }

  method RunAll(l: Leases.Watcher, worlds: seq<Inventory.World>, ghost table: nat -> Option<Table>,
                ghost log: nat -> seq<Message>)
    requires l.Valid() && Rounds(worlds, table, log) && l.Published() == table(0) && l.outbox == log(0)
    modifies l, l.list, l.prev
    ensures l.Valid() && l.Published() == table(|worlds|) && l.outbox == log(|worlds|)
  {
    for i := 0 to |worlds|
      invariant l.Valid() && l.Published() == table(i) && l.outbox == log(i)
    {
      l.Republish(worlds[i]);
    }
  }

  /** What was published before round `i`. */
  function Before(rounds: seq<Table>, i: nat): Option<Table> {
    if 0 < i <= |rounds| then Some(rounds[i - 1]) else None
  }

  lemma SentInRound(before: seq<Message>, rounds: seq<Table>, i: nat, cur: Table)
    requires i < |rounds| && cur == rounds[i]
    ensures Before(rounds, i + 1) == Some(cur)
    ensures SentUpTo(before, rounds, i + 1) == SentUpTo(before, rounds, i) + RoundMessages(Before(rounds, i), cur)
  {
  }

  function TableLog(rounds: seq<Table>): nat -> Option<Table> {
    (i: nat) => Before(rounds, i)
  }

  function SentLog(sent: seq<Message>, rounds: seq<Table>): nat -> seq<Message> {
    (i: nat) => if i <= |rounds| then SentUpTo(sent, rounds, i) else []
  }

  lemma LogsGrow(rounds: seq<Table>, sent: seq<Message>, i: nat, cur: Table)
    requires i < |rounds| && cur == rounds[i]
    ensures TableLog(rounds)(i + 1) == Some(cur)
    ensures SentLog(sent, rounds)(i + 1) == SentLog(sent, rounds)(i) + RoundMessages(TableLog(rounds)(i), cur)
  {
    SentInRound(sent, rounds, i, cur);
  }

  lemma RoundAt(worlds: seq<Inventory.World>, sent: seq<Message>, i: nat)
    requires i < |worlds|
    ensures RoundIs(worlds[i], TableLog(Tables(worlds)), SentLog(sent, Tables(worlds)), i)
  {
    LogsGrow(Tables(worlds), sent, i, Inventory.Rebuilt(worlds[i]));
  }

  lemma TablesAreRounds(worlds: seq<Inventory.World>, sent: seq<Message>)
    ensures Rounds(worlds, TableLog(Tables(worlds)), SentLog(sent, Tables(worlds)))
  {
    forall i: nat | i < |worlds|
      ensures RoundIs(worlds[i], TableLog(Tables(worlds)), SentLog(sent, Tables(worlds)), i)
    {
      RoundAt(worlds, sent, i);
    }
  }

  /** The rounds of a router are the Publish steps of the protocol: a watcher that republishes
      once for each world sends, in order, exactly the messages of those rounds. */
  method RunRounds(l: Leases.Watcher, worlds: seq<Inventory.World>)
    requires l.Valid() && l.Published() == None
    modifies l, l.list, l.prev
    ensures l.Valid() && l.outbox == SentUpTo(old(l.outbox), Tables(worlds), |worlds|)
  {
    ghost var sent := l.outbox;
    TablesAreRounds(worlds, sent);
    RunAll(l, worlds, TableLog(Tables(worlds)), SentLog(sent, Tables(worlds)));
  }

  // ----- A granted command shows on the dashboard

  /** The table published after a granted block or unblock says what was granted. */
  lemma GrantShowsInTable(c: Commands.Command, blocked: set<string>, mac: string, wanted: bool, w: Inventory.World)
    requires Commands.Granted(c, blocked) == Some((mac, wanted)) && !Commands.DeleteBroken(c, blocked)
    requires Inventory.Stable(w, Commands.Effect(c, blocked))
    ensures forall d :: d in Inventory.Rebuilt(w) && d.mac == mac ==> d.blocked == wanted
    ensures wanted && Whole(w, Commands.Effect(c, blocked)) ==> mac in Macs(Inventory.Rebuilt(w))
  {
    var now := Commands.Effect(c, blocked);
    assert mac in now <==> wanted;
    forall d | d in Inventory.Rebuilt(w) && d.mac == mac
      ensures d.blocked == wanted
    {
      Inventory.BlockedIffInSet(w, now, d);
    }
    Inventory.InventoryIsUnionIff(w, now);
  }

  /** The condition under which the rebuilt table is the whole union. */
  ghost predicate Whole(w: Inventory.World, elements: set<string>) {
    Inventory.AllFit(w) && Inventory.ListedOrLeased(w, elements)
  }

  /** The map shows the device as granted, and shows a blocked one if the table was whole. */
  ghost predicate Shows(web: map<string, Device>, mac: string, wanted: bool, whole: bool) {
    && (mac in web ==> web[mac].blocked == wanted)
    && (wanted && whole ==> mac in web)
  }

  /** The protocol's last round is what the watcher published last. */
  ghost predicate Mirrors(s: Net, published: Option<Table>) {
    published == if s.rounds == [] then None else Some(s.rounds[|s.rounds| - 1])
  }

  /** Some run from `s` to `t` starts with the publication of the table. */
  ghost predicate PublishedThen(s: Net, table: Table, t: Net) {
    Publishable(table) && Runs.Reaches(Next, Take(s, Publish(table)), t)
  }

  lemma PublishedThenKeeps(start: map<string, Device>, s: Net, table: Table, t: Net)
    requires Reachable(start, s) && PublishedThen(s, table, t)
    ensures Reachable(start, t) && |s.rounds| < |t.rounds| && t.rounds[|s.rounds|] == table
  {
    var next := Take(s, Publish(table));
    ReachableOn(start, s, Publish(table));
    RunGrows(next, t);
    ReachableThrough(start, next, t);
  }

  /** After a granted block or unblock the round rebuilt from the new set is published. Once its
      snapshot was handled with only that round's packets after it, the web application shows the
      device as granted, whatever was delivered before and however often. */
  lemma GrantReachesStore(c: Commands.Command, blocked: set<string>, mac: string, wanted: bool, w: Inventory.World,
                          start: map<string, Device>, s: Net, t: Net, k: nat)
    requires Commands.Granted(c, blocked) == Some((mac, wanted)) && !Commands.DeleteBroken(c, blocked)
    requires Inventory.Stable(w, Commands.Effect(c, blocked))
    requires Reachable(start, s) && PublishedThen(s, Inventory.Rebuilt(w), t) && Serving.LastSnapshot(t, k, |s.rounds|)
    ensures Shows(t.web, mac, wanted, Whole(w, Commands.Effect(c, blocked)))
  {
    PublishedThenKeeps(start, s, Inventory.Rebuilt(w), t);
    ReplicaAgreement(start, t, k, |s.rounds|);
    GrantShowsInTable(c, blocked, mac, wanted, w);
  }

  /** In every run that publishes the table next, once its snapshot came last, it shows. */
  ghost predicate GrantShown(grant: (string, bool), table: Table, whole: bool) {
    forall start, s, t, k ::
      Reachable(start, s) && PublishedThen(s, table, t) && Serving.LastSnapshot(t, k, |s.rounds|) ==>
        Shows(t.web, grant.0, grant.1, whole)
  }

  lemma GrantIsShown(c: Commands.Command, blocked: set<string>, w: Inventory.World)
    requires Commands.Granted(c, blocked).Some? && !Commands.DeleteBroken(c, blocked)
    requires Inventory.Stable(w, Commands.Effect(c, blocked))
    ensures GrantShown(Commands.Granted(c, blocked).value, Inventory.Rebuilt(w), Whole(w, Commands.Effect(c, blocked)))
  {
    var (mac, wanted) := Commands.Granted(c, blocked).value;
    forall start, s, t, k |
      Reachable(start, s) && PublishedThen(s, Inventory.Rebuilt(w), t) && Serving.LastSnapshot(t, k, |s.rounds|)
      ensures Shows(t.web, mac, wanted, Whole(w, Commands.Effect(c, blocked)))
    {
      GrantReachesStore(c, blocked, mac, wanted, w, start, s, t, k);
    }
  }

  /** What a watcher that published `before` sends for one more round is what the protocol puts
      under way. */
  ghost predicate SentNextRound(before: Option<Table>, table: Table, outbox: seq<Message>, outbox': seq<Message>) {
    forall s: Net :: Mirrors(s, before) ==> outbox' == outbox + Sent(s.rounds + [table], |s.rounds|)
  }

  /** The handler itself: if it grants a block or unblock it has its watcher publish one round,
      whose messages are those the protocol puts under way, and every replica of that round shows
      the device as granted, provided the rebuild saw the set as it is now. */
  method HandleCommand(h: Commands.Handler, topic: string, payload: Option<Commands.Payload>, nft: Commands.Nft,
                       w: Inventory.World)
    requires h.leases != null && h.leases.Valid()
    modifies h`blocked, h`replies, h.Frame()
    ensures h.leases.Valid()
    ensures var (c, was) := (Commands.Understood(topic, h.id, payload, nft), old(h.blocked));
            c.Some? && Commands.Granted(c.value, was).Some? ==>
              && h.leases.Published() == Some(Inventory.Rebuilt(w))
              && SentNextRound(old(h.leases.Published()), Inventory.Rebuilt(w), old(h.leases.outbox), h.leases.outbox)
              && (!Commands.DeleteBroken(c.value, was) && Inventory.Stable(w, h.blocked) ==>
                    GrantShown(Commands.Granted(c.value, was).value, Inventory.Rebuilt(w), Whole(w, h.blocked)))
  {
    ghost var was := h.blocked;
    h.HandleMessage(topic, payload, nft, w);
    ghost var c := Commands.Understood(topic, h.id, payload, nft);
    if c.Some? && Commands.Granted(c.value, was).Some? && !Commands.DeleteBroken(c.value, was)
       && Inventory.Stable(w, h.blocked) {
      GrantIsShown(c.value, was, w);
    }
  }

  // ----- From the click

  /** `doBlockUnblock` and `publishCmd`: the topic and payload published, unless the MAC does not
      match the pattern or the router has no name. `reqId` is made of the clock. */
  function Click(id: string, mac: string, block: bool, reqId: string): Option<(string, Commands.Payload)> {
    var lower := LowerAll(mac);
    if !MacLaws.MatchesWebPattern(lower) then None
    else
      match Topics.CommandTopic(id, if block then "block" else "unblock")
      case None => None
      case Some(topic) => Some((topic, Commands.Payload(Some(lower), Some(reqId))))
  }

  /** What is sent: the command's topic, and the MAC in small letters. */
  lemma ClickMeans(id: string, mac: string, block: bool, reqId: string, topic: string, payload: Commands.Payload)
    ensures Click(id, mac, block, reqId) == Some((topic, payload)) <==>
            && MacLaws.MatchesWebPattern(mac) && id != ""
            && topic == "netparent/" + id + "/cmd/" + (if block then "block" else "unblock")
            && payload == Commands.Payload(Some(LowerAll(mac)), Some(reqId))
  {
    LowerKeepsPattern(mac);
    assert Topics.ROOT == "netparent/" && Topics.COMMAND == "/cmd/";
  }

  lemma LowerKeepsPattern(mac: string)
    ensures MacLaws.MatchesWebPattern(LowerAll(mac)) <==> MacLaws.MatchesWebPattern(mac)
    ensures MacLaws.MatchesWebPattern(mac) ==> MacLaws.Pairs(LowerAll(mac)) == MacLaws.Pairs(mac)
  {
    var lower := LowerAll(mac);
    assert forall i :: 0 <= i < |mac| ==> (IsHex(lower[i]) <==> IsHex(mac[i]));
    assert forall i :: 0 <= i < |mac| ==> (Mac.IsSeparator(lower[i]) <==> Mac.IsSeparator(mac[i]));
    if MacLaws.MatchesWebPattern(mac) && MacLaws.MatchesWebPattern(lower) {
      forall k | 0 <= k < 6
        ensures MacLaws.PairValue(lower, k) == MacLaws.PairValue(mac, k)
      {
        LowerIsDigit(mac[3 * k]);
        LowerIsDigit(mac[3 * k + 1]);
      }
    }
  }

  /** What a router's handler makes of a click. */
  function Understood(id: string, click: Option<(string, Commands.Payload)>, nft: Commands.Nft)
    : Option<Commands.Command>
  {
    match click
    case None => None
    case Some((topic, payload)) => Commands.Understood(topic, id, Some(payload), nft)
  }

  /** A click becomes a command at its router exactly if the MAC has the pattern and the router's
      id is not empty and leaves room in the topic buffer. Then it is granted, for the address
      clicked on, unless the add fails. */
  lemma ClickGrantedIff(id: string, mac: string, block: bool, reqId: string, nft: Commands.Nft, blocked: set<string>)
    ensures var c := Understood(id, Click(id, mac, block, reqId), nft);
            && (c.Some? <==> MacLaws.MatchesWebPattern(mac) && 0 < |id| <= 112)
            && (c.Some? ==> Commands.Granted(c.value, blocked) ==
                            if block && nft.addFails then None
                            else Some((Mac.Canonical(MacLaws.Pairs(mac)), block)))
  {
    var action := if block then "block" else "unblock";
    LowerKeepsPattern(mac);
    if MacLaws.MatchesWebPattern(mac) && id != "" {
      Topics.ActionRecoveredIff(id, action);
      MacLaws.WebPatternIsAccepted(LowerAll(mac));
    }
  }

  /** From the click to every replica: the handler of the router clicked on publishes a round, and
      whatever is delivered and however often, once that round's snapshot came last the device
      clicked on shows as wanted. */
  method HandleClick(h: Commands.Handler, mac: string, block: bool, reqId: string, nft: Commands.Nft,
                     w: Inventory.World)
    requires h.leases != null && h.leases.Valid()
    modifies h`blocked, h`replies, h.Frame()
    ensures h.leases.Valid()
    ensures MacLaws.MatchesWebPattern(mac) && 0 < |h.id| <= 112 && !(block && nft.addFails) ==>
              var grant := (Mac.Canonical(MacLaws.Pairs(mac)), block);
              && h.leases.Published() == Some(Inventory.Rebuilt(w))
              && SentNextRound(old(h.leases.Published()), Inventory.Rebuilt(w), old(h.leases.outbox), h.leases.outbox)
              && ((block || !nft.deleteFails || grant.0 !in old(h.blocked)) && Inventory.Stable(w, h.blocked) ==>
                    GrantShown(grant, Inventory.Rebuilt(w), Whole(w, h.blocked)))
  {
    var click := Click(h.id, mac, block, reqId);
    ClickGrantedIff(h.id, mac, block, reqId, nft, h.blocked);
    if click.Some? {
      HandleCommand(h, click.value.0, Some(click.value.1), nft, w);
    }
  }
}
