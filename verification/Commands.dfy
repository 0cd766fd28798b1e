/** The router's command handler (`np_handle_message`) acting on the nftables set. */
module Commands {
  import opened Text
  import opened Order
  import Mac
  import Scan
  import Inventory
  import Leases
  import Replication
  import Topics

  /** How the nft commands run on behalf of one message turn out: adding fails, deleting an
      element that is present fails, asking fails, and the output of the listing. */
  datatype Nft = Nft(addFails: bool, deleteFails: bool, queryFails: bool, listing: Option<string>)

  /** A message payload after JSON parsing: the string members the handler looks at. */
  datatype Payload = Payload(mac: Option<string>, reqId: Option<string>)

  datatype Command = Command(action: string, payload: Payload, nft: Nft)

  datatype Detail = Error(text: string) | Address(mac: string) | Flag(blocked: bool) | List(macs: seq<string>) | Pong

  datatype Answer = Answer(ok: bool, detail: Detail)

  datatype Reply = Reply(reqId: string, action: string, answer: Answer)

  /** The command in a message, unless its topic or its payload (None: invalid JSON) is not one. */
  function Understood(topic: string, id: string, payload: Option<Payload>, nft: Nft): Option<Command> {
    match Topics.ParseAction(topic, id)
    case None => None
    case Some(action) => if payload.None? then None else Some(Command(action, payload.value, nft))
  }

  function Normal(c: Command): Option<string> {
    if c.payload.mac.None? then None else Mac.Normalize(c.payload.mac.value)
  }

  /** The answer to a command, given the blocked set. */
  function AnswerTo(c: Command, blocked: set<string>): Answer {
    if c.action == "block" then
      if c.payload.mac.None? then Answer(false, Error("mac required"))
      else if Normal(c).None? || c.nft.addFails then Answer(false, Error("nft block failed"))
      else Answer(true, Address(c.payload.mac.value))
    else if c.action == "unblock" then
      if c.payload.mac.None? then Answer(false, Error("mac required"))
      else if Normal(c).None? then Answer(false, Error("nft unblock failed"))
      else Answer(true, Address(c.payload.mac.value))
    else if c.action == "status" then
      if c.payload.mac.None? then Answer(false, Error("mac required"))
      else if Normal(c).None? || c.nft.queryFails then Answer(false, Error("lookup failed"))
      else Answer(true, Flag(Normal(c).value in blocked))
    else if c.action == "list" then Answer(true, List(Scan.Listed(c.nft.listing)))
    else if c.action == "ping" then Answer(true, Pong)
    else Answer(false, Error("unknown action"))
  }

  /** The blocked set after a command. */
  function Effect(c: Command, blocked: set<string>): set<string> {
    if Normal(c).None? then blocked
    else if c.action == "block" && !c.nft.addFails then blocked + {Normal(c).value}
    else if c.action == "unblock" && !c.nft.deleteFails then blocked - {Normal(c).value}
    else blocked
  }

  /** A reply is published if the request can be named; `list` does not insist on a non-empty name. */
  function Replies(c: Command, answer: Answer): seq<Reply> {
    if c.payload.reqId.Some? && (c.payload.reqId.value != "" || c.action == "list")
    then [Reply(c.payload.reqId.value, c.action, answer)] else []
  }

  /** What is published in reply to a message. */
  function RepliesTo(topic: string, id: string, payload: Option<Payload>, nft: Nft, blocked: set<string>): seq<Reply> {
    match Understood(topic, id, payload, nft)
    case None => []
    case Some(c) => Replies(c, AnswerTo(c, blocked))
  }

  function Prefix(id: string): string {
    Topics.ROOT + id + Topics.COMMAND
  }

  /** Those of them that MQTT takes. */
  function Responses(topic: string, id: string, payload: Option<Payload>, nft: Nft, blocked: set<string>): seq<Reply> {
    var rs := RepliesTo(topic, id, payload, nft, blocked);
    if rs != [] && Topics.Accepted(Topics.ResponseTopic(id, rs[0].reqId)) then rs else []
  }

  /** The message is a request of this router: its topic is the router's prefix, short enough for
      the buffer, and an action; its payload is JSON; and it has a `req_id` that is not empty, or
      any `req_id` if the action is `list`. */
  predicate AsksFor(topic: string, id: string, payload: Option<Payload>) {
    && |id| <= 112 && Prefix(id) < topic
    && payload.Some? && payload.value.reqId.Some?
    && (payload.value.reqId.value != "" || topic == Prefix(id) + "list")
  }

  /** A message is a command exactly if its topic is the router's prefix, short enough for the
      buffer, and an action, and its payload is JSON. */
  lemma UnderstoodIff(topic: string, id: string, payload: Option<Payload>, nft: Nft, action: string)
    ensures Understood(topic, id, payload, nft).Some? <==> |id| <= 112 && Prefix(id) < topic && payload.Some?
    ensures |id| <= 112 && action != "" && payload.Some? ==>
              Understood(Prefix(id) + action, id, payload, nft) == Some(Command(action, payload.value, nft))
  {
    assert (Prefix(id) + action)[|Prefix(id)|..] == action;
    if Prefix(id) <= topic {
      assert topic == Prefix(id) + topic[|Prefix(id)|..];
    }
  }

  /** A message is answered exactly if it is such a request, and the answer is published exactly
      if neither the router's id nor the `req_id` has a wildcard in it. */
  lemma AnsweredIff(topic: string, id: string, payload: Option<Payload>, nft: Nft, blocked: set<string>)
    ensures RepliesTo(topic, id, payload, nft, blocked) != [] <==> AsksFor(topic, id, payload)
    ensures Responses(topic, id, payload, nft, blocked) != [] <==>
            && AsksFor(topic, id, payload)
            && '+' !in id && '#' !in id && '+' !in payload.value.reqId.value && '#' !in payload.value.reqId.value
  {
    var prefix := Prefix(id);
    if prefix <= topic {
      assert topic == prefix + topic[|prefix|..];
      assert topic[|prefix|..] == "" <==> topic == prefix;
      assert (prefix + "list")[|prefix|..] == "list";
    }
    if AsksFor(topic, id, payload) {
      Topics.ResponseAcceptedIff(id, payload.value.reqId.value);
    }
  }

  /** A well-formed request with an empty `req_id` is not answered. */
  lemma EmptyIdIsNotAnswered(id: string, nft: Nft, blocked: set<string>)
    ensures RepliesTo(Prefix(id) + "ping", id, Some(Payload(None, Some(""))), nft, blocked) == []
  {
    var topic, prefix := Prefix(id) + "ping", Prefix(id);
    assert topic[|prefix|..] == "ping" && (prefix + "list")[|prefix|..] == "list";
    AnsweredIff(topic, id, Some(Payload(None, Some(""))), nft, blocked);
  }

  /** The canonical MAC and the wanted state of a block or unblock answered as success. */
  function Granted(c: Command, blocked: set<string>): Option<(string, bool)> {
    if AnswerTo(c, blocked).ok && (c.action == "block" || c.action == "unblock")
    then Some((Normal(c).value, c.action == "block")) else None
  }

  class Handler {
    const id: string
    var blocked: set<string>
    var replies: seq<Reply>
    const leases: Leases.Watcher?

    constructor (id: string, blocked: set<string>, leases: Leases.Watcher?)
      ensures this.id == id && this.blocked == blocked && this.leases == leases && replies == []
    {
      this.id, this.blocked, this.leases, this.replies := id, blocked, leases, [];
    }

    ghost function Frame(): set<object> {
      if leases == null then {} else {leases, leases.list, leases.prev}
    }

    /** `np_nft_block` */
    method Block(mac: string, nft: Nft) returns (rc: int)
      modifies this`blocked
      ensures rc == 0 <==> Mac.Normalize(mac).Some? && !nft.addFails
      ensures blocked == old(blocked) + if rc == 0 then {Mac.Normalize(mac).value} else {}
    {
      var norm := Mac.Normalize(mac);
      if norm.None? { return -1; }
      if nft.addFails { return 1; }
      blocked := blocked + {norm.value};
      return 0;
    }

    /** `np_nft_unblock`: a failing delete is taken to mean that the element was absent. */
    method Unblock(mac: string, nft: Nft) returns (rc: int)
      modifies this`blocked
      ensures rc == 0 <==> Mac.Normalize(mac).Some?
      ensures blocked == old(blocked) - if rc == 0 && !nft.deleteFails then {Mac.Normalize(mac).value} else {}
    {
      var norm := Mac.Normalize(mac);
      if norm.None? { return -1; }
      if !nft.deleteFails {
        blocked := blocked - {norm.value};
      }
      return 0;
    }

    /** `np_nft_is_blocked` */
    method IsBlocked(mac: string, nft: Nft) returns (s: int)
      ensures s < 0 <==> Mac.Normalize(mac).None? || nft.queryFails
      ensures s > 0 ==> Mac.Normalize(mac).value in blocked
      ensures s == 0 ==> Mac.Normalize(mac).value !in blocked
    {
      var norm := Mac.Normalize(mac);
      if norm.None? || nft.queryFails { return -1; }
      return if norm.value in blocked then 1 else 0;
    }

    method Send(c: Command, answer: Answer)
      modifies this`replies
      ensures replies == old(replies) + Replies(c, answer)
    {
      replies := replies + Replies(c, answer);
    }

    /** No round was published. */
    twostate predicate Unpublished()
      requires leases != null ==> old(leases.Valid()) && leases.Valid()
      reads leases, Frame()
    {
      leases != null ==> leases.outbox == old(leases.outbox) && leases.Published() == old(leases.Published())
    }

    /** One round was published, with the table rebuilt from `w`. */
    twostate predicate Republished(w: Inventory.World)
      requires leases != null ==> old(leases.Valid()) && leases.Valid()
      reads leases, Frame()
    {
      leases != null ==>
        && leases.outbox ==
           old(leases.outbox) + Replication.RoundMessages(old(leases.Published()), Inventory.Rebuilt(w))
        && leases.Published() == Some(Inventory.Rebuilt(w))
    }

    /** The command was carried out and answered, and a round published if it was granted. */
    twostate predicate Handled(c: Command, w: Inventory.World)
      requires leases != null ==> old(leases.Valid()) && leases.Valid()
      reads this, leases, Frame()
    {
      && replies == old(replies) + Replies(c, AnswerTo(c, old(blocked)))
      && blocked == Effect(c, old(blocked))
      && if Granted(c, old(blocked)).Some? then Republished(w) else Unpublished()
    }

    method HandleBlock(c: Command, w: Inventory.World)
      requires c.action == "block" && (leases != null ==> leases.Valid())
      modifies this`blocked, this`replies, Frame()
      ensures (leases != null ==> leases.Valid()) && Handled(c, w)
    {
      var mac := c.payload.mac;
      if mac.None? {
        Send(c, Answer(false, Error("mac required")));
      } else {
        var rc := Block(mac.value, c.nft);
        if rc != 0 {
          Send(c, Answer(false, Error("nft block failed")));
        } else {
          Send(c, Answer(true, Address(mac.value)));
          if leases != null { leases.Republish(w); }
        }
      }
    }

    method HandleUnblock(c: Command, w: Inventory.World)
      requires c.action == "unblock" && (leases != null ==> leases.Valid())
      modifies this`blocked, this`replies, Frame()
      ensures (leases != null ==> leases.Valid()) && Handled(c, w)
    {
      var mac := c.payload.mac;
      if mac.None? {
        Send(c, Answer(false, Error("mac required")));
      } else {
        var rc := Unblock(mac.value, c.nft);
        if rc != 0 {
          Send(c, Answer(false, Error("nft unblock failed")));
        } else {
          Send(c, Answer(true, Address(mac.value)));
          if leases != null { leases.Republish(w); }
        }
      }
    }

    method HandleStatus(c: Command)
      requires c.action == "status"
      modifies this`replies
      ensures replies == old(replies) + Replies(c, AnswerTo(c, blocked))
    {
      var mac := c.payload.mac;
      if mac.None? {
        Send(c, Answer(false, Error("mac required")));
      } else {
        var s := IsBlocked(mac.value, c.nft);
        Send(c, if s < 0 then Answer(false, Error("lookup failed")) else Answer(true, Flag(s != 0)));
      }
    }

    /** One message: `w` is the world a rebuild would find after the command took effect. */
    method HandleMessage(topic: string, payload: Option<Payload>, nft: Nft, w: Inventory.World)
      requires leases != null ==> leases.Valid()
      modifies this`blocked, this`replies, Frame()
      ensures leases != null ==> leases.Valid()
      ensures var c := Understood(topic, id, payload, nft);
              if c.None? then replies == old(replies) && blocked == old(blocked) && Unpublished()
              else Handled(c.value, w)
    {
      var action := Topics.ParseAction(topic, id);
      if action.None? || payload.None? {
        return;
      }
      var c := Command(action.value, payload.value, nft);
      if c.action == "block" {
        HandleBlock(c, w);
      } else if c.action == "unblock" {
        HandleUnblock(c, w);
      } else if c.action == "status" {
        HandleStatus(c);
      } else if c.action == "list" {
        var macs := Scan.List(nft.listing);
        Send(c, Answer(true, List(macs)));
      } else if c.action == "ping" {
        Send(c, Answer(true, Pong));
      } else {
        Send(c, Answer(false, Error("unknown action")));
      }
    }

    /** A run of messages: the set and the replies are those of the commands understood. */
    method HandleRun(ms: seq<Incoming>)
      requires leases != null ==> leases.Valid()
      modifies this`blocked, this`replies, Frame()
      ensures leases != null ==> leases.Valid()
      ensures blocked == After(CommandsIn(id, ms), old(blocked))
      ensures replies == old(replies) + RepliesDuring(CommandsIn(id, ms), old(blocked))
    {
      assert old(replies) + [] == old(replies);
      for i := 0 to |ms|
        invariant leases != null ==> leases.Valid()
        invariant blocked == SetAfter(id, ms[..i], old(blocked))
        invariant replies == old(replies) + RepliesAfter(id, ms[..i], old(blocked))
      {
        assert ms[..i + 1][..i] == ms[..i];
        HandleMessage(ms[i].topic, ms[i].payload, ms[i].nft, ms[i].world);
      }
      assert ms[..|ms|] == ms;
      RunOfCommands(id, ms, old(blocked));
    }
  }

  // ----- Runs of commands

  /** A message as it arrives, with how its nft commands turn out and the world it leaves. */
  datatype Incoming = Incoming(topic: string, payload: Option<Payload>, nft: Nft, world: Inventory.World)

  function CommandsIn(id: string, ms: seq<Incoming>): seq<Command> {
    if ms == [] then []
    else
      var m := ms[|ms| - 1];
      CommandsIn(id, ms[..|ms| - 1]) +
      match Understood(m.topic, id, m.payload, m.nft) case None => [] case Some(c) => [c]
  }

  function RepliesDuring(cs: seq<Command>, blocked: set<string>): seq<Reply> {
    if cs == [] then []
    else
      var front, c := cs[..|cs| - 1], cs[|cs| - 1];
      RepliesDuring(front, blocked) + Replies(c, AnswerTo(c, After(front, blocked)))
  }

  function After(cs: seq<Command>, blocked: set<string>): set<string> {
    if cs == [] then blocked else Effect(cs[|cs| - 1], After(cs[..|cs| - 1], blocked))
  }

  // The same, message by message.

  function SetAfter(id: string, ms: seq<Incoming>, blocked: set<string>): set<string> {
    if ms == [] then blocked
    else
      var m, before := ms[|ms| - 1], SetAfter(id, ms[..|ms| - 1], blocked);
      match Understood(m.topic, id, m.payload, m.nft)
      case None => before
      case Some(c) => Effect(c, before)
  }

  function RepliesAfter(id: string, ms: seq<Incoming>, blocked: set<string>): seq<Reply> {
    if ms == [] then []
    else
      var front, m := ms[..|ms| - 1], ms[|ms| - 1];
      RepliesAfter(id, front, blocked) + RepliesTo(m.topic, id, m.payload, m.nft, SetAfter(id, front, blocked))
  }

  lemma {:induction false} RunOfCommands(id: string, ms: seq<Incoming>, blocked: set<string>)
    ensures SetAfter(id, ms, blocked) == After(CommandsIn(id, ms), blocked)
    ensures RepliesAfter(id, ms, blocked) == RepliesDuring(CommandsIn(id, ms), blocked)
  {
    if ms == [] {
    } else {
      var front, m := ms[..|ms| - 1], ms[|ms| - 1];
      var cs := CommandsIn(id, front);
      RunOfCommands(id, front, blocked);
      match Understood(m.topic, id, m.payload, m.nft)
      case None => assert cs + [] == cs;
      case Some(c) => assert (cs + [c])[..|cs|] == cs;
    }
  }

  /** The wanted state in the last block or unblock of a MAC that was answered as success. */
  function LastGrant(cs: seq<Command>, blocked: set<string>, mac: string): Option<bool> {
    if cs == [] then None
    else
      var front, c := cs[..|cs| - 1], cs[|cs| - 1];
      match Granted(c, After(front, blocked))
      case Some((m, wanted)) => if m == mac then Some(wanted) else LastGrant(front, blocked, mac)
      case None => LastGrant(front, blocked, mac)
  }

  /** The set is the initial one, overridden by the last success answered for each MAC. */
  ghost predicate AnswersRule(cs: seq<Command>, blocked: set<string>) {
    forall mac :: mac in After(cs, blocked) <==>
      match LastGrant(cs, blocked, mac) case None => mac in blocked case Some(wanted) => wanted
  }

  /** An unblock whose delete fails though the element is there. */
  predicate DeleteBroken(c: Command, blocked: set<string>) {
    c.action == "unblock" && c.nft.deleteFails && Normal(c).Some? && Normal(c).value in blocked
  }

  /** In the whole run no delete of an element that is present fails. */
  ghost predicate Reliable(cs: seq<Command>, blocked: set<string>) {
    forall i :: 0 <= i < |cs| ==> !DeleteBroken(cs[i], After(cs[..i], blocked))
  }

  lemma StepRule(cs: seq<Command>, blocked: set<string>)
    requires cs != [] && AnswersRule(cs[..|cs| - 1], blocked)
    requires !DeleteBroken(cs[|cs| - 1], After(cs[..|cs| - 1], blocked))
    ensures AnswersRule(cs, blocked)
  {
  }

  lemma {:induction false} ReliableRunRules(cs: seq<Command>, blocked: set<string>, n: nat)
    requires n <= |cs| && Reliable(cs, blocked)
    ensures AnswersRule(cs[..n], blocked)
  {
    if n == 0 {
    } else {
      ReliableRunRules(cs, blocked, n - 1);
      assert cs[..n][..n - 1] == cs[..n - 1];
      StepRule(cs[..n], blocked);
    }
  }

  lemma BrokenDeleteBreaksRule(cs: seq<Command>, blocked: set<string>, i: nat)
    requires i < |cs| && DeleteBroken(cs[i], After(cs[..i], blocked))
    ensures !AnswersRule(cs[..i + 1], blocked)
  {
    var run, mac := cs[..i + 1], Normal(cs[i]).value;
    assert run[..|run| - 1] == cs[..i] && run[|run| - 1] == cs[i];
    assert LastGrant(run, blocked, mac) == Some(false) && mac in After(run, blocked);
  }

  /** The answers describe the set after every command of the run. */
  ghost predicate AnswersRuleThroughout(cs: seq<Command>, blocked: set<string>) {
    forall n :: 0 <= n <= |cs| ==> AnswersRule(cs[..n], blocked)
  }

  /** They do exactly if no delete of an element that is present fails; the handler answers such
      a failure as success. */
  lemma AnswersRuleIff(cs: seq<Command>, blocked: set<string>)
    ensures AnswersRuleThroughout(cs, blocked) <==> Reliable(cs, blocked)
  {
    if Reliable(cs, blocked) {
      forall n | 0 <= n <= |cs|
        ensures AnswersRule(cs[..n], blocked)
      {
        ReliableRunRules(cs, blocked, n);
      }
    } else {
      var i :| 0 <= i < |cs| && DeleteBroken(cs[i], After(cs[..i], blocked));
      BrokenDeleteBreaksRule(cs, blocked, i);
    }
  }

  /** The state of a MAC as the answers before tell it. */
  function Told(cs: seq<Command>, blocked: set<string>, mac: string): bool {
    match LastGrant(cs, blocked, mac)
    case None => mac in blocked
    case Some(wanted) => wanted
  }

  /** The listing command prints the set, and the buffer holds all it prints. */
  ghost predicate ListsWhole(c: Command, elements: set<string>) {
    && c.nft.listing.Some? && |c.nft.listing.value| <= 4095
    && Inventory.Prints(c.nft.listing.value, elements)
  }

  /** After a reliable run, `status` for any spelling of a MAC and a whole `list` say what the
      answers before said. */
  lemma ReportsAgree(cs: seq<Command>, blocked: set<string>, c: Command)
    requires Reliable(cs, blocked)
    ensures c.action == "status" && Normal(c).Some? && !c.nft.queryFails ==>
              AnswerTo(c, After(cs, blocked)) == Answer(true, Flag(Told(cs, blocked, Normal(c).value)))
    ensures c.action == "list" && ListsWhole(c, After(cs, blocked)) ==>
              var answer := AnswerTo(c, After(cs, blocked));
              answer.ok && answer.detail.List? && forall mac :: mac in answer.detail.macs <==> Told(cs, blocked, mac)
  {
    AnswersRuleIff(cs, blocked);
    assert cs[..|cs|] == cs;
    assert AnswersRule(cs, blocked);
    if c.action == "list" && ListsWhole(c, After(cs, blocked)) {
      Inventory.CompleteListing(c.nft.listing.value, After(cs, blocked));
      forall mac
        ensures mac in Scan.Listed(c.nft.listing) <==> Told(cs, blocked, mac)
      {
        assert mac in Scan.Listed(c.nft.listing) <==> mac in Elements(Scan.Listed(c.nft.listing));
      }
    }
  }
}
