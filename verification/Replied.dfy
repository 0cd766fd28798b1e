/** What the router's replies tell whoever sent the commands, in terms of the commands, of the set
    before and after, and of the replies alone. */
module Replied {
  import opened Text
  import opened Commands
  import Mac
  import Scan
  import Topics

  /** The command asks for a reply: it has a `req_id`, which only `list` lets be empty. */
  predicate Asks(c: Command) {
    c.payload.reqId.Some? && (c.payload.reqId.value != "" || c.action == "list")
  }

  /** The command names a MAC, in any spelling. */
  predicate Names(c: Command, mac: string) {
    c.payload.mac.Some? && Mac.Normalize(c.payload.mac.value) == Some(mac)
  }

  /** The error of a command that was not carried out. */
  predicate Refused(c: Command, answer: Answer, failure: string) {
    !answer.ok && answer.detail == Error(if c.payload.mac.None? then "mac required" else failure)
  }

  /** Success echoes the MAC as it was sent, and the set has the element, or has it no longer unless
      the delete failed; otherwise the set is as it was. */
  ghost predicate TellsChange(c: Command, before: set<string>, after: set<string>, answer: Answer) {
    var block := c.action == "block";
    && (answer.ok <==> exists mac :: Names(c, mac) && !(block && c.nft.addFails))
    && (answer.ok ==> answer.detail == Address(c.payload.mac.value))
    && (forall mac :: answer.ok && Names(c, mac) ==>
          after == if block then before + {mac} else if c.nft.deleteFails then before else before - {mac})
    && (!answer.ok ==>
          after == before && Refused(c, answer, if block then "nft block failed" else "nft unblock failed"))
  }

  ghost predicate TellsStatus(c: Command, blocked: set<string>, answer: Answer) {
    && (answer.ok <==> !c.nft.queryFails && exists mac :: Names(c, mac))
    && (forall mac :: answer.ok && Names(c, mac) ==> answer.detail == Flag(mac in blocked))
    && (!answer.ok ==> Refused(c, answer, "lookup failed"))
  }

  ghost predicate TellsAnswer(c: Command, before: set<string>, after: set<string>, answer: Answer) {
    if c.action == "block" || c.action == "unblock" then TellsChange(c, before, after, answer)
    else
      && after == before
      && if c.action == "status" then TellsStatus(c, before, answer)
         else if c.action == "list" then answer == Answer(true, List(Scan.Listed(c.nft.listing)))
         else if c.action == "ping" then answer == Answer(true, Pong)
         else answer == Answer(false, Error("unknown action"))
  }

  /** The reply carries the request's name and action, and tells what became of it. */
  ghost predicate Tells(c: Command, before: set<string>, after: set<string>, r: Reply) {
    Some(r.reqId) == c.payload.reqId && r.action == c.action && TellsAnswer(c, before, after, r.answer)
  }

  lemma AnswerTells(c: Command, blocked: set<string>)
    ensures TellsAnswer(c, blocked, Effect(c, blocked), AnswerTo(c, blocked))
  {
    forall mac
      ensures Names(c, mac) <==> Normal(c) == Some(mac)
    {
    }
    if Normal(c).Some? {
      assert Names(c, Normal(c).value);
    }
  }

  /** A command that asks for a reply gets one, and no other gets any. */
  lemma ReplyTells(c: Command, blocked: set<string>)
    ensures var rs := Replies(c, AnswerTo(c, blocked));
            if Asks(c) then |rs| == 1 && Tells(c, blocked, Effect(c, blocked), rs[0]) else rs == []
  {
    AnswerTells(c, blocked);
  }

  /** A message that asks for a reply is answered with one that tells what became of it. */
  lemma MessageTells(topic: string, id: string, payload: Option<Payload>, nft: Nft, blocked: set<string>)
    requires AsksFor(topic, id, payload)
    ensures var c := Command(topic[|Prefix(id)|..], payload.value, nft);
            var rs := RepliesTo(topic, id, payload, nft, blocked);
            |rs| == 1 && Tells(c, blocked, Effect(c, blocked), rs[0])
  {
    var prefix := Prefix(id);
    var c := Command(topic[|prefix|..], payload.value, nft);
    assert topic == prefix + c.action;
    assert c.action != "";
    assert topic == prefix + "list" ==> c.action == "list" by {
      assert (prefix + "list")[|prefix|..] == "list";
    }
    ReplyTells(c, blocked);
  }

  // ----- Runs

  /** The places, in order, of the commands that ask for a reply. */
  ghost predicate Askers(cs: seq<Command>, ps: seq<nat>) {
    && (forall k, l :: 0 <= k < l < |ps| ==> ps[k] < ps[l])
    && (forall k :: 0 <= k < |ps| ==> ps[k] < |cs|)
    && (forall i :: 0 <= i < |cs| ==> (Asks(cs[i]) <==> i in ps))
  }

  /** What the reply to command `p` of a run is to tell. */
  ghost predicate TellsOf(cs: seq<Command>, blocked: set<string>, p: nat, r: Reply) {
    p < |cs| && Tells(cs[p], After(cs[..p], blocked), After(cs[..p + 1], blocked), r)
  }

  /** The replies sent in a run are, in order, those to the commands that ask for one. */
  ghost predicate InOrder(cs: seq<Command>, blocked: set<string>, rs: seq<Reply>, ps: seq<nat>) {
    Askers(cs, ps) && |ps| == |rs| && forall k :: 0 <= k < |ps| ==> TellsOf(cs, blocked, ps[k], rs[k])
  }

  lemma PrefixesStay(front: seq<Command>, c: Command, n: nat)
    requires n <= |front|
    ensures (front + [c])[..n] == front[..n]
  {
  }

  lemma TellsStay(front: seq<Command>, c: Command, blocked: set<string>, p: nat, r: Reply)
    requires TellsOf(front, blocked, p, r)
    ensures TellsOf(front + [c], blocked, p, r)
  {
    PrefixesStay(front, c, p);
    PrefixesStay(front, c, p + 1);
  }

  lemma TellsLast(front: seq<Command>, c: Command, blocked: set<string>, r: Reply)
    requires Tells(c, After(front, blocked), After(front + [c], blocked), r)
    ensures TellsOf(front + [c], blocked, |front|, r)
  {
    var cs := front + [c];
    assert cs[..|front|] == front && cs[..|front| + 1] == cs;
  }

  lemma AskersSkip(front: seq<Command>, c: Command, ps: seq<nat>)
    requires Askers(front, ps) && !Asks(c)
    ensures Askers(front + [c], ps)
  {
    assert |front| !in ps;
  }

  lemma AskersAdd(front: seq<Command>, c: Command, ps: seq<nat>)
    requires Askers(front, ps) && Asks(c)
    ensures Askers(front + [c], ps + [|front|])
  {
    var n := |front|;
    assert (ps + [n])[|ps|] == n;
    assert forall i :: i in ps + [n] <==> i in ps || i == n;
  }

  lemma InOrderSkips(front: seq<Command>, c: Command, blocked: set<string>, rs: seq<Reply>, ps: seq<nat>)
    requires InOrder(front, blocked, rs, ps) && !Asks(c)
    ensures InOrder(front + [c], blocked, rs, ps)
  {
    AskersSkip(front, c, ps);
    forall k | 0 <= k < |ps|
      ensures TellsOf(front + [c], blocked, ps[k], rs[k])
    {
      TellsStay(front, c, blocked, ps[k], rs[k]);
    }
  }

  lemma InOrderAdds(front: seq<Command>, c: Command, blocked: set<string>, rs: seq<Reply>, ps: seq<nat>, r: Reply)
    requires InOrder(front, blocked, rs, ps) && Asks(c)
    requires Tells(c, After(front, blocked), After(front + [c], blocked), r)
    ensures InOrder(front + [c], blocked, rs + [r], ps + [|front|])
  {
    var qs := ps + [|front|];
    AskersAdd(front, c, ps);
    TellsLast(front, c, blocked, r);
    forall k | 0 <= k < |qs|
      ensures TellsOf(front + [c], blocked, qs[k], (rs + [r])[k])
    {
      if k < |ps| {
        TellsStay(front, c, blocked, ps[k], rs[k]);
      }
    }
  }

  lemma {:induction false} RepliesInOrder(cs: seq<Command>, blocked: set<string>) returns (ps: seq<nat>)
    ensures InOrder(cs, blocked, RepliesDuring(cs, blocked), ps)
  {
    if cs == [] {
      ps := [];
    } else {
      var front, c := cs[..|cs| - 1], cs[|cs| - 1];
      assert cs == front + [c];
      ps := RepliesInOrder(front, blocked);
      RepliesNext(front, c, blocked);
      if Asks(c) {
        InOrderAdds(front, c, blocked, RepliesDuring(front, blocked), ps, RepliesDuring(cs, blocked)[|ps|]);
        ps := ps + [|front|];
      } else {
        InOrderSkips(front, c, blocked, RepliesDuring(front, blocked), ps);
      }
    }
  }

  /** One command more sends one reply more, if it asks for it. */
  lemma RepliesNext(front: seq<Command>, c: Command, blocked: set<string>)
    ensures var (rs, all) := (RepliesDuring(front, blocked), RepliesDuring(front + [c], blocked));
            if Asks(c) then
              |all| == |rs| + 1 && all == rs + [all[|rs|]]
              && Tells(c, After(front, blocked), After(front + [c], blocked), all[|rs|])
            else all == rs
  {
    assert (front + [c])[..|front|] == front;
    ReplyTells(c, After(front, blocked));
  }

  // ----- What the replies to blocks and unblocks say about the set

  /** The reply confirms a block or unblock of the MAC. */
  predicate Confirms(r: Reply, mac: string) {
    r.answer.ok && (r.action == "block" || r.action == "unblock") && r.answer.detail.Address?
    && Mac.Normalize(r.answer.detail.mac) == Some(mac)
  }

  /** The state of a MAC in the last reply that confirms a block or unblock of it. */
  function LastConfirmed(rs: seq<Reply>, mac: string): Option<bool> {
    if rs == [] then None
    else
      var r := rs[|rs| - 1];
      if Confirms(r, mac) then Some(r.action == "block") else LastConfirmed(rs[..|rs| - 1], mac)
  }

  /** What the replies say of a MAC. */
  predicate Said(rs: seq<Reply>, blocked: set<string>, mac: string) {
    match LastConfirmed(rs, mac)
    case None => mac in blocked
    case Some(wanted) => wanted
  }

  /** Every block and unblock asks for a reply. */
  ghost predicate AllAsk(cs: seq<Command>) {
    forall i :: 0 <= i < |cs| && (cs[i].action == "block" || cs[i].action == "unblock") ==> Asks(cs[i])
  }

  lemma LastConfirmedNext(rs: seq<Reply>, r: Reply, mac: string)
    ensures LastConfirmed(rs + [r], mac) ==
            if Confirms(r, mac) then Some(r.action == "block") else LastConfirmed(rs, mac)
  {
    assert (rs + [r])[..|rs|] == rs;
  }

  lemma ConfirmsIffGranted(c: Command, before: set<string>, after: set<string>, r: Reply, mac: string)
    requires Tells(c, before, after, r)
    ensures Confirms(r, mac) <==> Granted(c, before) == Some((mac, r.action == "block"))
  {
    assert Names(c, mac) <==> Normal(c) == Some(mac);
    if Normal(c).Some? {
      assert Names(c, Normal(c).value);
    }
    AnswerTells(c, before);
  }

  lemma LastGrantNext(front: seq<Command>, c: Command, blocked: set<string>, mac: string)
    ensures LastGrant(front + [c], blocked, mac) ==
            match Granted(c, After(front, blocked))
            case Some((m, wanted)) => if m == mac then Some(wanted) else LastGrant(front, blocked, mac)
            case None => LastGrant(front, blocked, mac)
  {
    assert (front + [c])[..|front|] == front;
  }

  lemma {:induction false} ConfirmedIsGranted(cs: seq<Command>, blocked: set<string>, mac: string)
    requires AllAsk(cs)
    ensures LastConfirmed(RepliesDuring(cs, blocked), mac) == LastGrant(cs, blocked, mac)
  {
    if cs == [] {
    } else {
      var front, c := cs[..|cs| - 1], cs[|cs| - 1];
      assert cs == front + [c];
      ConfirmedIsGranted(front, blocked, mac);
      RepliesNext(front, c, blocked);
      LastGrantNext(front, c, blocked, mac);
      if Asks(c) {
        var rs := RepliesDuring(front, blocked);
        var r := RepliesDuring(cs, blocked)[|rs|];
        LastConfirmedNext(rs, r, mac);
        ConfirmsIffGranted(c, After(front, blocked), After(cs, blocked), r, mac);
      }
    }
  }

  /** The set is what the replies say, throughout the run. */
  ghost predicate RepliesRule(cs: seq<Command>, blocked: set<string>) {
    forall n, mac :: 0 <= n <= |cs| ==>
      (mac in After(cs[..n], blocked) <==> Said(RepliesDuring(cs[..n], blocked), blocked, mac))
  }

  /** If every block and unblock asks for a reply, the replies alone tell the set throughout the run
      exactly if no delete of an element that is present fails. */
  lemma RepliesRuleIff(cs: seq<Command>, blocked: set<string>)
    requires AllAsk(cs)
    ensures RepliesRule(cs, blocked) <==> Reliable(cs, blocked)
  {
    AnswersRuleIff(cs, blocked);
    forall n, mac | 0 <= n <= |cs|
      ensures Said(RepliesDuring(cs[..n], blocked), blocked, mac) == Told(cs[..n], blocked, mac)
    {
      ConfirmedIsGranted(cs[..n], blocked, mac);
    }
    if AnswersRuleThroughout(cs, blocked) {
      forall n, mac | 0 <= n <= |cs|
        ensures mac in After(cs[..n], blocked) <==> Said(RepliesDuring(cs[..n], blocked), blocked, mac)
      {
        assert AnswersRule(cs[..n], blocked);
      }
    }
    if RepliesRule(cs, blocked) {
      forall n | 0 <= n <= |cs|
        ensures AnswersRule(cs[..n], blocked)
      {
        assert forall mac :: mac in After(cs[..n], blocked) <==> Told(cs[..n], blocked, mac);
      }
    }
  }

  /** After such a run, the reply to a `status` for any spelling of a MAC, and the reply to a `list`
      whose output was whole, say what the replies before said. */
  lemma ReportsTell(cs: seq<Command>, blocked: set<string>, c: Command, mac: string)
    requires AllAsk(cs) && Reliable(cs, blocked) && Asks(c)
    ensures var (rs, all) := (RepliesDuring(cs, blocked), RepliesDuring(cs + [c], blocked));
            && |all| == |rs| + 1 && rs <= all
            && var r := all[|rs|];
            && r.reqId == c.payload.reqId.value && r.action == c.action
            && (c.action == "status" && Names(c, mac) && !c.nft.queryFails ==>
                  r.answer == Answer(true, Flag(Said(rs, blocked, mac))))
            && (c.action == "list" && ListsWhole(c, After(cs, blocked)) ==>
                  r.answer.ok && r.answer.detail.List? && (mac in r.answer.detail.macs <==> Said(rs, blocked, mac)))
  {
    assert (cs + [c])[..|cs|] == cs;
    ConfirmedIsGranted(cs, blocked, mac);
    ReportsAgree(cs, blocked, c);
    ReplyTells(c, After(cs, blocked));
    assert Told(cs, blocked, mac) == Said(RepliesDuring(cs, blocked), blocked, mac);
    assert Names(c, mac) ==> Normal(c) == Some(mac);
  }

  /** The handler object: what it sends in a run of messages is one reply, in order, for each command
      that asks, and if every block and unblock asks, its set is what these replies say. */
  method RunAndTell(h: Handler, ms: seq<Incoming>)
    requires h.leases != null ==> h.leases.Valid()
    modifies h`blocked, h`replies, h.Frame()
    ensures old(h.replies) <= h.replies
    ensures exists ps ::
              InOrder(CommandsIn(h.id, ms), old(h.blocked), h.replies[|old(h.replies)|..], ps)
    ensures AllAsk(CommandsIn(h.id, ms)) && Reliable(CommandsIn(h.id, ms), old(h.blocked)) ==>
              forall mac :: mac in h.blocked <==> Said(h.replies[|old(h.replies)|..], old(h.blocked), mac)
  {
    ghost var cs, was, sent := CommandsIn(h.id, ms), h.blocked, h.replies;
    h.HandleRun(ms);
    assert h.replies[|sent|..] == RepliesDuring(cs, was);
    ghost var ps := RepliesInOrder(cs, was);
    if AllAsk(cs) && Reliable(cs, was) {
      RepliesRuleIff(cs, was);
      assert cs[..|cs|] == cs;
    }
  }
}
