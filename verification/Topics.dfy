/** The MQTT topics the two programs format and take apart. */
module Topics {
  import opened Text

  const ROOT := "netparent/"
  const COMMAND := "/cmd/"

  /** `snprintf` into a buffer of `size` bytes keeps at most `size - 1` characters. */
  function Truncate(s: string, size: nat): (r: string)
    requires size > 0
    ensures r <= s && |r| == if |s| < size then |s| else size - 1
  {
    if |s| < size then s else s[..size - 1]
  }

  // ----- Commands: formatted by the web application, taken apart by the router

  /** `publishCmd`: None where it returns an error. */
  function CommandTopic(id: string, action: string): Option<string> {
    if id == "" || action == "" then None else Some(ROOT + id + COMMAND + action)
  }

  /** `parse_action` of the router `id`: None where it returns NULL. */
  function ParseAction(topic: string, id: string): Option<string> {
    var prefix := ROOT + id + COMMAND;
    var n := |prefix|;
    if n >= 128 then None
    else if !(prefix <= topic) then None
    else if topic[n..] == "" then None
    else Some(topic[n..])
  }

  /** The router recovers the action exactly if its id leaves room in the prefix buffer. */
  lemma ActionRecoveredIff(id: string, action: string)
    requires id != "" && action != ""
    ensures ParseAction(CommandTopic(id, action).value, id) == Some(action) <==> |id| <= 112
    ensures |id| > 112 ==> forall topic :: ParseAction(topic, id) == None
  {
    var prefix := ROOT + id + COMMAND;
    assert (prefix + action)[|prefix|..] == action;
  }

  // ----- Announcements: formatted by the router, taken apart by the web application

  function DevicesTopic(id: string): string {
    Truncate(ROOT + id + "/devices", 128)
  }

  function EventTopic(id: string): string {
    Truncate(ROOT + id + "/event/device", 160)
  }

  function StatusTopic(id: string): string {
    ROOT + id + "/" + "status"
  }

  function ResponseTopic(id: string, reqId: string): string {
    ROOT + id + "/response/" + reqId
  }

  /** `mosquitto_publish` refuses a topic with a wildcard in it. */
  predicate Accepted(topic: string) {
    '+' !in topic && '#' !in topic
  }

  /** `strings.Split(s, "/")` */
  function Split(s: string): (parts: seq<string>)
    ensures |parts| > 0
  {
    if s == "" then [""]
    else if s[0] == '/' then [""] + Split(s[1..])
    else
      var rest := Split(s[1..]);
      [[s[0]] + rest[0]] + rest[1..]
  }

  /** `routerIDFromTopic` */
  function RouterId(topic: string): string {
    var parts := Split(topic);
    if |parts| < 2 || parts[0] != "netparent" then "" else parts[1]
  }

  lemma {:induction false} SplitPlain(s: string)
    requires '/' !in s
    ensures Split(s) == [s]
  {
    if s == "" {
    } else {
      SplitPlain(s[1..]);
      assert [s[0]] + s[1..] == s;
    }
  }

  lemma {:induction false} SplitFirst(a: string, b: string)
    requires '/' !in a
    ensures Split(a + "/" + b) == [a] + Split(b)
  {
    var s := a + "/" + b;
    if a == "" {
      assert s[1..] == b;
    } else {
      SplitFirst(a[1..], b);
      assert s[1..] == a[1..] + "/" + b && [a[0]] + a[1..] == a;
    }
  }

  lemma Regroup(a: string, b: string, c: string, d: string)
    ensures a + b + c + d == a + (b + c + d)
  {
  }

  lemma SplitRooted(id: string, rest: string)
    requires '/' !in id
    ensures Split(ROOT + id + "/" + rest) == ["netparent"] + ([id] + Split(rest))
  {
    SplitFirst(id, rest);
    SplitFirst("netparent", id + "/" + rest);
    Regroup("netparent" + "/", id, "/", rest);
    assert ROOT == "netparent" + "/";
  }

  lemma SameLevel(id: string, other: string, x: string, y: string)
    requires '/' !in id && '/' !in other && ROOT + id + "/" + x == ROOT + other + "/" + y
    ensures id == other
  {
    SplitRooted(id, x);
    SplitRooted(other, y);
    assert Split(ROOT + id + "/" + x)[1] == id && Split(ROOT + other + "/" + y)[1] == other;
  }

  lemma CommandLevels(id: string, action: string)
    ensures ROOT + id + COMMAND + action == ROOT + id + "/" + ("cmd/" + action)
  {
    assert COMMAND == "/" + "cmd/";
    Regroup(ROOT + id, "/", "cmd/", action);
    assert ROOT + id + COMMAND == ROOT + id + "/" + "cmd/";
  }

  /** A command for one router is never taken by another. */
  lemma NoForeignCommand(id: string, other: string, action: string)
    requires '/' !in id && '/' !in other && id != "" && action != ""
    requires ParseAction(CommandTopic(id, action).value, other).Some?
    ensures id == other
  {
    var topic, prefix := ROOT + id + COMMAND + action, ROOT + other + COMMAND;
    var rest := topic[|prefix|..];
    assert topic == prefix + rest;
    CommandLevels(id, action);
    CommandLevels(other, rest);
    SameLevel(id, other, "cmd/" + action, "cmd/" + rest);
  }

  /** The topic "netparent/<id><tail>" cut to `size`, taken apart. */
  lemma SplitTruncated(id: string, tail: string, size: nat)
    requires '/' !in id && |tail| > 0 && tail[0] == '/' && size > |ROOT|
    ensures var topic, room := Truncate(ROOT + id + tail, size), size - 1 - |ROOT|;
            && RouterId(topic) == (if |id| <= room then id else id[..room])
            && Split(topic) == ["netparent"] +
               if |id| < room then [id] + Split(Truncate(tail, size - |ROOT| - |id|)[1..])
               else [RouterId(topic)]
  {
    var topic, room := Truncate(ROOT + id + tail, size), size - 1 - |ROOT|;
    var shown := if |id| <= room then id else id[..room];
    var rest := if |id| < room then Truncate(tail, size - |ROOT| - |id|)[1..] else "";
    assert '/' !in "netparent";
    assert ROOT == "netparent" + "/";
    if |id| < room {
      assert topic == "netparent" + "/" + (id + "/" + rest);
      SplitFirst("netparent", id + "/" + rest);
      SplitFirst(id, rest);
    } else {
      assert topic == "netparent" + "/" + shown;
      SplitFirst("netparent", shown);
      SplitPlain(shown);
    }
  }

  /** The web application recovers the router's id from its topics exactly up to these lengths. */
  lemma RouterIdRecoveredIff(id: string)
    requires '/' !in id
    ensures RouterId(DevicesTopic(id)) == id <==> |id| <= 117
    ensures RouterId(EventTopic(id)) == id <==> |id| <= 149
  {
    SplitTruncated(id, "/devices", 128);
    SplitTruncated(id, "/event/device", 160);
  }

  /** The topics of which the second level is that id. */
  ghost predicate SecondLevel(topic: string, id: string) {
    '/' !in id && (topic == ROOT + id || exists rest: string :: topic == ROOT + id + "/" + rest)
  }

  lemma SecondLevelIsRead(topic: string, id: string)
    requires SecondLevel(topic, id)
    ensures RouterId(topic) == id
  {
    if topic == ROOT + id {
      assert ROOT + id == "netparent" + "/" + id;
      SplitFirst("netparent", id);
      SplitPlain(id);
    } else {
      var rest: string :| topic == ROOT + id + "/" + rest;
      SplitRooted(id, rest);
    }
  }

  lemma ReadIsSecondLevel(topic: string, id: string)
    requires RouterId(topic) == id && id != ""
    ensures SecondLevel(topic, id)
  {
    var tail := SplitHead(topic);
    var rest := SplitHead(tail);
    assert topic == "netparent" + "/" + tail && Split(tail)[0] == id;
    if |Split(tail)| == 1 {
      assert topic == ROOT + id;
    } else {
      Regroup(ROOT, id, "/", rest);
      assert topic == ROOT + id + "/" + rest;
    }
  }

  /** The web application reads an id from the topics "netparent/<id>" and "netparent/<id>/..." and
      from no others. */
  lemma RouterIdMeans(topic: string, id: string)
    requires id != ""
    ensures RouterId(topic) == id <==>
            '/' !in id && (topic == ROOT + id || exists rest: string :: topic == ROOT + id + "/" + rest)
  {
    if SecondLevel(topic, id) {
      SecondLevelIsRead(topic, id);
    }
    if RouterId(topic) == id {
      ReadIsSecondLevel(topic, id);
    }
  }

  /** The first level, and what follows its slash, if there is one. */
  lemma {:induction false} SplitHead(s: string) returns (rest: string)
    ensures '/' !in Split(s)[0]
    ensures |Split(s)| == 1 ==> s == Split(s)[0]
    ensures |Split(s)| > 1 ==> s == Split(s)[0] + "/" + rest && Split(s)[1..] == Split(rest)
  {
    if s == "" {
      rest := "";
    } else if s[0] == '/' {
      rest := s[1..];
      assert s == "" + "/" + rest;
    } else {
      rest := SplitHead(s[1..]);
      assert s == [s[0]] + s[1..];
    }
  }

  /** `topic` matches the subscription whose levels are "netparent", any one, and `last`. */
  predicate Subscribed(topic: string, last: seq<string>) {
    var parts := Split(topic);
    |parts| == 2 + |last| && parts[0] == "netparent" && parts[2..] == last
  }

  lemma CutLevelMatches(level: string, n: nat)
    requires '/' !in level && n <= |level|
    ensures |Split(level[..n])| == 1
    ensures Split(level[..n]) == [level] <==> n == |level|
  {
    var cut := level[..n];
    SplitPlain(cut);
    assert [cut] == [level] <==> cut == level;
    assert |cut| == n;
  }

  lemma SplitCutTwo(a: string, b: string, n: nat)
    requires '/' !in a && '/' !in b && n <= |a| + 1 + |b|
    ensures Split((a + "/" + b)[..n]) == if n <= |a| then [a[..n]] else [a, b[..n - |a| - 1]]
  {
    var s := (a + "/" + b)[..n];
    if n <= |a| {
      assert s == a[..n];
      SplitPlain(s);
    } else {
      var x := b[..n - |a| - 1];
      assert s == a + "/" + x;
      SplitFirst(a, x);
      SplitPlain(x);
    }
  }

  /** Two levels, cut to `n` characters, are these two levels only if nothing was cut. */
  lemma CutTwoMatch(a: string, b: string, n: nat)
    requires '/' !in a && '/' !in b && n <= |a| + 1 + |b|
    ensures Split((a + "/" + b)[..n]) == [a, b] <==> n == |a| + 1 + |b|
  {
    SplitCutTwo(a, b, n);
    if n > |a| {
      var x := b[..n - |a| - 1];
      assert x == b <==> |x| == |b|;
      assert [a, x] == [a, b] <==> x == b;
    } else {
      assert |[a[..n]]| != |[a, b]|;
    }
  }

  lemma DropTwo(id: string, rest: seq<string>)
    ensures (["netparent"] + ([id] + rest))[2..] == rest
  {
  }

  lemma OneLevelSubscribedIff(id: string, level: string, size: nat)
    requires '/' !in id && '/' !in level && size > |ROOT|
    ensures Subscribed(Truncate(ROOT + id + ("/" + level), size), [level]) <==> |ROOT| + |id| + |level| + 1 < size
  {
    var tail := "/" + level;
    SplitTruncated(id, tail, size);
    if |id| < size - 1 - |ROOT| {
      var rest := Truncate(tail, size - |ROOT| - |id|)[1..];
      assert rest == level[..|rest|];
      CutLevelMatches(level, |rest|);
      DropTwo(id, Split(rest));
    }
  }

  lemma DevicesTail()
    ensures "/devices" == "/" + "devices"
  {
  }

  /** The snapshot topic reaches the web application's subscription exactly for ids of at most
      109 characters; for the ids beyond that the buffer cuts the topic's last level. */
  lemma SnapshotSubscribedIff(id: string)
    requires '/' !in id
    ensures Subscribed(DevicesTopic(id), ["devices"]) <==> |id| <= 109
  {
    DevicesTail();
    OneLevelSubscribedIff(id, "devices", 128);
  }

  lemma TwoLevelsSubscribedIff(id: string, a: string, b: string, size: nat)
    requires '/' !in id && '/' !in a && '/' !in b && size > |ROOT|
    ensures Subscribed(Truncate(ROOT + id + ("/" + (a + "/" + b)), size), [a, b]) <==>
            |ROOT| + |id| + |a| + |b| + 2 < size
  {
    var tail := "/" + (a + "/" + b);
    SplitTruncated(id, tail, size);
    if |id| < size - 1 - |ROOT| {
      var rest := Truncate(tail, size - |ROOT| - |id|)[1..];
      assert rest == (a + "/" + b)[..|rest|];
      CutTwoMatch(a, b, |rest|);
      DropTwo(id, Split(rest));
    }
  }

  lemma EventTail()
    ensures "/event/device" == "/" + ("event" + "/" + "device")
  {
  }

  /** The event topic reaches its subscription exactly for ids of at most 136 characters. */
  lemma EventSubscribedIff(id: string)
    requires '/' !in id
    ensures Subscribed(EventTopic(id), ["event", "device"]) <==> |id| <= 136
  {
    EventTail();
    TwoLevelsSubscribedIff(id, "event", "device", 160);
  }

  /** The status topic is not cut: it reaches its subscription whatever the length of the id. */
  lemma StatusArrives(id: string)
    requires '/' !in id
    ensures Subscribed(StatusTopic(id), ["status"]) && RouterId(StatusTopic(id)) == id
  {
    SplitRooted(id, "status");
    SplitPlain("status");
    DropTwo(id, ["status"]);
  }

  lemma AcceptedCut(id: string, tail: string, size: nat)
    requires |ROOT| + |id| < size && Accepted(tail)
    ensures Accepted(Truncate(ROOT + id + tail, size)) <==> Accepted(id)
  {
    var topic := Truncate(ROOT + id + tail, size);
    assert topic == ROOT + id + tail[..|topic| - |ROOT| - |id|];
    assert Accepted(ROOT);
  }

  /** Unless the end of the id is cut off, its wildcards are those of its topics. */
  lemma AcceptedIffId(id: string)
    ensures Accepted(StatusTopic(id)) <==> Accepted(id)
    ensures |id| <= 117 ==> (Accepted(DevicesTopic(id)) <==> Accepted(id))
    ensures |id| <= 149 ==> (Accepted(EventTopic(id)) <==> Accepted(id))
  {
    if |id| <= 117 {
      AcceptedCut(id, "/devices", 128);
    }
    if |id| <= 149 {
      AcceptedCut(id, "/event/device", 160);
    }
  }

  /** The response topic is not cut. */
  lemma ResponseAcceptedIff(id: string, reqId: string)
    ensures ResponseTopic(id, reqId) == "netparent/" + id + "/response/" + reqId
    ensures Accepted(ResponseTopic(id, reqId)) <==> Accepted(id) && Accepted(reqId)
  {
    assert Accepted(ROOT) && Accepted("/response/");
  }
}
