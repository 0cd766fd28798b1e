/** The MAC recogniser and printer of the router (`np_mac_normalize`), against the
    grammar it accepts and the canonical form it prints. */
module Mac {
  import opened Text

  // ----- Addresses and their canonical text

  predicate IsAddress(a: seq<int>) {
    |a| == 6 && forall i :: 0 <= i < 6 ==> 0 <= a[i] < 256
  }

  type Address = a: seq<int> | IsAddress(a) witness [0, 0, 0, 0, 0, 0]

  function High(b: int): char
    requires 0 <= b < 256
  {
    HexDigit(b / 16)
  }

  function Low(b: int): char
    requires 0 <= b < 256
  {
    HexDigit(b % 16)
  }

  /** Six zero-padded lower-case pairs joined by colons. */
  function Canonical(a: Address): (s: string)
    ensures |s| == 17
  {
    seq(17, j requires 0 <= j < 17 =>
      if j % 3 == 0 then High(a[j / 3]) else if j % 3 == 1 then Low(a[j / 3]) else ':')
  }

  /** The 48-bit number an address denotes, most significant byte first. */
  function Number(a: Address): int {
    ((((a[0] * 256 + a[1]) * 256 + a[2]) * 256 + a[3]) * 256 + a[4]) * 256 + a[5]
  }

  // ----- The grammar: the language accepted, without reference to the automaton

  predicate IsSeparator(c: char) {
    c == ':' || c == '-'
  }

  predicate IsGroup(g: string) {
    1 <= |g| <= 2 && forall i :: 0 <= i < |g| ==> IsHex(g[i])
  }

  function Strip(s: string): string {
    if s == "" then ""
    else
      var front, c := s[..|s| - 1], s[|s| - 1];
      if IsSpace(c) then Strip(front) else Strip(front) + [c]
  }

  /** Each group followed by its separator; the last one need not have one. */
  function Weave(groups: seq<string>, separators: string): string
    requires |separators| == |groups| || |separators| + 1 == |groups|
  {
    if groups == [] then ""
    else
      var n := |groups| - 1;
      Weave(groups[..n], separators[..n]) + groups[n] + separators[n..]
  }

  ghost predicate WellFormed(groups: seq<string>, separators: string) {
    && (|separators| == |groups| || |separators| + 1 == |groups|)
    && (forall i :: 0 <= i < |groups| ==> IsGroup(groups[i]))
    && (forall i :: 0 <= i < |separators| ==> IsSeparator(separators[i]))
  }

  function GroupValue(g: string): (v: int)
    requires IsGroup(g)
    ensures 0 <= v < 256
  {
    if |g| == 1 then HexValue(g[0]) else HexValue(g[0]) * 16 + HexValue(g[1])
  }

  function Values(groups: seq<string>): (a: Address)
    requires |groups| == 6 && forall i :: 0 <= i < 6 ==> IsGroup(groups[i])
  {
    seq(6, k requires 0 <= k < 6 => GroupValue(groups[k]))
  }

  /** `s` is a spelling of `a`: white space aside, six groups of one or two hexadecimal
      digits, separated by ':' or '-', with at most one trailing separator. */
  ghost predicate Spells(s: string, a: Address) {
    exists groups, separators :: SpellsBy(s, a, groups, separators)
  }

  ghost predicate SpellsBy(s: string, a: Address, groups: seq<string>, separators: string) {
    && |groups| == 6
    && WellFormed(groups, separators)
    && Strip(s) == Weave(groups, separators)
    && a == Values(groups)
  }

  // ----- The automaton the code runs

  datatype Recogniser = Reject | Reading(groups: seq<string>, current: string)

  function Feed(st: Recogniser, c: char): Recogniser {
    if st.Reject? then Reject
    else if IsHex(c) then
      if |st.current| >= 2 then Reject else Reading(st.groups, st.current + [c])
    else if IsSeparator(c) then
      if st.current == "" || |st.groups| >= 6 then Reject
      else Reading(st.groups + [st.current], "")
    else if IsSpace(c) then st
    else Reject
  }

  predicate Sound(st: Recogniser) {
    st.Reading? ==>
      && |st.groups| <= 6
      && (forall i :: 0 <= i < |st.groups| ==> IsGroup(st.groups[i]))
      && (st.current == "" || IsGroup(st.current))
  }

  function Run(s: string): (st: Recogniser)
    ensures Sound(st)
  {
    if s == "" then Reading([], "") else Feed(Run(s[..|s| - 1]), s[|s| - 1])
  }

  /** The verdict at the end of the input, and the address read. */
  function Verdict(st: Recogniser): Option<Address>
    requires Sound(st)
  {
    if st.Reject? then None
    else if st.current == "" then
      if |st.groups| == 6 then Some(Values(st.groups)) else None
    else if |st.groups| == 5 then Some(Values(st.groups + [st.current])) else None
  }

  /** The verdict of the code on a string, and the address it prints on success. */
  function Parse(s: string): Option<Address> {
    Verdict(Run(s))
  }

  /** What `np_mac_normalize` writes, or None where it returns false. */
  function Normalize(s: string): Option<string> {
    match Parse(s)
    case None => None
    case Some(a) => Some(Canonical(a))
  }

  // ----- The automaton accepts exactly the grammar

  lemma {:induction false} RejectIsFinal(s: string, k: nat)
    requires k <= |s| && Run(s[..k]).Reject?
    ensures Run(s).Reject?
    decreases |s| - k
  {
    if k == |s| {
      assert s[..k] == s;
    } else {
      assert s[..k + 1][..k] == s[..k];
      RejectIsFinal(s, k + 1);
    }
  }

  lemma {:induction false} RunIgnoresSpace(s: string)
    ensures Run(s) == Run(Strip(s))
  {
    if s == "" {
    } else {
      var front, c := s[..|s| - 1], s[|s| - 1];
      RunIgnoresSpace(front);
      if !IsSpace(c) {
        assert Strip(s)[..|Strip(s)| - 1] == Strip(front);
      }
    }
  }

  lemma WeaveAppend(groups: seq<string>, separators: string, g: string, last: string)
    requires |separators| == |groups| && |last| <= 1
    ensures Weave(groups + [g], separators + last) == Weave(groups, separators) + g + last
  {
    var n := |groups|;
    assert (groups + [g])[..n] == groups && (separators + last)[..n] == separators;
  }

  /** Everything consumed so far is accounted for by the groups read. */
  /** The text read so far, white space aside, is the groups with these separators and the group
      being read. */
  ghost predicate HasRead(s: string, st: Recogniser, separators: string)
    requires st.Reading?
  {
    && |separators| == |st.groups|
    && WellFormed(st.groups, separators)
    && Strip(s) == Weave(st.groups, separators) + st.current
  }

  lemma ReadsSeparator(front: string, c: char, st: Recogniser, before: string)
    requires st.Reading? && Sound(st) && HasRead(front, st, before) && IsSeparator(c) && Feed(st, c).Reading?
    ensures HasRead(front + [c], Feed(st, c), before + [c])
  {
    assert (front + [c])[..|front|] == front;
    WeaveAppend(st.groups, before, st.current, [c]);
  }

  lemma ReadsOther(front: string, c: char, st: Recogniser, before: string)
    requires st.Reading? && HasRead(front, st, before) && !IsSeparator(c) && Feed(st, c).Reading?
    ensures HasRead(front + [c], Feed(st, c), before)
  {
    assert (front + [c])[..|front|] == front;
    assert Weave(st.groups, before) + (st.current + [c]) == Weave(st.groups, before) + st.current + [c];
  }

  lemma {:induction false} RunReadsGroups(s: string) returns (separators: string)
    requires Run(s).Reading?
    ensures HasRead(s, Run(s), separators)
  {
    if s == "" {
      separators := "";
    } else {
      var front, c := s[..|s| - 1], s[|s| - 1];
      assert s == front + [c];
      separators := RunReadsGroups(front);
      if IsSeparator(c) {
        ReadsSeparator(front, c, Run(front), separators);
        separators := separators + [c];
      } else {
        ReadsOther(front, c, Run(front), separators);
      }
    }
  }

  lemma RunAppend(s: string, c: char)
    ensures Run(s + [c]) == Feed(Run(s), c)
  {
    assert (s + [c])[..|s|] == s;
  }

  /** A well-formed text drives the automaton through exactly its own groups. */
  lemma {:induction false} RunOfWeave(groups: seq<string>, separators: string)
    requires |groups| <= 6 && |separators| == |groups| && WellFormed(groups, separators)
    ensures Run(Weave(groups, separators)) == Reading(groups, "")
  {
    if groups == [] {
    } else {
      var n := |groups| - 1;
      RunOfWeave(groups[..n], separators[..n]);
      RunOfPart(Weave(groups[..n], separators[..n]), groups[..n], groups[n], separators[n]);
      assert groups[..n] + [groups[n]] == groups;
      assert separators[n..] == [separators[n]];
    }
  }

  lemma RunOfSeparator(w: string, groups: seq<string>, g: string, c: char)
    requires Run(w) == Reading(groups, g) && g != "" && |groups| < 6 && IsSeparator(c)
    ensures Run(w + [c]) == Reading(groups + [g], "")
  {
    RunAppend(w, c);
  }

  lemma RunOfPart(w: string, groups: seq<string>, g: string, c: char)
    requires Run(w) == Reading(groups, "") && IsGroup(g) && |groups| < 6 && IsSeparator(c)
    ensures Run(w + g + [c]) == Reading(groups + [g], "")
  {
    RunOfGroup(w, groups, g);
    RunOfSeparator(w + g, groups, g, c);
  }

  lemma RunOfGroup(w: string, groups: seq<string>, g: string)
    requires Run(w) == Reading(groups, "") && IsGroup(g)
    ensures Run(w + g) == Reading(groups, g)
  {
    if |g| == 1 {
      RunOfDigit(w, groups, "", g[0]);
      assert "" + [g[0]] == g;
    } else {
      RunOfPair(w, groups, g);
    }
  }

  lemma RunOfPair(w: string, groups: seq<string>, g: string)
    requires Run(w) == Reading(groups, "") && IsGroup(g) && |g| == 2
    ensures Run(w + g) == Reading(groups, g)
  {
    var a, b := [g[0]], [g[1]];
    assert "" + a == a && a + b == g;
    RunOfDigit(w, groups, "", g[0]);
    RunOfDigit(w + a, groups, a, g[1]);
    assert w + g == w + a + b;
  }

  lemma RunOfDigit(w: string, groups: seq<string>, g: string, c: char)
    requires Run(w) == Reading(groups, g) && |g| < 2 && IsHex(c)
    ensures Run(w + [c]) == Reading(groups, g + [c])
  {
    RunAppend(w, c);
  }

  /** The exact language of `np_mac_normalize`, and the address it reads. */
  lemma ParseIffSpells(s: string, a: Address)
    ensures Parse(s) == Some(a) <==> Spells(s, a)
  {
    if Parse(s) == Some(a) {
      ParseSpells(s, a);
    }
    if Spells(s, a) {
      var groups, separators :| SpellsBy(s, a, groups, separators);
      RunIgnoresSpace(s);
      ParseOfWeave(groups, separators);
    }
  }

  lemma ParseOfWeave(groups: seq<string>, separators: string)
    requires |groups| == 6 && WellFormed(groups, separators)
    ensures Parse(Weave(groups, separators)) == Some(Values(groups))
  {
    if |separators| == 6 {
      RunOfWeave(groups, separators);
    } else {
      var w := Weave(groups[..5], separators[..5]);
      RunOfWeave(groups[..5], separators[..5]);
      RunOfGroup(w, groups[..5], groups[5]);
      assert w + groups[5] + separators[5..] == w + groups[5] && groups[..5] + [groups[5]] == groups;
    }
  }

  lemma ParseSpells(s: string, a: Address)
    requires Parse(s) == Some(a)
    ensures Spells(s, a)
  {
    var st := Run(s);
    var separators := RunReadsGroups(s);
    if st.current == "" {
      assert SpellsBy(s, a, st.groups, separators);
    } else {
      WeaveAppend(st.groups, separators, st.current, "");
      assert separators + "" == separators;
      assert SpellsBy(s, a, st.groups + [st.current], separators);
    }
  }

  // ----- The code itself

  /** Every group stands at its place, with its colon unless it is the sixth. */
  ghost predicate Printed(out: array<char>, groups: seq<string>)
    requires out.Length >= 18
    reads out
  {
    && |groups| <= 6
    && forall k :: 0 <= k < |groups| ==>
        && IsGroup(groups[k])
        && out[k * 3] == High(GroupValue(groups[k]))
        && out[k * 3 + 1] == Low(GroupValue(groups[k]))
        && (k < 5 ==> out[k * 3 + 2] == ':')
  }

  lemma PrintedAll(out: array<char>, groups: seq<string>)
    requires out.Length >= 18 && |groups| == 6 && Printed(out, groups)
    ensures out[..17] == Canonical(Values(groups))
  {
    forall j | 0 <= j < 17
      ensures out[j] == Canonical(Values(groups))[j]
    {
      var k := j / 3;
      assert j == k * 3 || j == k * 3 + 1 || j == k * 3 + 2;
      assert IsGroup(groups[k]);
    }
  }

  lemma GroupDigits(g: string)
    requires IsGroup(g)
    ensures High(GroupValue(g)) == if |g| == 2 then Lower(g[0]) else '0'
    ensures Low(GroupValue(g)) == Lower(g[|g| - 1])
  {
    LowerIsDigit(g[0]);
    if |g| == 2 {
      LowerIsDigit(g[1]);
      var h, l := HexValue(g[0]), HexValue(g[1]);
      assert (h * 16 + l) / 16 == h && (h * 16 + l) % 16 == l;
    }
  }

  /** Pads the digits read to a pair and writes the pair, and its colon, at its place. */
  method WriteGroup(hex: array<char>, hexcount: nat, out: array<char>, bytes: nat, colon: bool,
                    ghost groups: seq<string>, ghost g: string)
    requires hex != out && hex.Length == 2 && out.Length >= 18
    requires IsGroup(g) && hexcount == |g| && forall k :: 0 <= k < |g| ==> hex[k] == Lower(g[k])
    requires bytes == |groups| < 6 && (colon ==> bytes < 5) && Printed(out, groups)
    modifies hex, out
    ensures Printed(out, groups) && out[bytes * 3] == High(GroupValue(g)) && out[bytes * 3 + 1] == Low(GroupValue(g))
    ensures bytes < 5 ==> out[bytes * 3 + 2] == if colon then ':' else old(out[bytes * 3 + 2])
    ensures colon || bytes == 5 ==> Printed(out, groups + [g])
    ensures out[18..] == old(out[18..])
  {
    if hexcount == 1 {
      hex[1] := hex[0];
      hex[0] := '0';
    }
    assert hex[0] == High(GroupValue(g)) && hex[1] == Low(GroupValue(g)) by {
      GroupDigits(g);
    }
    out[bytes * 3] := hex[0];
    out[bytes * 3 + 1] := hex[1];
    if colon {
      out[bytes * 3 + 2] := ':';
    }
  }

  /** After the input: the last group, if it had no separator, and the count of groups. */
  method FinishInto(hex: array<char>, hexcount: nat, out: array<char>, bytes: nat, ghost st: Recogniser)
    returns (ok: bool)
    requires hex != out && hex.Length == 2 && out.Length >= 18
    requires st.Reading? && Sound(st) && bytes == |st.groups| && hexcount == |st.current|
    requires forall k :: 0 <= k < hexcount ==> hex[k] == Lower(st.current[k])
    requires Printed(out, st.groups)
    modifies hex, out
    ensures ok == Verdict(st).Some?
    ensures ok ==> out[..17] == Canonical(Verdict(st).value) && out[17] == '\0'
    ensures out[18..] == old(out[18..])
  {
    var count := bytes;
    ghost var groups := st.groups;
    if hexcount > 0 {
      if bytes >= 6 {
        return false;
      }
      WriteGroup(hex, hexcount, out, bytes, false, st.groups, st.current);
      count := bytes + 1;
      groups := st.groups + [st.current];
    }
    if count != 6 {
      return false;
    }
    out[17] := '\0';
    PrintedAll(out, groups);
    return true;
  }

  /** The variables of the loop are those of the automaton. */
  ghost predicate InStep(st: Recogniser, hex: array<char>, hexcount: nat, out: array<char>, bytes: nat)
    reads hex, out
  {
    && hex != out && hex.Length == 2 && out.Length >= 18
    && st.Reading? && Sound(st) && bytes == |st.groups| && hexcount == |st.current|
    && (forall k :: 0 <= k < hexcount ==> hex[k] == Lower(st.current[k]))
    && Printed(out, st.groups)
  }

  /** One turn of the loop; false where the code returns false. */
  method TakeChar(c: char, hex: array<char>, hexcount: nat, out: array<char>, bytes: nat, ghost st: Recogniser)
    returns (ok: bool, hexcount': nat, bytes': nat)
    requires InStep(st, hex, hexcount, out, bytes)
    modifies hex, out
    ensures ok == Feed(st, c).Reading?
    ensures ok ==> InStep(Feed(st, c), hex, hexcount', out, bytes')
    ensures out[18..] == old(out[18..])
  {
    ok, hexcount', bytes' := true, hexcount, bytes;
    if IsHex(c) {
      if hexcount >= 2 {
        return false, hexcount, bytes;
      }
      hex[hexcount] := Lower(c);
      hexcount' := hexcount + 1;
    } else if c == ':' || c == '-' {
      if hexcount == 0 || bytes >= 6 {
        return false, hexcount, bytes;
      }
      WriteGroup(hex, hexcount, out, bytes, bytes < 5, st.groups, st.current);
      bytes' := bytes + 1;
      hexcount' := 0;
    } else if !IsSpace(c) {
      ok := false;
    }
  }

  method NormalizeInto(input: string, out: array<char>) returns (ok: bool)
    requires out.Length >= 18
    modifies out
    ensures ok == Normalize(input).Some?
    ensures ok ==> out[..17] == Normalize(input).value && out[17] == '\0'
    ensures out[18..] == old(out[18..])
  {
    var bytes, hexcount := 0, 0;
    var hex := new char[2];
    for p := 0 to |input|
      invariant fresh(hex) && InStep(Run(input[..p]), hex, hexcount, out, bytes)
      invariant out[18..] == old(out[18..])
    {
      assert input[..p + 1][..p] == input[..p];
      ok, hexcount, bytes := TakeChar(input[p], hex, hexcount, out, bytes, Run(input[..p]));
      if !ok {
        RejectIsFinal(input, p + 1);
        return;
      }
    }
    assert input[..|input|] == input;
    ok := FinishInto(hex, hexcount, out, bytes, Run(input));
  }
}
