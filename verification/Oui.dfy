/** The OUI of a MAC address (`ouiKey`): the key under which vendors are cached. */
module Oui {
  import opened Text
  import Mac
  import MacLaws

  predicate IsMark(c: char) {
    c == ':' || c == '-' || c == '.'
  }

  function KeyFrom(key: string, s: string): Option<string>
    decreases |s|
  {
    if s == "" then None
    else if IsMark(s[0]) then KeyFrom(key, s[1..])
    else if !IsHex(s[0]) then None
    else if |key| == 5 then Some(key + [Lower(s[0])])
    else KeyFrom(key + [Lower(s[0])], s[1..])
  }

  /** `ouiKey`: None where it returns false. */
  function OuiKey(mac: string): Option<string> {
    KeyFrom("", mac)
  }

  method ComputeOuiKey(mac: string) returns (key: Option<string>)
    ensures key == OuiKey(mac)
  {
    var b := "";
    for i := 0 to |mac|
      invariant |b| < 6
      invariant KeyFrom(b, mac[i..]) == OuiKey(mac)
    {
      var c := mac[i];
      assert mac[i..][1..] == mac[i + 1..];
      if c == ':' || c == '-' || c == '.' {
        continue;
      }
      if '0' <= c <= '9' || 'a' <= c <= 'f' {
        b := b + [c];
      } else if 'A' <= c <= 'F' {
        b := b + [(c as int + 32) as char];
      } else {
        return None;
      }
      if |b| == 6 {
        return Some(b);
      }
    }
    return None;
  }

  /** The lower-case digits of a text without its marks. */
  function Digits(s: string): string {
    if s == "" then ""
    else if IsMark(s[0]) then Digits(s[1..])
    else [Lower(s[0])] + Digits(s[1..])
  }

  lemma MarkTable(c: char)
    ensures IsMark(c) <==> c in ":-."
  {
  }

  predicate Plain(s: string) {
    forall i :: 0 <= i < |s| ==> IsMark(s[i]) || IsHex(s[i])
  }

  /** `key` is `done` and the digits of the first `n` characters, which are digits and marks only. */
  ghost predicate KeyWithin(done: string, s: string, n: nat, key: string) {
    n <= |s| && Plain(s[..n]) && done + Digits(s[..n]) == key && |key| == 6
  }

  lemma KeyWithinStep(done: string, s: string, n: nat, key: string)
    requires |done| < 6 && s != "" && (IsMark(s[0]) || IsHex(s[0]))
    ensures KeyWithin(done, s, n + 1, key) <==>
            KeyWithin(if IsMark(s[0]) then done else done + [Lower(s[0])], s[1..], n, key)
  {
    if n < |s| {
      var head := s[..n + 1];
      assert head[1..] == s[1..][..n];
      assert Plain(head) <==> Plain(head[1..]) by {
        if Plain(head[1..]) {
          assert forall i :: 0 < i < |head| ==> head[i] == head[1..][i - 1];
        }
      }
      assert done + ([Lower(s[0])] + Digits(head[1..])) == done + [Lower(s[0])] + Digits(head[1..]);
    }
  }

  lemma {:induction false} KeyFromMeans(done: string, s: string, key: string)
    requires |done| < 6
    ensures KeyFrom(done, s) == Some(key) <==> exists n: nat :: KeyWithin(done, s, n, key)
    decreases |s|
  {
    if s != "" && (IsMark(s[0]) || IsHex(s[0])) {
      var next := if IsMark(s[0]) then done else done + [Lower(s[0])];
      if |next| < 6 {
        KeyFromMeans(next, s[1..], key);
      } else {
        assert KeyWithin(next, s[1..], 0, next) by { assert s[1..][..0] == "" && next + "" == next; }
      }
      forall n: nat
        ensures KeyWithin(done, s, n + 1, key) <==> KeyWithin(next, s[1..], n, key)
      {
        KeyWithinStep(done, s, n, key);
      }
      if n: nat :| KeyWithin(next, s[1..], n, key) {
        assert KeyWithin(done, s, n + 1, key);
      }
      if n: nat :| KeyWithin(done, s, n, key) {
        assert n > 0 && KeyWithin(next, s[1..], n - 1, key);
      }
    } else {
      forall n: nat
        ensures !KeyWithin(done, s, n, key)
      {
        assert 0 < n <= |s| ==> s[..n][0] == s[0];
      }
    }
  }

  /** The key is made of the first six digits, provided only marks stand before and between them. */
  lemma OuiKeyMeans(mac: string, key: string)
    ensures OuiKey(mac) == Some(key) <==> exists n: nat :: KeyWithin("", mac, n, key)
  {
    KeyFromMeans("", mac, key);
  }

  // ----- The key does not depend on the spelling

  lemma KeyStep(b: string, s: string, i: nat)
    requires i < |s| && (IsHex(s[i]) || IsMark(s[i]))
    ensures KeyFrom(b, s[i..]) ==
            if IsMark(s[i]) then KeyFrom(b, s[i + 1..])
            else if |b| == 5 then Some(b + [Lower(s[i])])
            else KeyFrom(b + [Lower(s[i])], s[i + 1..])
  {
    assert s[i..][1..] == s[i + 1..];
  }

  lemma KeyOfPair(b: string, s: string, i: nat)
    requires MacLaws.MatchesWebPattern(s) && i % 3 == 0 && i < 9 && |b| <= 4 && |b| != 3
    ensures var c := b + [Lower(s[i]), Lower(s[i + 1])];
            KeyFrom(b, s[i..]) == if |b| == 4 then Some(c) else KeyFrom(c, s[i + 3..])
  {
    var d := b + [Lower(s[i])];
    assert d + [Lower(s[i + 1])] == b + [Lower(s[i]), Lower(s[i + 1])];
    KeyStep(b, s, i);
    KeyStep(d, s, i + 1);
    KeyStep(d + [Lower(s[i + 1])], s, i + 2);
  }

  function FirstDigits(s: string): string
    requires |s| == 17
  {
    [Lower(s[0]), Lower(s[1])] + [Lower(s[3]), Lower(s[4])] + [Lower(s[6]), Lower(s[7])]
  }

  lemma KeyOfPattern(s: string)
    requires MacLaws.MatchesWebPattern(s)
    ensures OuiKey(s) == Some(FirstDigits(s))
  {
    var b := [Lower(s[0]), Lower(s[1])];
    assert s[0..] == s && "" + b == b;
    KeyOfPair("", s, 0);
    KeyOfPair(b, s, 3);
    KeyOfPair(b + [Lower(s[3]), Lower(s[4])], s, 6);
  }

  lemma DigitsSurvive(s: string, k: nat)
    requires MacLaws.MatchesWebPattern(s) && k < 6
    ensures var t := Mac.Canonical(MacLaws.Pairs(s));
            t[3 * k] == Lower(s[3 * k]) && t[3 * k + 1] == Lower(s[3 * k + 1])
  {
    var g := [s[3 * k], s[3 * k + 1]];
    assert Mac.IsGroup(g) && Mac.GroupValue(g) == MacLaws.PairValue(s, k) == MacLaws.Pairs(s)[k];
    Mac.GroupDigits(g);
    MacLaws.CanonicalAt(MacLaws.Pairs(s), k);
  }

  lemma FirstDigitsSurvive(s: string)
    requires MacLaws.MatchesWebPattern(s)
    ensures FirstDigits(Mac.Canonical(MacLaws.Pairs(s))) == FirstDigits(s)
  {
    DigitsSurvive(s, 0);
    DigitsSurvive(s, 1);
    DigitsSurvive(s, 2);
    var t := Mac.Canonical(MacLaws.Pairs(s));
    assert t[0] == Lower(s[0]) && t[1] == Lower(s[1]) && t[3] == Lower(s[3]);
    assert t[4] == Lower(s[4]) && t[6] == Lower(s[6]) && t[7] == Lower(s[7]);
  }

  /** A MAC the web API accepts has the same key before and after the router normalises it. */
  lemma KeySurvivesNormalisation(s: string)
    requires MacLaws.MatchesWebPattern(s)
    ensures Mac.Normalize(s).Some? && OuiKey(s).Some? && OuiKey(Mac.Normalize(s).value) == OuiKey(s)
  {
    MacLaws.WebPatternIsAccepted(s);
    MacLaws.CanonicalMatches(MacLaws.Pairs(s));
    KeyOfPattern(s);
    KeyOfPattern(Mac.Canonical(MacLaws.Pairs(s)));
    FirstDigitsSurvive(s);
  }
}
