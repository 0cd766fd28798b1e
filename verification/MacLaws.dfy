/** Laws of MAC normalisation: canonical strings are fixed points, distinct addresses have
    distinct canonical strings in the same order, and the web API's pattern is understood. */
module MacLaws {
  import opened Text
  import opened Mac

  /** The web API's pattern: five times two hexadecimal digits and ':' or '-', then two digits. */
  predicate MatchesWebPattern(s: string) {
    && |s| == 17
    && forall i :: 0 <= i < 17 ==> if i % 3 == 2 then IsSeparator(s[i]) else IsHex(s[i])
  }

  /** The pattern, written out. */
  lemma PatternTable(s: string)
    ensures MatchesWebPattern(s) <==>
            && |s| == 17
            && (forall k :: 0 <= k < 5 ==> s[3 * k + 2] == ':' || s[3 * k + 2] == '-')
            && (forall k :: 0 <= k < 6 ==> IsHex(s[3 * k]) && IsHex(s[3 * k + 1]))
  {
    if |s| == 17 && (forall k :: 0 <= k < 5 ==> s[3 * k + 2] == ':' || s[3 * k + 2] == '-')
       && (forall k :: 0 <= k < 6 ==> IsHex(s[3 * k]) && IsHex(s[3 * k + 1])) {
      forall i | 0 <= i < 17
        ensures if i % 3 == 2 then IsSeparator(s[i]) else IsHex(s[i])
      {
        assert i == 3 * (i / 3) || i == 3 * (i / 3) + 1 || i == 3 * (i / 3) + 2;
        assert i < 15 || (IsHex(s[3 * 5]) && IsHex(s[3 * 5 + 1]));
      }
    }
  }

  /** The six bytes a reader of such a string sees, pair by pair. */
  function Pairs(s: string): (a: Address)
    requires MatchesWebPattern(s)
  {
    seq(6, k requires 0 <= k < 6 => PairValue(s, k))
  }

  function PairValue(s: string, k: nat): (v: int)
    requires MatchesWebPattern(s) && k < 6
    ensures 0 <= v < 256
  {
    HexValue(s[3 * k]) * 16 + HexValue(s[3 * k + 1])
  }

  function PatternGroups(s: string): seq<string>
    requires |s| == 17
  {
    seq(6, k requires 0 <= k < 6 => s[3 * k..3 * k + 2])
  }

  function PatternSeparators(s: string): string
    requires |s| == 17
  {
    seq(5, k requires 0 <= k < 5 => s[3 * k + 2])
  }

  lemma PatternSlice(s: string, k: nat)
    requires |s| == 17 && k < 5
    ensures s[..3 * (k + 1)] == s[..3 * k] + PatternGroups(s)[k] + [PatternSeparators(s)[k]]
  {
  }

  lemma {:induction false} WeavePattern(s: string, n: nat)
    requires |s| == 17 && n <= 5
    ensures Weave(PatternGroups(s)[..n], PatternSeparators(s)[..n]) == s[..3 * n]
  {
    if n == 0 {
    } else {
      var k, groups, separators := n - 1, PatternGroups(s), PatternSeparators(s);
      WeavePattern(s, k);
      assert groups[..n] == groups[..k] + [groups[k]];
      assert separators[..n] == separators[..k] + [separators[k]];
      WeaveAppend(groups[..k], separators[..k], groups[k], [separators[k]]);
      PatternSlice(s, k);
    }
  }

  lemma PatternWeaves(s: string)
    requires |s| == 17
    ensures Weave(PatternGroups(s), PatternSeparators(s)) == s
  {
    var groups, separators := PatternGroups(s), PatternSeparators(s);
    WeavePattern(s, 5);
    assert groups == groups[..5] + [groups[5]] && separators == separators[..5] + "";
    WeaveAppend(groups[..5], separators[..5], groups[5], "");
    assert s == s[..15] + groups[5] + "";
  }

  /** Whatever the web API lets through, the router accepts, and both mean the same address. */
  lemma WebPatternIsAccepted(s: string)
    requires MatchesWebPattern(s)
    ensures Parse(s) == Some(Pairs(s))
  {
    PatternWeaves(s);
    ParseOfWeave(PatternGroups(s), PatternSeparators(s));
    assert Values(PatternGroups(s)) == Pairs(s);
  }

  lemma RunOfJoined(w: string, groups: seq<string>, g: string, c: char)
    requires Run(w) == Reading(groups, "") && IsGroup(g) && |groups| < 6 && IsSeparator(c)
    ensures Run(w + (g + [c])) == Reading(groups + [g], "")
  {
    RunOfPart(w, groups, g, c);
    assert w + (g + [c]) == w + g + [c];
  }

  /** White space after a group is let through. */
  lemma RunOfSpaced(w: string, groups: seq<string>, g: string, c: char)
    requires Run(w) == Reading(groups, "") && IsGroup(g) && |groups| < 6 && IsSeparator(c)
    ensures Run(w + (g + " " + [c])) == Reading(groups + [g], "")
  {
    RunOfGroup(w, groups, g);
    RunAppend(w + g, ' ');
    RunOfSeparator(w + g + " ", groups, g, c);
    assert w + (g + " " + [c]) == w + g + " " + [c];
  }

  function LooseText(): string {
    ("1" + "-") + ("2" + ":") + ("3" + " " + "-") + ("4" + ":") + ("5" + ":") + ("6" + ":")
  }

  lemma LooseStart(w: string)
    requires Run(w) == Reading([], "")
    ensures Run(w + ("1" + "-") + ("2" + ":") + ("3" + " " + "-")) == Reading(["1", "2", "3"], "")
  {
    RunOfJoined(w, [], "1", '-');
    RunOfJoined(w + ("1" + "-"), ["1"], "2", ':');
    RunOfSpaced(w + ("1" + "-") + ("2" + ":"), ["1", "2"], "3", '-');
  }

  lemma LooseEnd(w: string)
    requires Run(w) == Reading(["1", "2", "3"], "")
    ensures Run(w + ("4" + ":") + ("5" + ":") + ("6" + ":")) == Reading(["1", "2", "3", "4", "5", "6"], "")
  {
    RunOfJoined(w, ["1", "2", "3"], "4", ':');
    RunOfJoined(w + ("4" + ":"), ["1", "2", "3", "4"], "5", ':');
    RunOfJoined(w + ("4" + ":") + ("5" + ":"), ["1", "2", "3", "4", "5"], "6", ':');
  }

  /** A spelling with short groups, mixed separators, a blank and a trailing separator: the router
      takes it, the web API does not. */
  lemma LooseSpelling()
    ensures Parse(LooseText()) == Some([1, 2, 3, 4, 5, 6]) && !MatchesWebPattern(LooseText())
  {
    LooseStart("");
    assert "" + ("1" + "-") == "1" + "-";
    LooseEnd(("1" + "-") + ("2" + ":") + ("3" + " " + "-"));
    var a := [1, 2, 3, 4, 5, 6];
    assert Values(["1", "2", "3", "4", "5", "6"]) == a;
  }

  lemma CanonicalAt(a: Address, i: nat)
    requires i < 6
    ensures Canonical(a)[3 * i] == High(a[i]) && Canonical(a)[3 * i + 1] == Low(a[i])
    ensures i < 5 ==> Canonical(a)[3 * i + 2] == ':'
  {
  }

  lemma CanonicalMatches(a: Address)
    ensures MatchesWebPattern(Canonical(a))
  {
    forall j | 0 <= j < 17
      ensures if j % 3 == 2 then IsSeparator(Canonical(a)[j]) else IsHex(Canonical(a)[j])
    {
      CanonicalAt(a, j / 3);
    }
  }

  lemma CanonicalPair(a: Address, k: nat)
    requires k < 6 && MatchesWebPattern(Canonical(a))
    ensures PairValue(Canonical(a), k) == a[k]
  {
    CanonicalAt(a, k);
  }

  /** Round trip: reading back what was printed gives the same address. */
  lemma CanonicalRoundTrip(a: Address)
    ensures Parse(Canonical(a)) == Some(a)
  {
    CanonicalMatches(a);
    var s := Canonical(a);
    WebPatternIsAccepted(s);
    forall k | 0 <= k < 6
      ensures Pairs(s)[k] == a[k]
    {
      CanonicalPair(a, k);
    }
    assert Pairs(s) == a;
  }

  /** Normalising twice is normalising once. */
  lemma NormalizeIdempotent(s: string)
    requires Normalize(s).Some?
    ensures Normalize(Normalize(s).value) == Normalize(s)
  {
    CanonicalRoundTrip(Parse(s).value);
  }

  /** Two spellings get the same canonical string exactly when they denote the same address. */
  lemma NormalizeInjective(s: string, t: string)
    requires Parse(s).Some? && Parse(t).Some?
    ensures Normalize(s) == Normalize(t) <==> Parse(s) == Parse(t)
  {
    CanonicalRoundTrip(Parse(s).value);
    CanonicalRoundTrip(Parse(t).value);
  }

  // ----- strcmp on canonical strings is the numeric order of addresses

  lemma PairOrder(u: int, v: int)
    requires 0 <= u < v < 256
    ensures High(u) < High(v) || (High(u) == High(v) && Low(u) < Low(v))
  {
    assert u / 16 < v / 16 || (u / 16 == v / 16 && u % 16 < v % 16);
  }

  lemma CanonicalPrefix(a: Address, b: Address, i: nat)
    requires i < 6 && a[..i] == b[..i]
    ensures Canonical(a)[..3 * i] == Canonical(b)[..3 * i]
  {
    forall j | 0 <= j < 3 * i
      ensures Canonical(a)[j] == Canonical(b)[j]
    {
      assert a[j / 3] == a[..i][j / 3] == b[..i][j / 3] == b[j / 3];
      CanonicalAt(a, j / 3);
      CanonicalAt(b, j / 3);
    }
  }

  lemma NumberAt(a: Address, b: Address, i: nat)
    requires i < 6 && a[..i] == b[..i] && a[i] < b[i]
    ensures Number(a) < Number(b)
  {
    assert forall j :: 0 <= j < i ==> a[j] == a[..i][j] == b[j];
  }

  lemma TextAt(a: Address, b: Address, i: nat)
    requires i < 6 && a[..i] == b[..i] && a[i] < b[i]
    ensures Less(Canonical(a), Canonical(b))
  {
    var s, t := Canonical(a), Canonical(b);
    CanonicalPrefix(a, b, i);
    CanonicalAt(a, i);
    CanonicalAt(b, i);
    PairOrder(a[i], b[i]);
    LessAtOrNext(s, t, 3 * i);
  }

  /** The first byte in which two addresses differ decides both orders. */
  lemma FirstByteDecides(a: Address, b: Address, i: nat)
    requires i < 6 && a[..i] == b[..i] && a[i] < b[i]
    ensures Number(a) < Number(b) && Less(Canonical(a), Canonical(b))
  {
    NumberAt(a, b, i);
    TextAt(a, b, i);
  }

  lemma {:induction false} FirstDifference(a: Address, b: Address, n: nat) returns (i: nat)
    requires n <= 6 && a[..n] != b[..n]
    ensures i < 6 && a[..i] == b[..i] && a[i] != b[i]
  {
    if a[..n - 1] == b[..n - 1] {
      i := n - 1;
      assert a[..n] == a[..i] + [a[i]] && b[..n] == b[..i] + [b[i]];
    } else {
      i := FirstDifference(a, b, n - 1);
    }
  }

  /** Sorting canonical strings sorts the addresses. */
  lemma OrderPreserved(a: Address, b: Address)
    ensures Less(Canonical(a), Canonical(b)) <==> Number(a) < Number(b)
  {
    if a == b {
      LessIrreflexive(Canonical(a));
    } else {
      assert a[..6] == a && b[..6] == b;
      var i := FirstDifference(a, b, 6);
      if a[i] < b[i] {
        FirstByteDecides(a, b, i);
      } else {
        FirstByteDecides(b, a, i);
        LessTrichotomy(Canonical(b), Canonical(a));
      }
    }
  }
}
