/** The listing of the nftables set: filling the fixed buffer from the command's output and
    scanning it for MAC addresses (`np_nft_list`). */
module Scan {
  import opened Text
  import Mac
  import MacLaws

  const CAPACITY := 4096

  /** A 17-byte window holding six pairs of hexadecimal digits joined by colons. */
  predicate IsMac(w: string) {
    |w| == 17 && forall k :: 0 <= k < 17 ==> if k % 3 == 2 then w[k] == ':' else IsHex(w[k])
  }

  /** The MACs reported from position `i` on: the leftmost window wins, and the scan resumes after it. */
  function ScanFrom(t: string, i: nat): seq<string>
    decreases |t| - i
  {
    if i + 16 >= |t| then []
    else if IsMac(t[i..i + 17]) then [LowerAll(t[i..i + 17])] + ScanFrom(t, i + 17)
    else ScanFrom(t, i + 1)
  }

  function Min(a: int, b: int): int {
    if a < b then a else b
  }

  /** What fits in the buffer beside the terminator. */
  function Cut(text: string): string {
    text[..Min(|text|, CAPACITY - 1)]
  }

  /** The MACs reported for a listing; None stands for a command that could not be started. */
  function Listed(listing: Option<string>): seq<string> {
    match listing
    case None => []
    case Some(text) => ScanFrom(Cut(text), 0)
  }

  // ----- The code

  method FillBuffer(text: string, buf: array<char>) returns (total: nat)
    requires buf.Length == CAPACITY
    modifies buf
    ensures total < CAPACITY && buf[..total] == Cut(text)
  {
    total := 0;
    while true
      invariant total <= |text| && total <= CAPACITY - 1
      invariant buf[..total] == text[..total]
      decreases CAPACITY - total
    {
      if total == |text| {                    // end of file: fgets returns NULL
        break;
      }
      var n := FgetsLength(text[total..], CAPACITY - total - 1);
      forall k | 0 <= k < n {
        buf[total + k] := text[total + k];
      }
      buf[total + n] := '\0';
      if total >= CAPACITY - 1 {              // no room was left, so nothing was read
        break;
      }
      total := total + n;
    }
  }

  method ScanBuffer(buf: array<char>, total: nat) returns (macs: seq<string>)
    requires total <= buf.Length
    ensures macs == ScanFrom(buf[..total], 0)
  {
    macs := [];
    var i := 0;
    ghost var t := buf[..total];
    while i + 16 < total
      invariant macs + ScanFrom(t, i) == ScanFrom(t, 0)
      decreases total - i
    {
      assert buf[i..i + 17] == t[i..i + 17];
      if IsMac(buf[i..i + 17]) {
        macs := macs + [LowerAll(buf[i..i + 17])];
        i := i + 16;
      }
      i := i + 1;
    }
  }

  /** `np_nft_list`: the calls to the callback, in order. */
  method List(listing: Option<string>) returns (macs: seq<string>)
    ensures macs == Listed(listing)
  {
    if listing.None? {
      return [];
    }
    var buf := new char[CAPACITY];
    var total := FillBuffer(listing.value, buf);
    macs := ScanBuffer(buf, total);
  }

  // ----- What the scan reports, without reference to how it goes on

  predicate MatchAt(g: string, i: nat) {
    i + 17 <= |g| && IsMac(g[i..i + 17])
  }

  /** The first hit from `i` on, the first one from 17 characters after it on, and so forth. */
  ghost predicate Leftmost(hit: nat -> bool, i: nat, ps: seq<nat>)
    decreases |ps|
  {
    if ps == [] then NoneIn(hit, i, None)
    else i <= ps[0] && hit(ps[0]) && NoneIn(hit, i, Some(ps[0])) && Leftmost(hit, ps[0] + 17, ps[1..])
  }

  ghost predicate NoneIn(hit: nat -> bool, from: nat, to: Option<nat>) {
    forall q: nat :: from <= q && (to.Some? ==> q < to.value) ==> !hit(q)
  }

  /** Every position is a hit, the next is at least 17 characters later, and nothing between that
      could be a hit is one. */
  lemma {:induction false} LeftmostMeans(hit: nat -> bool, i: nat, ps: seq<nat>, k: nat)
    requires Leftmost(hit, i, ps) && k < |ps|
    ensures i <= ps[k] && hit(ps[k])
    ensures k + 1 < |ps| ==> ps[k] + 17 <= ps[k + 1]
    ensures NoneIn(hit, ps[k] + 17, if k + 1 < |ps| then Some(ps[k + 1]) else None)
    decreases k
  {
    if k == 0 {
      assert Leftmost(hit, ps[0] + 17, ps[1..]);
    } else {
      LeftmostMeans(hit, ps[0] + 17, ps[1..], k - 1);
    }
  }

  lemma {:induction false} LeftmostUnique(hit: nat -> bool, i: nat, ps: seq<nat>, qs: seq<nat>)
    requires Leftmost(hit, i, ps) && Leftmost(hit, i, qs)
    ensures ps == qs
    decreases |ps|
  {
    if ps == [] || qs == [] {
    } else {
      assert ps[0] == qs[0];
      LeftmostUnique(hit, ps[0] + 17, ps[1..], qs[1..]);
      assert ps == [ps[0]] + ps[1..] && qs == [qs[0]] + qs[1..];
    }
  }

  /** Where the windows of a text are. */
  function Windows(t: string): nat -> bool {
    (q: nat) => MatchAt(t, q)
  }

  /** The MACs at these positions, lower-cased. */
  function ReadAt(t: string, ps: seq<nat>): (macs: seq<string>)
    requires forall k :: 0 <= k < |ps| ==> ps[k] + 17 <= |t|
    ensures |macs| == |ps|
  {
    if ps == [] then [] else [LowerAll(t[ps[0]..ps[0] + 17])] + ReadAt(t, ps[1..])
  }

  ghost predicate Reports(t: string, i: nat, ps: seq<nat>, macs: seq<string>) {
    Leftmost(Windows(t), i, ps) && (forall k :: 0 <= k < |ps| ==> ps[k] + 17 <= |t|) && macs == ReadAt(t, ps)
  }

  lemma {:induction false} ScanPositions(t: string, i: nat) returns (ps: seq<nat>)
    ensures Reports(t, i, ps, ScanFrom(t, i))
    decreases |t| - i
  {
    if i + 16 >= |t| {
      ps := [];
    } else if IsMac(t[i..i + 17]) {
      var rest := ScanPositions(t, i + 17);
      ps := [i] + rest;
      assert ps[1..] == rest && Windows(t)(i);
    } else {
      ps := ScanPositions(t, i + 1);
      assert !Windows(t)(i);
    }
  }

  /** On any text the scan reports the MACs at the leftmost windows that do not overlap, and there
      is only one such list of positions. */
  lemma ScanIsLeftmost(t: string, i: nat, macs: seq<string>)
    ensures macs == ScanFrom(t, i) <==> exists ps :: Reports(t, i, ps, macs)
  {
    var ps := ScanPositions(t, i);
    if qs :| Reports(t, i, qs, macs) {
      LeftmostUnique(Windows(t), i, ps, qs);
    }
  }

  // ----- Truncation only loses a suffix

  lemma {:induction false} PrefixStable(t: string, n: nat, i: nat)
    requires n <= |t|
    ensures ScanFrom(t[..n], i) <= ScanFrom(t, i)
    decreases n - i
  {
    if i + 16 >= n {
    } else {
      assert t[..n][i..i + 17] == t[i..i + 17];
      PrefixStable(t, n, if IsMac(t[i..i + 17]) then i + 17 else i + 1);
    }
  }

  lemma TruncationLosesOnlyASuffix(text: string)
    ensures Listed(Some(text)) <= ScanFrom(text, 0)
    ensures |text| <= 4095 ==> Listed(Some(text)) == ScanFrom(text, 0)
    ensures |text| > 4095 ==> Listed(Some(text)) == ScanFrom(text[..4095], 0)
  {
    PrefixStable(text, Min(|text|, CAPACITY - 1), 0);
    if |text| <= 4095 {
      assert text[..|text|] == text;
    }
  }

  // ----- Round trip: a listing is scanned back to the MACs it was made of

  /** No window inside `g` matches. */
  ghost predicate Quiet(g: string) {
    forall i: nat :: !MatchAt(g, i)
  }

  /** Text that cannot start a match, even when a MAC follows. */
  ghost predicate Padding(g: string) {
    Quiet(g) && (g != "" ==> var c := g[|g| - 1]; !IsHex(c) && c != ':')
  }

  datatype Item = Item(before: string, mac: string)

  function Render(items: seq<Item>, trail: string): string {
    if items == [] then trail
    else items[0].before + (items[0].mac + Render(items[1..], trail))
  }

  function Macs(items: seq<Item>): seq<string> {
    if items == [] then [] else [LowerAll(items[0].mac)] + Macs(items[1..])
  }

  lemma ShiftedWindow(g: string, rest: string, i: nat)
    requires i + 17 <= |rest|
    ensures (g + rest)[|g| + i..|g| + i + 17] == rest[i..i + 17]
  {
  }

  lemma {:induction false} ScanShift(g: string, rest: string, i: nat)
    ensures ScanFrom(g + rest, |g| + i) == ScanFrom(rest, i)
    decreases |rest| - i
  {
    var t := g + rest;
    assert |t| == |g| + |rest|;
    if i + 16 >= |rest| {
      assert ScanFrom(rest, i) == [] && ScanFrom(t, |g| + i) == [];
    } else {
      ShiftedWindow(g, rest, i);
      if IsMac(rest[i..i + 17]) {
        ScanShift(g, rest, i + 17);
      } else {
        ScanShift(g, rest, i + 1);
      }
    }
  }

  lemma {:induction false} ScanSkips(g: string, rest: string, i: nat)
    requires i <= |g| && (Padding(g) || (Quiet(g) && rest == ""))
    ensures ScanFrom(g + rest, i) == ScanFrom(g + rest, |g|)
    decreases |g| - i
  {
    var t := g + rest;
    if i == |g| || i + 16 >= |t| {
    } else {
      var w := t[i..i + 17];
      if i + 17 <= |g| {
        assert w == g[i..i + 17] && !MatchAt(g, i);
      } else {
        assert w[|g| - 1 - i] == g[|g| - 1];
      }
      ScanSkips(g, rest, i + 1);
    }
  }

  lemma {:induction false} ScanRoundTrip(items: seq<Item>, trail: string)
    requires forall k :: 0 <= k < |items| ==> Padding(items[k].before) && IsMac(items[k].mac)
    requires Quiet(trail)
    ensures ScanFrom(Render(items, trail), 0) == Macs(items)
  {
    if items == [] {
      assert trail + "" == trail;
      ScanSkips(trail, "", 0);
    } else {
      var g, m, rest := items[0].before, items[0].mac, Render(items[1..], trail);
      ScanSkips(g, m + rest, 0);
      ScanShift(g, m + rest, 0);
      assert (m + rest)[0..17] == m;
      ScanShift(m, rest, 0);
      ScanRoundTrip(items[1..], trail);
    }
  }

  // ----- What is reported is already canonical

  lemma LowerPairPrints(s: string, k: nat)
    requires MacLaws.MatchesWebPattern(s) && k < 6
    requires Lower(s[3 * k]) == s[3 * k] && Lower(s[3 * k + 1]) == s[3 * k + 1]
    ensures var v := MacLaws.PairValue(s, k); Mac.High(v) == s[3 * k] && Mac.Low(v) == s[3 * k + 1]
  {
    LowerIsDigit(s[3 * k]);
    LowerIsDigit(s[3 * k + 1]);
  }

  lemma LowerPrintsItself(s: string)
    requires MacLaws.MatchesWebPattern(s)
    requires forall k :: 0 <= k < 17 ==> Lower(s[k]) == s[k] && (k % 3 == 2 ==> s[k] == ':')
    ensures Mac.Canonical(MacLaws.Pairs(s)) == s
  {
    var a := MacLaws.Pairs(s);
    forall k | 0 <= k < 6
      ensures Mac.High(a[k]) == s[3 * k] && Mac.Low(a[k]) == s[3 * k + 1]
    {
      LowerPairPrints(s, k);
    }
    forall j | 0 <= j < 17
      ensures Mac.Canonical(a)[j] == s[j]
    {
      assert j == 3 * (j / 3) || j == 3 * (j / 3) + 1 || j == 3 * (j / 3) + 2;
    }
  }

  lemma LowerMacIsCanonical(w: string)
    requires IsMac(w)
    ensures Mac.Normalize(LowerAll(w)) == Some(LowerAll(w))
  {
    var s := LowerAll(w);
    forall k | 0 <= k < 17
      ensures Lower(s[k]) == s[k] && (if k % 3 == 2 then s[k] == ':' else IsHex(s[k]))
    {
      if k % 3 != 2 {
        LowerIsDigit(w[k]);
      }
    }
    MacLaws.WebPatternIsAccepted(s);
    LowerPrintsItself(s);
  }

  lemma {:induction false} ReportedAreCanonical(t: string, i: nat, m: string)
    requires m in ScanFrom(t, i)
    ensures Mac.Normalize(m) == Some(m)
    decreases |t| - i
  {
    var w := t[i..i + 17];
    if IsMac(w) {
      LowerMacIsCanonical(w);
      if m != LowerAll(w) {
        ReportedAreCanonical(t, i + 17, m);
      }
    } else {
      ReportedAreCanonical(t, i + 1, m);
    }
  }
}
