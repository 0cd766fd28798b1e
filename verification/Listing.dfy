/** A listing seen from outside: the set as addresses, printed in either case with text in
    between, and what the scan makes of it. */
module Listing {
  import opened Text
  import opened Order
  import Mac
  import MacLaws
  import Scan
  import Inventory

  /** One element and the text before it; its MAC may be printed with capitals. */
  datatype Element = Element(before: string, mac: string, address: Mac.Address)

  /** Text without a colon that does not end in a hexadecimal digit. */
  ghost predicate IsGap(g: string) {
    ':' !in g && (g != "" ==> !IsHex(g[|g| - 1]))
  }

  ghost predicate WellPrinted(e: Element) {
    IsGap(e.before) && LowerAll(e.mac) == Mac.Canonical(e.address)
  }

  function Printed(es: seq<Element>, trail: string): string {
    if es == [] then trail else es[0].before + (es[0].mac + Printed(es[1..], trail))
  }

  function Canonicals(es: seq<Element>): seq<string> {
    if es == [] then [] else [Mac.Canonical(es[0].address)] + Canonicals(es[1..])
  }

  lemma LowerHex(c: char)
    ensures IsHex(Lower(c)) <==> IsHex(c)
    ensures Lower(c) == ':' <==> c == ':'
  {
  }

  lemma PrintedIsWindow(m: string, a: Mac.Address)
    requires LowerAll(m) == Mac.Canonical(a)
    ensures Scan.IsMac(m)
  {
    forall k | 0 <= k < 17
      ensures if k % 3 == 2 then m[k] == ':' else IsHex(m[k])
    {
      MacLaws.CanonicalAt(a, k / 3);
      LowerHex(m[k]);
      assert LowerAll(m)[k] == Mac.Canonical(a)[k];
    }
  }

  /** A window of the scan is an address printed in whichever case, and nothing else is. */
  lemma WindowIffPrinted(m: string)
    ensures Scan.IsMac(m) <==> exists a: Mac.Address :: LowerAll(m) == Mac.Canonical(a)
  {
    if Scan.IsMac(m) {
      Scan.LowerMacIsCanonical(m);
      assert LowerAll(m) == Mac.Canonical(Mac.Parse(LowerAll(m)).value);
    }
    if a: Mac.Address :| LowerAll(m) == Mac.Canonical(a) {
      PrintedIsWindow(m, a);
    }
  }

  lemma ColonlessIsQuiet(g: string)
    requires ':' !in g
    ensures Scan.Quiet(g)
  {
    forall i: nat
      ensures !Scan.MatchAt(g, i)
    {
      if i + 17 <= |g| {
        assert g[i..i + 17][2] == g[i + 2];
      }
    }
  }

  function Items(es: seq<Element>): seq<Scan.Item> {
    if es == [] then [] else [Scan.Item(es[0].before, es[0].mac)] + Items(es[1..])
  }

  lemma {:induction false} ItemsPrint(es: seq<Element>, trail: string)
    requires forall i :: 0 <= i < |es| ==> WellPrinted(es[i])
    ensures Scan.Render(Items(es), trail) == Printed(es, trail) && Scan.Macs(Items(es)) == Canonicals(es)
    ensures forall k :: 0 <= k < |Items(es)| ==> Scan.Padding(Items(es)[k].before) && Scan.IsMac(Items(es)[k].mac)
  {
    if es == [] {
    } else {
      var items, rest := Items(es), Items(es[1..]);
      ItemsPrint(es[1..], trail);
      assert items[0] == Scan.Item(es[0].before, es[0].mac) && items[1..] == rest;
      ColonlessIsQuiet(es[0].before);
      PrintedIsWindow(es[0].mac, es[0].address);
    }
  }

  /** A listing that fits is reported in full: exactly the addresses printed, canonically, in order.
      Of a longer one exactly those are reported that the first 4095 characters report. */
  lemma ListingReported(es: seq<Element>, trail: string)
    requires (forall i :: 0 <= i < |es| ==> WellPrinted(es[i])) && ':' !in trail
    ensures var text := Printed(es, trail);
            && (|text| <= 4095 ==> Scan.Listed(Some(text)) == Canonicals(es))
            && (|text| > 4095 ==> Scan.Listed(Some(text)) == Scan.Listed(Some(text[..4095])) <= Canonicals(es))
  {
    var text := Printed(es, trail);
    ItemsPrint(es, trail);
    ColonlessIsQuiet(trail);
    Scan.ScanRoundTrip(Items(es), trail);
    Scan.TruncationLosesOnlyASuffix(text);
    if |text| > 4095 {
      assert Scan.Cut(text[..4095]) == text[..4095] == Scan.Cut(text);
    }
  }

  /** So a listing prints a set of addresses in the sense in which a world is stable. */
  lemma ListingPrints(es: seq<Element>, trail: string)
    requires (forall i :: 0 <= i < |es| ==> WellPrinted(es[i])) && ':' !in trail
    ensures Inventory.Prints(Printed(es, trail), Elements(Canonicals(es)))
  {
    ItemsPrint(es, trail);
    ColonlessIsQuiet(trail);
    assert Inventory.PrintsAs(Printed(es, trail), Elements(Canonicals(es)), Items(es), trail);
  }
}
