/** Whether the listing is case-insensitive: the byte order the store's comparator uses, against
    the order of the names with their capitals folded. */
module Collation {
  import opened Text
  import opened Devices
  import opened Store

  /** The comparator of the listing with names compared case-insensitively. */
  predicate FoldedLess(a: Device, b: Device) {
    ListLess(a.(hostname := LowerAll(a.hostname)), b.(hostname := LowerAll(b.hostname)))
  }

  ghost predicate Over(letters: set<char>, s: string) {
    forall c :: c in s ==> c in letters
  }

  /** Folding keeps the order of the letters, and so keeps them apart. */
  ghost predicate FoldsInOrder(letters: set<char>) {
    forall x, y :: x in letters && y in letters && x < y ==> Lower(x) < Lower(y)
  }

  lemma LessCons(x: char, s: string, y: char, t: string)
    ensures Less([x] + s, [y] + t) <==> x < y || (x == y && Less(s, t))
    ensures [x] + s == [y] + t <==> x == y && s == t
  {
    var u, v := [x] + s, [y] + t;
    assert u[0] == x && v[0] == y && u[1..] == s && v[1..] == t;
  }

  lemma FoldCons(s: string)
    requires s != ""
    ensures s == [s[0]] + s[1..] && LowerAll(s) == [Lower(s[0])] + LowerAll(s[1..])
  {
  }

  lemma {:induction false} FoldKeepsLess(letters: set<char>, s: string, t: string)
    requires FoldsInOrder(letters) && Over(letters, s) && Over(letters, t)
    ensures Less(LowerAll(s), LowerAll(t)) <==> Less(s, t)
    ensures LowerAll(s) == LowerAll(t) <==> s == t
  {
    if s == "" || t == "" {
    } else {
      FoldKeepsLess(letters, s[1..], t[1..]);
      FoldCons(s);
      FoldCons(t);
      LessCons(s[0], s[1..], t[0], t[1..]);
      LessCons(Lower(s[0]), LowerAll(s[1..]), Lower(t[0]), LowerAll(t[1..]));
      assert s[0] in letters && t[0] in letters;
    }
  }

  /** The listing order is the case-insensitive one for all names over a set of letters exactly if
      folding keeps the order of those letters. */
  lemma ListingFoldsIff(letters: set<char>)
    ensures FoldsInOrder(letters) <==>
            forall a: Device, b: Device :: Over(letters, a.hostname) && Over(letters, b.hostname) ==>
              (ListLess(a, b) <==> FoldedLess(a, b))
  {
    if FoldsInOrder(letters) {
      forall a: Device, b: Device | Over(letters, a.hostname) && Over(letters, b.hostname)
        ensures ListLess(a, b) <==> FoldedLess(a, b)
      {
        FoldKeepsLess(letters, a.hostname, b.hostname);
      }
    } else {
      var x, y :| x in letters && y in letters && x < y && !(Lower(x) < Lower(y));
      OneLetterNames(x, y);
      assert Over(letters, Named([x]).hostname) && Over(letters, Named([y]).hostname);
    }
  }

  function Named(name: string): Device {
    Blank("").(hostname := name)
  }

  /** Two letters in the wrong order make two devices in the wrong order. */
  lemma OneLetterNames(x: char, y: char)
    requires x < y && !(Lower(x) < Lower(y))
    ensures ListLess(Named([x]), Named([y])) && !FoldedLess(Named([x]), Named([y]))
  {
    var s, t := LowerAll([x]), LowerAll([y]);
    assert s[0] == Lower(x) && t[0] == Lower(y) && s[1..] == "" == t[1..];
    assert !Less(s, t);
  }

  /** "B" is listed before "a". */
  lemma CapitalsComeFirst()
    ensures ListLess(Named("B"), Named("a")) && FoldedLess(Named("a"), Named("B"))
  {
    var s, t := LowerAll("a"), LowerAll("B");
    assert s[0] == 'a' && t[0] == 'b';
  }
}
