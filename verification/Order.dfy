/** Sorting by a strict order. The C library's `qsort` and Go's `sort.Slice` promise a sorted
    permutation; with a strict total order on distinct elements that determines the result. */
module Order {

  ghost predicate StrictlySorted<T>(less: (T, T) -> bool, s: seq<T>) {
    forall i, j :: 0 <= i < j < |s| ==> less(s[i], s[j])
  }

  ghost predicate Distinct<T>(s: seq<T>) {
    forall i, j :: 0 <= i < j < |s| ==> s[i] != s[j]
  }

  /** `less` is a strict total order on the given elements. */
  ghost predicate StrictOrderOn<T>(less: (T, T) -> bool, s: set<T>) {
    && (forall x :: x in s ==> !less(x, x))
    && (forall x, y :: x in s && y in s && x != y ==> less(x, y) || less(y, x))
    && (forall x, y, z :: x in s && y in s && z in s && less(x, y) && less(y, z) ==> less(x, z))
  }

  ghost function Elements<T>(s: seq<T>): set<T> {
    set x | x in s
  }

  function Place<T>(less: (T, T) -> bool, s: seq<T>, x: T): seq<T> {
    if s == [] then [x]
    else if less(x, s[0]) then [x] + s
    else [s[0]] + Place(less, s[1..], x)
  }

  /** The sorted permutation of `s`. */
  function Sort<T>(less: (T, T) -> bool, s: seq<T>): seq<T> {
    if s == [] then [] else Place(less, Sort(less, s[1..]), s[0])
  }

  lemma {:induction false} SortLength<T>(less: (T, T) -> bool, s: seq<T>)
    ensures |Sort(less, s)| == |s|
  {
    if s == [] {
    } else {
      var rest := Sort(less, s[1..]);
      SortLength(less, s[1..]);
      PlaceKeeps(less, rest, s[0]);
      assert |Place(less, rest, s[0])| == |multiset(Place(less, rest, s[0]))|;
    }
  }

  lemma {:induction false} PlaceKeeps<T>(less: (T, T) -> bool, s: seq<T>, x: T)
    ensures multiset(Place(less, s, x)) == multiset(s) + multiset{x}
  {
    if s == [] {
    } else {
      assert s == [s[0]] + s[1..];
      if !less(x, s[0]) {
        PlaceKeeps(less, s[1..], x);
      }
    }
  }

  lemma PlaceFirstSorts<T>(less: (T, T) -> bool, s: seq<T>, x: T, all: set<T>)
    requires StrictOrderOn(less, all) && Elements(s) <= all && x in all
    requires StrictlySorted(less, s) && s != [] && less(x, s[0])
    ensures StrictlySorted(less, [x] + s)
  {
    forall j | 0 <= j < |s|
      ensures less(x, s[j])
    {
      assert s[0] in Elements(s) && s[j] in Elements(s);
    }
  }

  lemma PlaceLaterSorts<T>(less: (T, T) -> bool, s: seq<T>, x: T, rest: seq<T>)
    requires StrictlySorted(less, s) && s != [] && less(s[0], x)
    requires StrictlySorted(less, rest) && multiset(rest) == multiset(s[1..]) + multiset{x}
    ensures StrictlySorted(less, [s[0]] + rest)
  {
    forall j | 0 <= j < |rest|
      ensures less(s[0], rest[j])
    {
      assert rest[j] in multiset(rest);
      assert rest[j] == x || rest[j] in s[1..];
    }
  }

  lemma {:induction false} PlaceSorts<T>(less: (T, T) -> bool, s: seq<T>, x: T, all: set<T>)
    requires StrictOrderOn(less, all) && Elements(s) <= all && x in all && x !in s
    requires StrictlySorted(less, s)
    ensures StrictlySorted(less, Place(less, s, x))
  {
    if s == [] {
    } else if less(x, s[0]) {
      PlaceFirstSorts(less, s, x, all);
    } else {
      assert s[0] in Elements(s);
      PlaceSorts(less, s[1..], x, all);
      PlaceKeeps(less, s[1..], x);
      PlaceLaterSorts(less, s, x, Place(less, s[1..], x));
    }
  }

  /** A sorted permutation. */
  lemma {:induction false} SortSorts<T>(less: (T, T) -> bool, s: seq<T>, all: set<T>)
    requires StrictOrderOn(less, all) && Elements(s) <= all && Distinct(s)
    ensures StrictlySorted(less, Sort(less, s))
    ensures multiset(Sort(less, s)) == multiset(s)
  {
    if s == [] {
    } else {
      var rest := Sort(less, s[1..]);
      SortSorts(less, s[1..], all);
      forall x
        ensures x in rest <==> x in s[1..]
      {
        assert x in multiset(rest) <==> x in multiset(s[1..]);
      }
      assert s[0] in Elements(s) && s == [s[0]] + s[1..];
      assert Elements(rest) <= Elements(s);
      PlaceSorts(less, rest, s[0], all);
      PlaceKeeps(less, rest, s[0]);
    }
  }

  lemma SortedHeads<T>(less: (T, T) -> bool, s: seq<T>, t: seq<T>, all: set<T>)
    requires StrictOrderOn(less, all) && Elements(s) <= all
    requires StrictlySorted(less, s) && StrictlySorted(less, t)
    requires s != [] && multiset(s) == multiset(t)
    ensures t != [] && s[0] == t[0]
  {
    assert s[0] in multiset(t);
    assert t[0] in multiset(s);
    var i :| 0 <= i < |s| && s[i] == t[0];
    var j :| 0 <= j < |t| && t[j] == s[0];
    assert s[0] in Elements(s) && s[i] in Elements(s);
  }

  lemma SameTails<T>(s: seq<T>, t: seq<T>)
    requires s != [] && t != [] && s[0] == t[0] && multiset(s) == multiset(t)
    ensures multiset(s[1..]) == multiset(t[1..])
  {
    assert s == [s[0]] + s[1..] && t == [t[0]] + t[1..];
    assert multiset(s[1..]) == multiset(s) - multiset{s[0]};
    assert multiset(t[1..]) == multiset(t) - multiset{t[0]};
  }

  /** There is only one: whatever algorithm is used, the result is the same sequence. */
  lemma {:induction false} SortedUnique<T>(less: (T, T) -> bool, s: seq<T>, t: seq<T>, all: set<T>)
    requires StrictOrderOn(less, all) && Elements(s) <= all
    requires StrictlySorted(less, s) && StrictlySorted(less, t)
    requires multiset(s) == multiset(t)
    ensures s == t
  {
    assert |s| == |multiset(s)| == |multiset(t)| == |t|;
    if s == [] {
    } else {
      SortedHeads(less, s, t, all);
      SameTails(s, t);
      SortedUnique(less, s[1..], t[1..], all);
      assert s == [s[0]] + s[1..] && t == [t[0]] + t[1..];
    }
  }

  lemma {:induction false} DistinctMultiset<T>(s: seq<T>, x: T)
    requires Distinct(s)
    ensures multiset(s)[x] == if x in s then 1 else 0
  {
    if s == [] {
    } else {
      assert s == [s[0]] + s[1..];
      DistinctMultiset(s[1..], x);
    }
  }

  /** Sequences without repetition and with the same elements are permutations of each other. */
  lemma SameElements<T>(s: seq<T>, t: seq<T>)
    requires Distinct(s) && Distinct(t) && forall x :: x in s <==> x in t
    ensures multiset(s) == multiset(t)
  {
    forall x
      ensures multiset(s)[x] == multiset(t)[x]
    {
      DistinctMultiset(s, x);
      DistinctMultiset(t, x);
    }
  }
}
