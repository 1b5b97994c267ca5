/**
 * Sorting by a string key. The library sorts used by the repository are not
 * stable, so all that is promised of one is a sorted permutation; when a key
 * belongs to one element only, that already fixes the result.
 */
module Sorting {
  import opened Text

  ghost predicate SortedBy<T>(key: T -> string, s: seq<T>) {
    forall i, j :: 0 <= i < j < |s| ==> Le(key(s[i]), key(s[j]))
  }

  /** The keys go strictly upwards. */
  ghost predicate Ascending<T>(key: T -> string, s: seq<T>) {
    forall i, j :: 0 <= i < j < |s| ==> Less(key(s[i]), key(s[j]))
  }

  lemma SortedIsAscending<T>(key: T -> string, s: seq<T>)
    requires SortedBy(key, s) && forall i, j :: 0 <= i < j < |s| ==> key(s[i]) != key(s[j])
    ensures Ascending(key, s)
  {
    hide Le, Less;
    forall i, j | 0 <= i < j < |s| ensures Less(key(s[i]), key(s[j])) {
      LeIsLess(key(s[i]), key(s[j]));
    }
  }

  ghost predicate KeyDetermines<T>(key: T -> string, s: seq<T>) {
    forall a, b :: a in s && b in s && key(a) == key(b) ==> a == b
  }

  /** t is a sorted permutation of s. */
  ghost predicate SortOf<T>(key: T -> string, s: seq<T>, t: seq<T>) {
    SortedBy(key, t) && multiset(t) == multiset(s)
  }

  lemma Permuted<T>(s: seq<T>, t: seq<T>)
    requires multiset(s) == multiset(t)
    ensures |s| == |t| && forall x :: x in s <==> x in t
  {
    assert |s| == |multiset(s)| && |t| == |multiset(t)|;
    assert forall x :: x in s <==> x in multiset(s);
    assert forall x :: x in t <==> x in multiset(t);
  }

  /** The first element of a sorted sequence has the least key. */
  lemma FirstIsLeast<T>(key: T -> string, s: seq<T>, x: T)
    requires SortedBy(key, s) && x in s
    ensures Le(key(s[0]), key(x))
  {
    var i :| 0 <= i < |s| && s[i] == x;
    LeTotal(key(s[0]), key(s[0]));
  }

  lemma Uncons<T>(s: seq<T>)
    requires s != []
    ensures multiset(s[1..]) == multiset(s) - multiset{s[0]}
  {
    assert s == [s[0]] + s[1..];
  }

  lemma SortedTail<T>(key: T -> string, s: seq<T>)
    requires SortedBy(key, s) && KeyDetermines(key, s) && s != []
    ensures SortedBy(key, s[1..]) && KeyDetermines(key, s[1..])
  {
    hide Le;
  }

  lemma KeyDeterminesPermuted<T>(key: T -> string, s: seq<T>, t: seq<T>)
    requires multiset(s) == multiset(t) && KeyDetermines(key, s)
    ensures KeyDetermines(key, t)
  {
    Permuted(s, t);
  }

  lemma SameFirst<T>(key: T -> string, s: seq<T>, t: seq<T>)
    requires SortedBy(key, s) && SortedBy(key, t) && multiset(s) == multiset(t) && KeyDetermines(key, s) && s != []
    ensures t != [] && s[0] == t[0]
  {
    Permuted(s, t);
    hide Le;
    FirstIsLeast(key, s, t[0]);
    FirstIsLeast(key, t, s[0]);
    LeTotal(key(s[0]), key(t[0]));
  }

  lemma {:induction false} SortedUnique<T>(key: T -> string, s: seq<T>, t: seq<T>)
    requires SortedBy(key, s) && SortedBy(key, t) && multiset(s) == multiset(t) && KeyDetermines(key, s)
    ensures s == t
  {
    hide SortedBy, KeyDetermines;
    if s == [] {
      Permuted(s, t);
    } else {
      SameFirst(key, s, t);
      KeyDeterminesPermuted(key, s, t);
      Uncons(s);
      Uncons(t);
      SortedTail(key, s);
      SortedTail(key, t);
      assert multiset(s[1..]) == multiset(t[1..]);
      SortedUnique(key, s[1..], t[1..]);
      assert s == [s[0]] + s[1..] && t == [t[0]] + t[1..];
    }
  }

  /** Equal as multisets, with keys that determine the element: the sorts agree. */
  lemma SortsAgree<T>(key: T -> string, s: seq<T>, t: seq<T>, s': seq<T>, t': seq<T>)
    requires multiset(s) == multiset(t) && SortOf(key, s, s') && SortOf(key, t, t') && KeyDetermines(key, s)
    ensures s' == t'
  {
    Permuted(s, s');
    SortedUnique(key, s', t');
  }

  /** What slices.SortFunc, slices.Sort and sort.Strings promise; any sorted permutation may come out. */
  method SortBy<T>(key: T -> string, s: seq<T>) returns (t: seq<T>)
    ensures SortOf(key, s, t)
  {
    t := [];
    hide Le;
    for i := 0 to |s|
      invariant SortedBy(key, t) && multiset(t) == multiset(s[..i])
    {
      assert s[..i + 1] == s[..i] + [s[i]];
      var k := |t|;
      while k > 0 && !Le(key(t[k - 1]), key(s[i]))
        invariant 0 <= k <= |t|
        invariant forall j :: k <= j < |t| ==> Le(key(s[i]), key(t[j]))
      {
        LeTotal(key(t[k - 1]), key(s[i]));
        k := k - 1;
      }
      InsertSorted(key, t, k, s[i]);
      hide SortedBy;
      assert t == t[..k] + t[k..];
      t := t[..k] + [s[i]] + t[k..];
    }
    assert s[..|s|] == s;
  }

  lemma InsertSorted<T>(key: T -> string, t: seq<T>, k: nat, x: T)
    requires SortedBy(key, t) && k <= |t|
    requires k > 0 ==> Le(key(t[k - 1]), key(x))
    requires forall j :: k <= j < |t| ==> Le(key(x), key(t[j]))
    ensures SortedBy(key, t[..k] + [x] + t[k..])
  {
    var u := t[..k] + [x] + t[k..];
    forall i, j | 0 <= i < j < |u| ensures Le(key(u[i]), key(u[j])) {
      if i < k && j == k {
        if i < k - 1 {
          LeTransitive(key(t[i]), key(t[k - 1]), key(x));
        }
      } else if i < k < j {
        assert u[i] == t[i] && u[j] == t[j - 1];
      } else if k < i {
        assert u[i] == t[i - 1] && u[j] == t[j - 1];
      }
    }
  }

  // Listing a set in order

  predicate NoRepeat<T(==)>(s: seq<T>) {
    forall i, j :: 0 <= i < j < |s| ==> s[i] != s[j]
  }

  /** ks lists the elements of the set, each once, in the order of their keys. */
  ghost predicate Lists<T(!new)>(key: T -> string, ks: seq<T>, keys: set<T>) {
    NoRepeat(ks) && SortedBy(key, ks) && forall k :: k in ks <==> k in keys
  }

  lemma {:induction false} CountOnce<T>(s: seq<T>, x: T)
    requires NoRepeat(s)
    ensures multiset(s)[x] == if x in s then 1 else 0
  {
    if s != [] {
      assert s == [s[0]] + s[1..];
      CountOnce(s[1..], x);
    }
  }

  lemma CountTwice<T>(t: seq<T>, i: nat, j: nat)
    requires i < j < |t| && t[i] == t[j]
    ensures multiset(t)[t[i]] >= 2
  {
    assert t == t[..i] + [t[i]] + t[i + 1..j] + [t[j]] + t[j + 1..];
  }

  lemma DistinctMultisets<T(!new)>(s: seq<T>, t: seq<T>)
    requires NoRepeat(s) && NoRepeat(t) && forall x :: x in s <==> x in t
    ensures multiset(s) == multiset(t)
  {
    hide NoRepeat;
    forall x: T
      ensures multiset(s)[x] == multiset(t)[x]
    {
      CountOnce(s, x);
      CountOnce(t, x);
    }
  }

  lemma SortKeepsListing<T(!new)>(key: T -> string, s: seq<T>, t: seq<T>, keys: set<T>)
    requires NoRepeat(s) && (forall k :: k in s <==> k in keys) && SortOf(key, s, t)
    ensures Lists(key, t, keys)
  {
    Permuted(s, t);
    hide SortedBy;
    forall i, j | 0 <= i < j < |t|
      ensures t[i] != t[j]
    {
      CountOnce(s, t[i]);
      if t[i] == t[j] {
        CountTwice(t, i, j);
      }
    }
  }

  lemma ListingUnique<T(!new)>(key: T -> string, a: seq<T>, b: seq<T>, keys: set<T>)
    requires Lists(key, a, keys) && Lists(key, b, keys) && KeyDetermines(key, a)
    ensures a == b
  {
    hide SortedBy, NoRepeat, KeyDetermines;
    DistinctMultisets(a, b);
    SortedUnique(key, a, b);
  }

  lemma {:induction false} ListingSize<T(!new)>(ks: seq<T>, keys: set<T>)
    requires NoRepeat(ks) && forall k :: k in ks <==> k in keys
    ensures |ks| == |keys|
  {
    if ks == [] {
      assert keys == {};
    } else {
      ListingSize(ks[1..], keys - {ks[0]});
    }
  }

  /** Subsets of the same size are equal: why comparing counts is enough. */
  lemma SameCount<T>(a: set<T>, b: set<T>)
    requires a <= b
    ensures |a| == |b| <==> a == b
  {
    if |a| == |b| {
      assert |b - a| == |b| - |a|;
      assert b == a + (b - a);
    }
  }

  /** Collecting the keys of a map in any order and sorting them. */
  method SortSet<T(==,!new)>(key: T -> string, keys: set<T>) returns (ks: seq<T>)
    ensures Lists(key, ks, keys)
  {
    var found: seq<T> := [];
    var rest := keys;
    hide Lists, SortOf;
    while rest != {}
      invariant rest <= keys && NoRepeat(found) && forall k :: k in found <==> k in keys && k !in rest
      decreases |rest|
    {
      var k :| k in rest;
      assert forall x :: x in found + [k] <==> x in found || x == k;
      found, rest := found + [k], rest - {k};
    }
    ks := SortBy(key, found);
    SortKeepsListing(key, found, ks, keys);
  }

  // One sorted order as a function

  function Insert<T>(key: T -> string, x: T, s: seq<T>): seq<T> {
    if s == [] then [x]
    else if Le(key(x), key(s[0])) then [x] + s
    else [s[0]] + Insert(key, x, s[1..])
  }

  function SortWith<T>(key: T -> string, s: seq<T>): seq<T> {
    if s == [] then [] else Insert(key, s[0], SortWith(key, s[1..]))
  }

  lemma SortedCons<T>(key: T -> string, x: T, s: seq<T>)
    requires SortedBy(key, s) && (s != [] ==> Le(key(x), key(s[0])))
    ensures SortedBy(key, [x] + s)
  {
    forall j | 0 <= j < |s| ensures Le(key(x), key(s[j])) {
      if j > 0 {
        LeTransitive(key(x), key(s[0]), key(s[j]));
      }
    }
  }

  lemma OneIsSorted<T>(key: T -> string, x: T)
    ensures SortedBy(key, [x])
  {
  }

  lemma TailIsSorted<T>(key: T -> string, s: seq<T>)
    requires SortedBy(key, s) && s != []
    ensures SortedBy(key, s[1..]) && (|s| > 1 ==> Le(key(s[0]), key(s[1])))
  {
  }

  lemma {:induction false} InsertAdds<T>(key: T -> string, x: T, s: seq<T>)
    ensures multiset(Insert(key, x, s)) == multiset(s) + multiset{x}
  {
    hide Le;
    if s != [] {
      assert s == [s[0]] + s[1..];
      InsertAdds(key, x, s[1..]);
    }
  }

  lemma {:induction false} InsertIsSorted<T>(key: T -> string, x: T, s: seq<T>)
    requires SortedBy(key, s)
    ensures SortedBy(key, Insert(key, x, s)) && multiset(Insert(key, x, s)) == multiset(s) + multiset{x}
    ensures Insert(key, x, s) != [] && (Insert(key, x, s)[0] == x || (s != [] && Insert(key, x, s)[0] == s[0]))
  {
    hide Le, SortedBy;
    InsertAdds(key, x, s);
    if s == [] {
      OneIsSorted(key, x);
    } else {
      TailIsSorted(key, s);
      LeTotal(key(x), key(s[0]));
      if Le(key(x), key(s[0])) {
        SortedCons(key, x, s);
      } else {
        InsertIsSorted(key, x, s[1..]);
        SortedCons(key, s[0], Insert(key, x, s[1..]));
      }
    }
  }

  lemma {:induction false} SortWithSorts<T>(key: T -> string, s: seq<T>)
    ensures SortOf(key, s, SortWith(key, s))
  {
    if s != [] {
      SortWithSorts(key, s[1..]);
      InsertIsSorted(key, s[0], SortWith(key, s[1..]));
      assert s == [s[0]] + s[1..];
    }
  }

  // Strings by themselves: equal keys are equal strings

  function Itself(s: string): string { s }

  function SortStrings(s: seq<string>): seq<string> {
    SortWith(Itself, s)
  }

  ghost predicate Sorted(s: seq<string>) {
    forall i, j :: 0 <= i < j < |s| ==> Le(s[i], s[j])
  }

  lemma SortStringsSorts(s: seq<string>)
    ensures Sorted(SortStrings(s)) && multiset(SortStrings(s)) == multiset(s)
  {
    SortWithSorts(Itself, s);
  }

  /** Sorting strings gives one result for every order of the same strings, and it is the only sorted one. */
  lemma SortStringsCanonical(s: seq<string>, t: seq<string>)
    requires multiset(s) == multiset(t)
    ensures SortStrings(s) == SortStrings(t)
    ensures Sorted(t) ==> SortStrings(s) == t
  {
    SortStringsSorts(s);
    SortStringsSorts(t);
    SortedUnique(Itself, SortStrings(s), SortStrings(t));
    if Sorted(t) {
      SortedUnique(Itself, SortStrings(s), t);
    }
  }

  // Images of sequences

  function Map<T, U>(f: T -> U, s: seq<T>): (r: seq<U>)
    ensures |r| == |s| && forall i :: 0 <= i < |s| ==> r[i] == f(s[i])
  {
    seq(|s|, i requires 0 <= i < |s| => f(s[i]))
  }

  lemma MapConcat<T, U>(f: T -> U, a: seq<T>, b: seq<T>)
    ensures Map(f, a + b) == Map(f, a) + Map(f, b)
  {
  }

  lemma RemoveOne<T>(s: seq<T>, k: nat)
    requires k < |s|
    ensures multiset(s[..k] + s[k + 1..]) == multiset(s) - multiset{s[k]}
  {
    assert s == s[..k] + [s[k]] + s[k + 1..];
  }

  lemma MapRemove<T, U>(f: T -> U, s: seq<T>, k: nat)
    requires k < |s|
    ensures multiset(Map(f, s)) == multiset(Map(f, s[..k] + s[k + 1..])) + multiset{f(s[k])}
  {
    assert s == s[..k] + [s[k]] + s[k + 1..];
    MapConcat(f, s[..k] + [s[k]], s[k + 1..]);
    MapConcat(f, s[..k], [s[k]]);
    MapConcat(f, s[..k], s[k + 1..]);
    assert Map(f, [s[k]]) == [f(s[k])];
  }

  function Without<T>(s: seq<T>, k: nat): seq<T>
    requires k < |s|
  {
    s[..k] + s[k + 1..]
  }

  lemma RemoveSame<T>(a: seq<T>, b: seq<T>, k: nat)
    requires multiset(a) == multiset(b) && a != [] && k < |b| && a[0] == b[k]
    ensures multiset(a[1..]) == multiset(Without(b, k))
  {
    RemoveOne(b, k);
    Uncons(a);
  }

  lemma MapSame<T, U>(f: T -> U, a: seq<T>, b: seq<T>, k: nat)
    requires a != [] && k < |b| && a[0] == b[k]
    requires multiset(Map(f, a[1..])) == multiset(Map(f, Without(b, k)))
    ensures multiset(Map(f, a)) == multiset(Map(f, b))
  {
    hide Map;
    MapRemove(f, a, 0);
    MapRemove(f, b, k);
    assert a[..0] + a[1..] == a[1..];
  }

  /** A map respects equality of multisets. */
  lemma {:induction false} MapMultiset<T, U>(f: T -> U, a: seq<T>, b: seq<T>)
    requires multiset(a) == multiset(b)
    ensures multiset(Map(f, a)) == multiset(Map(f, b))
  {
    Permuted(a, b);
    if a != [] {
      assert a[0] in b;
      var k := PositionOf(b, a[0]);
      hide Map, Without;
      RemoveSame(a, b, k);
      MapMultiset(f, a[1..], Without(b, k));
      MapSame(f, a, b, k);
    } else {
      assert a == b;
    }
  }

  ghost function PositionOf<T>(s: seq<T>, x: T): (k: nat)
    requires x in s
    ensures k < |s| && s[k] == x
  {
    var k :| 0 <= k < |s| && s[k] == x; k
  }
}
