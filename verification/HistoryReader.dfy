/**
 * A reader for the bytes that a history's digest is taken of: the policies, then
 * the selections, then the bindings, each a count in four bytes and then, in
 * strictly ascending order, keys of 64 bytes with their length-prefixed values.
 */
module HistoryReader {
  import opened Wrappers
  import opened Bytes
  import opened Selection
  import opened Sorting
  import opened EncodingE
  import opened EncodingReader
  import opened H = History
  import Text

  ghost function ReadEntries(s: Bytes, n: nat, after: Option<Bytes>): (r: Option<(map<Bytes, Bytes>, Bytes)>)
    decreases n
  {
    if n == 0 then Some((map[], s))
    else if |s| < 64 || (after.Some? && !Precedes(after.value, s[..64])) then None
    else
      match ReadL(s[64..])
      case None => None
      case Some((v, t)) =>
        match ReadEntries(t, n - 1, Some(s[..64]))
        case None => None
        case Some((m, u)) => Some((m[s[..64] := v], u))
  }

  ghost function ReadMap(s: Bytes): Option<(map<Bytes, Bytes>, Bytes)> {
    match ReadCount(s)
    case None => None
    case Some((n, t)) => ReadEntries(t, n, None)
  }

  /** Policies, selections and the texts of the bindings, with nothing left over. */
  ghost function ReadHistory(s: Bytes): Option<(map<Bytes, Bytes>, map<Bytes, Bytes>, map<Bytes, Bytes>)> {
    match ReadMap(s)
    case None => None
    case Some((policies, t)) =>
      match ReadMap(t)
      case None => None
      case Some((selections, u)) =>
        match ReadMap(u)
        case None => None
        case Some((bindings, v)) => if v == [] then Some((policies, selections, bindings)) else None
  }

  function Restrict(m: map<Bytes, Bytes>, ks: seq<Bytes>): map<Bytes, Bytes>
    requires forall k :: k in ks ==> k in m
  {
    map k | k in ks :: m[k]
  }

  ghost predicate Upwards(ks: seq<Bytes>) {
    forall i, j :: 0 <= i < j < |ks| ==> Precedes(ks[i], ks[j])
  }

  lemma SortedKeysGoUp(keys: set<Bytes>)
    ensures Upwards(SortedKeys(keys))
  {
    var ks := SortedKeys(keys);
    hide Chars, Text.Less, Text.Le, Precedes;
    forall i, j | 0 <= i < j < |ks|
      ensures Chars(ks[i]) != Chars(ks[j])
    {
      if Chars(ks[i]) == Chars(ks[j]) {
        CharsInjective(ks[i], ks[j]);
      }
    }
    SortedIsAscending(Chars, ks);
    forall i, j | 0 <= i < j < |ks|
      ensures Precedes(ks[i], ks[j])
    {
      CharsPrecede(ks[i], ks[j]);
    }
  }

  lemma {:induction false} EntriesAreRead(ks: seq<Bytes>, m: map<Bytes, Bytes>, x: Bytes, after: Option<Bytes>)
    requires (forall k :: k in ks ==> k in m) && FixedWidth(m) && Upwards(ks)
    requires after.Some? && ks != [] ==> Precedes(after.value, ks[0])
    ensures ReadEntries(Entries(ks, m) + x, |ks|, after) == Some((Restrict(m, ks), x))
    decreases |ks|
  {
    hide L, ReadL, Precedes;
    if ks == [] {
      assert Entries(ks, m) + x == x;
    } else {
      var k, v, rest := ks[0], m[ks[0]], ks[1..];
      assert k in ks && |k| == 64 && |v| < WIDTH;
      FirstEntry(ks, m, x);
      LReads(v, Entries(rest, m) + x);
      EntriesAreRead(rest, m, x, Some(k));
      FirstRestricted(ks, m);
      hide Entries, Restrict;
    }
  }

  lemma FirstEntry(ks: seq<Bytes>, m: map<Bytes, Bytes>, x: Bytes)
    requires ks != [] && (forall k :: k in ks ==> k in m) && |ks[0]| == 64
    ensures var s, more := Entries(ks, m) + x, Entries(ks[1..], m) + x;
      |s| >= 64 && s[..64] == ks[0] && s[64..] == L(m[ks[0]]) + more
  {
    hide L;
    var k, v, more := ks[0], m[ks[0]], Entries(ks[1..], m) + x;
    Assoc(k + L(v), Entries(ks[1..], m), x);
    Assoc(k, L(v), more);
    assert (k + (L(v) + more))[..64] == k && (k + (L(v) + more))[64..] == L(v) + more;
  }

  lemma FirstRestricted(ks: seq<Bytes>, m: map<Bytes, Bytes>)
    requires ks != [] && forall k :: k in ks ==> k in m
    ensures Restrict(m, ks[1..])[ks[0] := m[ks[0]]] == Restrict(m, ks)
  {
    assert ks == [ks[0]] + ks[1..];
  }

  lemma MapIsRead(m: map<Bytes, Bytes>, x: Bytes)
    requires FixedWidth(m)
    ensures ReadMap(MapBytes(m) + x) == Some((m, x))
  {
    hide U32, ReadCount, ReadEntries, Entries, Upwards, SortedBy, NoRepeat, Restrict, Precedes;
    var ks := SortedKeys(m.Keys);
    SortedKeysGoUp(m.Keys);
    ListingSize(ks, m.Keys);
    Assoc(U32(|m|), Entries(ks, m), x);
    CountReads(|m|, Entries(ks, m) + x);
    EntriesAreRead(ks, m, x, None);
    RestrictAll(m, ks);
  }

  lemma RestrictAll(m: map<Bytes, Bytes>, ks: seq<Bytes>)
    requires forall k :: k in ks <==> k in m.Keys
    ensures Restrict(m, ks) == m
  {
  }

  /** What is hashed for a valid history reads back as its policies, its selections and its bindings' texts. */
  lemma PreimageIsRead(h: History, mode: HistoryMode, s: Services)
    requires GivesDigests(s) && Valid(h, mode, s)
    ensures ReadHistory(Preimage(h)) == Some((h.policies, h.selections, Texts(h.bindings)))
  {
    hide Valid, GivesDigests, MapBytes, ReadMap, FixedWidth, Texts;
    PoliciesFixedWidth(h, mode, s);
    BindingsFixedWidth(h, mode, s);
    var a, b, c := MapBytes(h.policies), MapBytes(h.selections), MapBytes(Texts(h.bindings));
    Assoc(a, b, c);
    assert c + [] == c;
    MapIsRead(h.policies, b + c);
    MapIsRead(h.selections, c);
    MapIsRead(Texts(h.bindings), []);
  }
}
