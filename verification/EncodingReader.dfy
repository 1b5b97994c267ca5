/**
 * A reader for the E encoding, written from the format alone: a letter for the
 * kind, lengths and counts in four bytes with the highest first, object members
 * in strictly ascending order of their keys. It gives back what was encoded.
 */
module EncodingReader {
  import opened Wrappers
  import opened Bytes
  import opened JsonSpec
  import opened Sorting
  import opened EncodingE
  import Text

  /** a comes strictly before b in the order of bytes. */
  ghost predicate Precedes(a: Bytes, b: Bytes) {
    a < b || exists i :: 0 <= i < |a| && i < |b| && a[..i] == b[..i] && a[i] < b[i]
  }

  function ReadCount(s: Bytes): (r: Option<(nat, Bytes)>)
    ensures r.Some? ==> |r.value.1| < |s|
  {
    if |s| < 4 then None
    else Some((((s[0] as int * 256 + s[1] as int) * 256 + s[2] as int) * 256 + s[3] as int, s[4..]))
  }

  /** A length and then that many bytes. */
  function ReadL(s: Bytes): (r: Option<(Bytes, Bytes)>)
    ensures r.Some? ==> |r.value.1| < |s|
  {
    match ReadCount(s)
    case None => None
    case Some((n, t)) => if n <= |t| then Some((t[..n], t[n..])) else None
  }

  ghost function ReadE(s: Bytes): (r: Option<(Node, Bytes)>)
    ensures r.Some? ==> |r.value.1| < |s|
    decreases |s|, 0
  {
    if s == [] then None
    else
      var tag, t := s[0] as char, s[1..];
      if tag == 'n' then Some((Null(0), t))
      else if tag == 't' then Some((Bool(true, 0), t))
      else if tag == 'f' then Some((Bool(false, 0), t))
      else if tag == 'i' then
        match ReadL(t)
        case None => None
        case Some((b, u)) => Some((Number(b, 0), u))
      else if tag == 's' then
        match ReadL(t)
        case None => None
        case Some((b, u)) => Some((Str(b, 0), u))
      else if tag == 'a' then
        match ReadCount(t)
        case None => None
        case Some((n, u)) =>
          match ReadItems(u, n)
          case None => None
          case Some((items, v)) => Some((Array(items, 0), v))
      else if tag == 'o' then
        match ReadCount(t)
        case None => None
        case Some((n, u)) =>
          match ReadMembers(u, n, None)
          case None => None
          case Some((ms, v)) => Some((Object(ms, 0), v))
      else None
  }

  ghost function ReadItems(s: Bytes, n: nat): (r: Option<(seq<Node>, Bytes)>)
    ensures r.Some? ==> |r.value.1| <= |s|
    decreases |s|, 1
  {
    if n == 0 then Some(([], s))
    else
      match ReadE(s)
      case None => None
      case Some((x, t)) =>
        match ReadItems(t, n - 1)
        case None => None
        case Some((rest, u)) => Some(([x] + rest, u))
  }

  /** n members, the first with a key after the given one. */
  ghost function ReadMembers(s: Bytes, n: nat, after: Option<Bytes>): (r: Option<(seq<Member>, Bytes)>)
    ensures r.Some? ==> |r.value.1| <= |s|
    decreases |s|, 1
  {
    if n == 0 then Some(([], s))
    else if s == [] || s[0] as char != 's' then None
    else
      match ReadL(s[1..])
      case None => None
      case Some((key, t)) =>
        if after.Some? && !Precedes(after.value, key) then None
        else
          match ReadE(t)
          case None => None
          case Some((x, u)) =>
            match ReadMembers(u, n - 1, Some(key))
            case None => None
            case Some((rest, v)) => Some(([Member(key, x)] + rest, v))
  }

  /** At every level keys go strictly upwards. */
  ghost predicate InOrder(n: Node)
    decreases n
  {
    && (n.Array? ==> forall x :: x in n.items ==> InOrder(x))
    && (n.Object? ==> forall m :: m in n.members ==> InOrder(m.value))
    && (n.Object? ==> KeysAscend(n.members))
  }

  ghost predicate KeysAscend(ms: seq<Member>) {
    forall i, j :: 0 <= i < j < |ms| ==> Precedes(ms[i].key, ms[j].key)
  }

  // Reading back

  lemma CountReads(n: nat, x: Bytes)
    requires n < WIDTH
    ensures ReadCount(U32(n) + x) == Some((n, x))
  {
    U32Digits(n);
    hide U32;
    assert (U32(n) + x)[4..] == x;
  }

  lemma LReads(b: Bytes, x: Bytes)
    requires |b| < WIDTH
    ensures ReadL(L(b) + x) == Some((b, x))
  {
    hide U32, ReadCount;
    CountReads(|b|, b + x);
    assert L(b) + x == U32(|b|) + (b + x);
    assert (b + x)[..|b|] == b && (b + x)[|b|..] == x;
  }

  lemma CharsPrecede(a: Bytes, b: Bytes)
    requires Text.Less(Chars(a), Chars(b))
    ensures Precedes(a, b)
  {
    var s, t := Chars(a), Chars(b);
    assert |s| == |a| && |t| == |b|;
    assert forall i :: 0 <= i < |a| ==> a[i] == s[i] as int;
    assert forall i :: 0 <= i < |b| ==> b[i] == t[i] as int;
    if s < t {
      assert forall i :: 0 <= i < |a| ==> s[i] == t[i];
      assert a < b;
    } else {
      var i :| 0 <= i < |s| && i < |t| && s[..i] == t[..i] && s[i] < t[i];
      assert forall j :: 0 <= j < i ==> s[..i][j] == s[j] && t[..i][j] == t[j];
      assert a[..i] == b[..i];
    }
  }

  lemma DistinctStays(ms: seq<Member>, sorted: seq<Member>)
    requires DistinctKeys(ms) && multiset(ms) == multiset(sorted)
    ensures DistinctKeys(sorted)
  {
    Permuted(ms, sorted);
    assert NoRepeat(ms);
    forall i, j | 0 <= i < j < |sorted|
      ensures sorted[i].key != sorted[j].key
    {
      SameKeySameMember(ms, sorted[i], sorted[j]);
      CountOnce(ms, sorted[i]);
      if sorted[i] == sorted[j] {
        CountTwice(sorted, i, j);
      }
    }
  }

  /** The members in the order in which they are encoded. */
  lemma SortedMembers(ms: seq<Member>) returns (sorted: seq<Member>)
    requires DistinctKeys(ms)
    ensures multiset(sorted) == multiset(ms) && |sorted| == |ms| && KeysAscend(sorted)
    ensures SortWith(PieceKey, Pieces(ms)) == Pieces(sorted)
  {
    sorted := SortWith(MemberKey, ms);
    SortWithSorts(MemberKey, ms);
    SortedPieces(ms, sorted);
    Permuted(ms, sorted);
    DistinctStays(ms, sorted);
    hide SortWith, Pieces, PieceKey, SortedBy, Precedes, Text.Less, DistinctKeys;
    KeysDiffer(sorted);
    SortedIsAscending(MemberKey, sorted);
    forall i, j | 0 <= i < j < |sorted|
      ensures Precedes(sorted[i].key, sorted[j].key)
    {
      CharsPrecede(sorted[i].key, sorted[j].key);
    }
  }

  lemma KeysDiffer(ms: seq<Member>)
    requires DistinctKeys(ms)
    ensures forall i, j :: 0 <= i < j < |ms| ==> MemberKey(ms[i]) != MemberKey(ms[j])
  {
    hide Chars;
    forall i, j | 0 <= i < j < |ms|
      ensures MemberKey(ms[i]) != MemberKey(ms[j])
    {
      if MemberKey(ms[i]) == MemberKey(ms[j]) {
        CharsInjective(ms[i].key, ms[j].key);
      }
    }
  }

  /** Whatever is encoded is read back, up to the order of keys, which is then ascending; and what follows is left. */
  lemma {:induction false} EncodedIsRead(n: Node, x: Bytes) returns (m: Node)
    requires Fits(n)
    ensures ReadE(E(n) + x) == Some((m, x)) && Same(n, m) && InOrder(m)
    decreases n
  {
    if n.Array? {
      m := ArrayIsRead(n, x);
    } else if n.Object? {
      m := ObjectIsRead(n, x);
    } else {
      m := ScalarIsRead(n, x);
    }
  }

  lemma ScalarIsRead(n: Node, x: Bytes) returns (m: Node)
    requires Fits(n) && !n.Array? && !n.Object?
    ensures ReadE(E(n) + x) == Some((m, x)) && Same(n, m) && InOrder(m)
  {
    hide L, ReadL, ReadItems, ReadMembers, ReadCount;
    m := if n.Null? then Null(0) else if n.Bool? then Bool(n.b, 0) else if n.Number? then Number(n.literal, 0) else Str(n.s, 0);
    if n.Number? || n.Str? {
      var s := if n.Number? then n.literal else n.s;
      assert (E(n) + x)[1..] == L(s) + x;
      LReads(s, x);
    } else {
      assert (E(n) + x)[1..] == x;
    }
  }

  lemma {:induction false} ArrayIsRead(n: Node, x: Bytes) returns (m: Node)
    requires Fits(n) && n.Array?
    ensures ReadE(E(n) + x) == Some((m, x)) && Same(n, m) && InOrder(m)
    decreases n, 0
  {
    assert forall i :: i in n.items ==> Fits(i);
    var read := ItemsAreRead(n, n.items, x);
    m := Array(read, 0);
    hide EItems, ReadItems, ReadE, Fits, E;
    FitsCount(n);
    ArrayReads(n, read, x);
    ItemsAreSame(n, m);
  }

  lemma ArrayReads(n: Node, read: seq<Node>, x: Bytes)
    requires n.Array? && |n.items| < WIDTH && ReadItems(EItems(n.items) + x, |n.items|) == Some((read, x))
    ensures ReadE(E(n) + x) == Some((Array(read, 0), x))
  {
    hide U32, EItems, ReadCount, ReadItems;
    assert (E(n) + x)[1..] == U32(|n.items|) + (EItems(n.items) + x);
    CountReads(|n.items|, EItems(n.items) + x);
  }

  lemma ItemsAreSame(n: Node, m: Node)
    requires n.Array? && m.Array? && |m.items| == |n.items|
    requires forall i :: 0 <= i < |n.items| ==> Same(n.items[i], m.items[i]) && InOrder(m.items[i])
    ensures Same(n, m) && InOrder(m)
  {
  }

  lemma FitsCount(n: Node)
    requires Fits(n)
    ensures (n.Array? ==> |n.items| < WIDTH) && (n.Object? ==> |n.members| < WIDTH && DistinctKeys(n.members))
  {
  }

  lemma {:induction false} ItemsAreRead(n: Node, items: seq<Node>, x: Bytes) returns (read: seq<Node>)
    requires n.Array? && forall i :: i in items ==> i in n.items && Fits(i)
    ensures ReadItems(EItems(items) + x, |items|) == Some((read, x)) && |read| == |items|
    ensures forall i :: 0 <= i < |items| ==> Same(items[i], read[i]) && InOrder(read[i])
    decreases n, 0, |items|
  {
    hide E, ReadE, Same, InOrder, Fits;
    if items == [] {
      read := [];
      assert EItems(items) + x == x;
    } else {
      assert items[0] in items && items[0] in n.items;
      var first := EncodedIsRead(items[0], EItems(items[1..]) + x);
      var rest := ItemsAreRead(n, items[1..], x);
      read := [first] + rest;
      assert EItems(items) + x == E(items[0]) + (EItems(items[1..]) + x);
    }
  }

  lemma {:induction false} ObjectIsRead(n: Node, x: Bytes) returns (m: Node)
    requires Fits(n) && n.Object?
    ensures ReadE(E(n) + x) == Some((m, x)) && Same(n, m) && InOrder(m)
    decreases n, 1
  {
    FitsCount(n);
    var sorted := SortedMembers(n.members);
    Permuted(n.members, sorted);
    var read := MembersAreRead(n, sorted, x, None);
    m := Object(read, 0);
    hide U32, Flatten, SortWith, Pieces, ReadE, ReadCount, ReadMembers, Fits, DistinctKeys, Same, InOrder, KeysAscend, ReadFrom, E;
    ObjectBytes(n, sorted);
    ObjectReads(n, Flatten(Pieces(sorted)), |sorted|, read, x);
    ReadIsSame(n, sorted, m);
  }

  lemma ObjectBytes(n: Node, sorted: seq<Member>)
    requires n.Object? && SortWith(PieceKey, Pieces(n.members)) == Pieces(sorted)
    ensures E(n) == [0x6F] + (U32(|n.members|) + Flatten(Pieces(sorted)))
  {
    hide U32, Flatten, SortWith, Pieces;
  }

  lemma ObjectReads(n: Node, flat: Bytes, k: nat, read: seq<Member>, x: Bytes)
    requires n.Object? && k < WIDTH && E(n) == [0x6F] + (U32(k) + flat) && ReadMembers(flat + x, k, None) == Some((read, x))
    ensures ReadE(E(n) + x) == Some((Object(read, 0), x))
  {
    hide E, U32, ReadCount, ReadMembers;
    var s := E(n) + x;
    assert s[0] == 0x6F && s[1..] == U32(k) + (flat + x);
    CountReads(k, flat + x);
  }

  /** m holds, at each place, what was read for the member of sorted there. */
  ghost predicate ReadFrom(sorted: seq<Member>, ms: seq<Member>) {
    && |ms| == |sorted|
    && forall i :: 0 <= i < |sorted| ==>
      ms[i].key == sorted[i].key && Same(sorted[i].value, ms[i].value) && InOrder(ms[i].value)
  }

  lemma ReadIsSame(n: Node, sorted: seq<Member>, m: Node)
    requires n.Object? && m.Object? && (forall k :: k in sorted <==> k in n.members)
    requires ReadFrom(sorted, m.members) && KeysAscend(sorted)
    ensures Same(n, m) && InOrder(m)
  {
    hide ReadFrom, MembersMatch, MembersMatched, KeysAscend;
    ReadMatches(n, sorted, m);
    ReadIsMatched(n, sorted, m);
    ReadIsInOrder(sorted, m.members);
  }

  lemma ReadMatches(n: Node, sorted: seq<Member>, m: Node)
    requires n.Object? && m.Object? && (forall k :: k in sorted <==> k in n.members) && ReadFrom(sorted, m.members)
    ensures MembersMatch(n, m)
  {
    hide Same, InOrder;
    forall k | k in n.members
      ensures exists j :: j in m.members && j.key == k.key && Same(k.value, j.value)
    {
      var i :| 0 <= i < |sorted| && sorted[i] == k;
      assert m.members[i] in m.members;
    }
  }

  lemma ReadIsMatched(n: Node, sorted: seq<Member>, m: Node)
    requires n.Object? && m.Object? && (forall k :: k in sorted <==> k in n.members) && ReadFrom(sorted, m.members)
    ensures MembersMatched(n, m)
  {
    hide Same, InOrder;
    forall j | j in m.members
      ensures exists k :: k in n.members && j.key == k.key && Same(k.value, j.value)
    {
      var i :| 0 <= i < |m.members| && m.members[i] == j;
      assert sorted[i] in n.members;
    }
  }

  lemma ReadIsInOrder(sorted: seq<Member>, ms: seq<Member>)
    requires ReadFrom(sorted, ms) && KeysAscend(sorted)
    ensures KeysAscend(ms) && forall m :: m in ms ==> InOrder(m.value)
  {
    hide Same, InOrder, Precedes;
  }

  lemma {:induction false} MembersAreRead(n: Node, ms: seq<Member>, x: Bytes, after: Option<Bytes>) returns (read: seq<Member>)
    requires Fits(n) && n.Object? && (forall m :: m in ms ==> m in n.members) && KeysAscend(ms)
    requires after.Some? && ms != [] ==> Precedes(after.value, ms[0].key)
    ensures ReadMembers(Flatten(Pieces(ms)) + x, |ms|, after) == Some((read, x)) && ReadFrom(ms, read)
    decreases n, 0, |ms|
  {
    hide E, ReadE, Same, InOrder, L, ReadL, Precedes, DistinctKeys;
    if ms == [] {
      read := [];
      assert Flatten(Pieces(ms)) + x == x;
    } else {
      var m, rest := ms[0], ms[1..];
      assert m in n.members && Fits(m.value) && |m.key| < WIDTH;
      var more := Flatten(Pieces(rest)) + x;
      var value := EncodedIsRead(m.value, more);
      var later := MembersAreRead(n, rest, x, Some(m.key));
      read := [Member(m.key, value)] + later;
      hide Fits;
      FirstPiece(ms, x);
      LReads(m.key, E(m.value) + more);
    }
  }

  lemma FirstPiece(ms: seq<Member>, x: Bytes)
    requires ms != []
    ensures var s, more := Flatten(Pieces(ms)) + x, Flatten(Pieces(ms[1..])) + x;
      s != [] && s[0] == 0x73 && s[1..] == L(ms[0].key) + (E(ms[0].value) + more)
  {
    var rest := Flatten(Pieces(ms[1..]));
    FlattenFirst(ms);
    hide E, L, Pieces, Flatten;
    Tagged(0x73, L(ms[0].key), E(ms[0].value), rest, x);
  }

  lemma FlattenFirst(ms: seq<Member>)
    requires ms != []
    ensures Flatten(Pieces(ms)) == [0x73] + L(ms[0].key) + E(ms[0].value) + Flatten(Pieces(ms[1..]))
  {
    hide E, L;
    var p := PieceOf(ms[0]);
    assert Pieces(ms) == [p] + Pieces(ms[1..]) && ([p] + Pieces(ms[1..]))[1..] == Pieces(ms[1..]);
  }

  lemma Tagged(tag: Byte, a: Bytes, b: Bytes, c: Bytes, x: Bytes)
    ensures var s := [tag] + a + b + c + x; s != [] && s[0] == tag && s[1..] == a + (b + (c + x))
  {
    Assoc([tag] + a + b, c, x);
    Assoc([tag] + a, b, c + x);
    Assoc([tag], a, b + (c + x));
  }
}
