/**
 * The E encoding of internal/roleprotocol/encoding.go: a tag, then either
 * length-prefixed bytes or a count and the parts; object members in the order
 * of their keys.
 */
module EncodingE {
  import opened Wrappers
  import opened Bytes
  import opened JsonSpec
  import opened Sorting
  import Text

  const WIDTH := 0x1_0000_0000

  /** appendU32: the low 32 bits, big-endian. */
  function U32(n: nat): (r: Bytes)
    ensures |r| == 4
  {
    [n / 0x100_0000 % 0x100, n / 0x1_0000 % 0x100, n / 0x100 % 0x100, n % 0x100]
  }

  lemma U32Injective(m: nat, n: nat)
    requires m < WIDTH && n < WIDTH && U32(m) == U32(n)
    ensures m == n
  {
    U32Digits(m);
    U32Digits(n);
  }

  lemma U32Digits(n: nat)
    requires n < WIDTH
    ensures var d := U32(n); n == ((d[0] as int * 0x100 + d[1] as int) * 0x100 + d[2] as int) * 0x100 + d[3] as int
  {
    assert n / 0x100_0000 < 0x100;
    assert n / 0x1_0000 == n / 0x100_0000 * 0x100 + n / 0x1_0000 % 0x100;
    assert n / 0x100 == n / 0x1_0000 * 0x100 + n / 0x100 % 0x100;
  }

  /** appendL. */
  function L(s: Bytes): Bytes {
    U32(|s|) + s
  }

  /** A length prefix tells where the bytes end. */
  lemma LDecodes(a: Bytes, x: Bytes, b: Bytes, y: Bytes)
    requires |a| < WIDTH && |b| < WIDTH && L(a) + x == L(b) + y
    ensures a == b && x == y
  {
    hide U32;
    assert L(a) + x == U32(|a|) + (a + x) && L(b) + y == U32(|b|) + (b + y);
    CountDecodes(|a|, a + x, |b|, b + y);
    assert a == (a + x)[..|a|] && x == (a + x)[|a|..];
    assert b == (b + y)[..|a|] && y == (b + y)[|a|..];
  }

  lemma CountDecodes(m: nat, x: Bytes, n: nat, y: Bytes)
    requires m < WIDTH && n < WIDTH && U32(m) + x == U32(n) + y
    ensures m == n && x == y
  {
    hide U32;
    assert (U32(m) + x)[..4] == U32(m) && (U32(m) + x)[4..] == x;
    assert (U32(n) + y)[..4] == U32(n) && (U32(n) + y)[4..] == y;
    U32Injective(m, n);
  }

  // Integers

  function Decimal(v: nat): (s: Bytes)
    ensures s != [] && forall i :: 0 <= i < |s| ==> IsDigit(s[i])
  {
    if v < 10 then [0x30 + v] else Decimal(v / 10) + [0x30 + v % 10]
  }

  /** strconv.ParseUint in base 10 on digits, without its range check. */
  function Read(s: Bytes): nat
    requires forall i :: 0 <= i < |s| ==> IsDigit(s[i])
  {
    if s == [] then 0
    else
      var d := s[|s| - 1];
      assert IsDigit(d);
      Read(s[..|s| - 1]) * 10 + (d as int - 0x30)
  }

  function Uint32Literal(s: Bytes): Option<nat> {
    if s == [] || (|s| > 1 && s[0] == 0x30) then None
    else if exists i :: 0 <= i < |s| && !IsDigit(s[i]) then None
    else if Read(s) >= WIDTH then None
    else Some(Read(s))
  }

  lemma {:induction false} ReadDecimal(v: nat)
    ensures Read(Decimal(v)) == v && (|Decimal(v)| > 1 ==> Decimal(v)[0] != 0x30) && (v > 0 ==> Decimal(v)[0] != 0x30)
  {
    if v >= 10 {
      ReadDecimal(v / 10);
      var s := Decimal(v);
      assert s[..|s| - 1] == Decimal(v / 10);
    } else {
      assert Decimal(v)[..0] == [];
    }
  }

  lemma DecimalSnoc(v: nat, d: nat)
    requires v > 0 && d < 10
    ensures Decimal(v * 10 + d) == Decimal(v) + [0x30 + d]
  {
    assert (v * 10 + d) / 10 == v && (v * 10 + d) % 10 == d;
  }

  lemma DigitAlone(d: nat)
    requires d < 10
    ensures Decimal(d) == [0x30 + d] && Read([0x30 + d]) == d
  {
    assert [0x30 + d][..0] == [];
  }

  lemma {:induction false} DecimalRead(s: Bytes)
    requires s != [] && (forall i :: 0 <= i < |s| ==> IsDigit(s[i])) && (|s| > 1 ==> s[0] != 0x30)
    ensures Decimal(Read(s)) == s && (|s| > 1 ==> Read(s) >= 10)
  {
    hide Decimal;
    var t, d := s[..|s| - 1], s[|s| - 1] as int - 0x30;
    assert s == t + [0x30 + d];
    if t == [] {
      DigitAlone(d);
    } else {
      DecimalRead(t);
      ReadPositive(t);
      DecimalSnoc(Read(t), d);
    }
  }

  lemma {:induction false} ReadPositive(s: Bytes)
    requires s != [] && (forall i :: 0 <= i < |s| ==> IsDigit(s[i])) && s[0] != 0x30
    ensures Read(s) > 0
  {
    if |s| > 1 {
      assert s[..|s| - 1][0] == s[0];
      ReadPositive(s[..|s| - 1]);
    }
  }

  /** Exactly the decimal spelling of an unsigned 32-bit integer is read, and as that integer. */
  lemma LiteralIsDecimal(s: Bytes, v: nat)
    ensures Uint32Literal(s) == Some(v) <==> v < WIDTH && s == Decimal(v)
  {
    ReadDecimal(v);
    if Uint32Literal(s) == Some(v) {
      DecimalRead(s);
    }
  }

  // Values

  /** Bytes as characters, so that the order of strings is the order of bytes. */
  function Chars(s: Bytes): string {
    seq(|s|, i requires 0 <= i < |s| => s[i] as char)
  }

  lemma CharsInjective(s: Bytes, t: Bytes)
    requires Chars(s) == Chars(t)
    ensures s == t
  {
    assert |Chars(s)| == |s| && |Chars(t)| == |t|;
    assert forall i :: 0 <= i < |s| ==> Chars(s)[i] == s[i] as char && Chars(t)[i] == t[i] as char;
  }

  /** What one member contributes: its key and its bytes. */
  datatype Piece = Piece(key: Bytes, bytes: Bytes)

  function PieceKey(p: Piece): string {
    Chars(p.key)
  }

  function E(n: Node): Bytes
    decreases n
  {
    match n
    case Null(_) => [0x6E]
    case Bool(b, _) => [if b then 0x74 else 0x66]
    case Number(literal, _) => [0x69] + L(literal)
    case Str(s, _) => [0x73] + L(s)
    case Array(items, _) => [0x61] + (U32(|items|) + EItems(items))
    case Object(ms, _) => [0x6F] + (U32(|ms|) + Flatten(SortWith(PieceKey, Pieces(ms))))
  }

  function EItems(items: seq<Node>): Bytes
    decreases items
  {
    if items == [] then [] else E(items[0]) + EItems(items[1..])
  }

  function PieceOf(m: Member): Piece
    decreases m
  {
    Piece(m.key, [0x73] + L(m.key) + E(m.value))
  }

  function Pieces(ms: seq<Member>): (ps: seq<Piece>)
    ensures |ps| == |ms| && forall i :: 0 <= i < |ms| ==> ps[i] == PieceOf(ms[i])
    decreases ms
  {
    if ms == [] then [] else [PieceOf(ms[0])] + Pieces(ms[1..])
  }

  function Flatten(ps: seq<Piece>): Bytes {
    if ps == [] then [] else ps[0].bytes + Flatten(ps[1..])
  }

  /** encodeE refuses a number that is no canonical unsigned 32-bit integer. */
  predicate Encodable(n: Node)
    decreases n
  {
    && (n.Number? ==> Uint32Literal(n.literal).Some?)
    && (n.Array? ==> forall x :: x in n.items ==> Encodable(x))
    && (n.Object? ==> forall m :: m in n.members ==> Encodable(m.value))
  }

  /** Every length and count fits in 32 bits, and no object repeats a key. */
  predicate Fits(n: Node)
    decreases n
  {
    && (n.Number? ==> |n.literal| < WIDTH)
    && (n.Str? ==> |n.s| < WIDTH)
    && (n.Array? ==> |n.items| < WIDTH && forall x :: x in n.items ==> Fits(x))
    && (n.Object? ==> |n.members| < WIDTH && DistinctKeys(n.members))
    && (n.Object? ==> forall m :: m in n.members ==> |m.key| < WIDTH && Fits(m.value))
  }

  predicate DistinctKeys(ms: seq<Member>) {
    forall i, j :: 0 <= i < j < |ms| ==> ms[i].key != ms[j].key
  }

  /** Equal up to the order of object keys (and up to the sizes, which are not part of the value). */
  predicate Same(a: Node, b: Node)
    decreases a, 1
  {
    || (a.Null? && b.Null?)
    || (a.Bool? && b.Bool? && a.b == b.b)
    || (a.Number? && b.Number? && a.literal == b.literal)
    || (a.Str? && b.Str? && a.s == b.s)
    || (a.Array? && b.Array? && ItemsSame(a, b))
    || (a.Object? && b.Object? && MembersMatch(a, b) && MembersMatched(a, b))
  }

  predicate ItemsSame(a: Node, b: Node)
    requires a.Array? && b.Array?
    decreases a, 0
  {
    |a.items| == |b.items| && forall i :: 0 <= i < |a.items| ==> Same(a.items[i], b.items[i])
  }

  /** Every member of a has a partner in b. */
  predicate MembersMatch(a: Node, b: Node)
    requires a.Object? && b.Object?
    decreases a, 0
  {
    forall m :: m in a.members ==> exists k :: k in b.members && k.key == m.key && Same(m.value, k.value)
  }

  /** Every member of b has a partner in a. */
  predicate MembersMatched(a: Node, b: Node)
    requires a.Object? && b.Object?
    decreases a, 0
  {
    forall k :: k in b.members ==> exists m :: m in a.members && k.key == m.key && Same(m.value, k.value)
  }

  // Unique decodability

  ghost predicate FromMember(p: Piece, ms: seq<Member>) {
    exists m :: m in ms && p == PieceOf(m)
  }

  lemma PiecesAre(ms: seq<Member>, p: Piece)
    ensures p in Pieces(ms) <==> FromMember(p, ms)
  {
    hide PieceOf;
    if FromMember(p, ms) {
      var m :| m in ms && p == PieceOf(m);
      var i :| 0 <= i < |ms| && ms[i] == m;
      assert Pieces(ms)[i] == PieceOf(m);
    }
    if p in Pieces(ms) {
      var i :| 0 <= i < |ms| && Pieces(ms)[i] == p;
      assert ms[i] in ms && p == PieceOf(ms[i]);
    }
  }

  /** The pieces of an object in order are those of its members. */
  lemma PiecesSorted(ms: seq<Member>, ps: seq<Piece>)
    requires ps == SortWith(PieceKey, Pieces(ms))
    ensures |ps| == |ms|
    ensures forall p :: p in ps <==> FromMember(p, ms)
  {
    hide SortedBy, SortWith, PieceOf, FromMember, Pieces;
    SortWithSorts(PieceKey, Pieces(ms));
    Permuted(Pieces(ms), ps);
    forall p
      ensures p in ps <==> FromMember(p, ms)
    {
      PiecesAre(ms, p);
    }
  }

  /** The bytes tell the tag apart. */
  lemma TagsAgree(a: Node, x: Bytes, b: Node, y: Bytes)
    requires E(a) + x == E(b) + y
    ensures a.Null? == b.Null? && a.Bool? == b.Bool? && a.Number? == b.Number? && a.Str? == b.Str?
    ensures a.Array? == b.Array? && a.Object? == b.Object?
  {
    hide L, U32, EItems, Flatten, SortWith, Pieces;
    assert (E(a) + x)[0] == E(a)[0] && (E(b) + y)[0] == E(b)[0];
  }

  lemma DropTag(t: Byte, a: Bytes, x: Bytes, b: Bytes, y: Bytes)
    requires [t] + a + x == [t] + b + y
    ensures a + x == b + y
  {
    assert ([t] + a + x)[1..] == a + x && ([t] + b + y)[1..] == b + y;
  }

  /** Values whose encodings begin the same bytes are the same, and end at the same place. */
  lemma {:induction false} Decodable(a: Node, x: Bytes, b: Node, y: Bytes)
    requires Fits(a) && Fits(b) && E(a) + x == E(b) + y
    ensures Same(a, b) && x == y
    decreases a
  {
    TagsAgree(a, x, b, y);
    hide L, U32, EItems, Flatten, SortWith, Pieces;
    match a
    case Null(_) =>
      assert (E(a) + x)[1..] == x && (E(b) + y)[1..] == y;
    case Bool(v, _) =>
      assert (E(a) + x)[0] == E(a)[0] && (E(b) + y)[0] == E(b)[0];
      assert (E(a) + x)[1..] == x && (E(b) + y)[1..] == y;
    case Number(s, _) =>
      DropTag(0x69, L(s), x, L(b.literal), y);
      LDecodes(s, x, b.literal, y);
    case Str(s, _) =>
      DropTag(0x73, L(s), x, L(b.s), y);
      LDecodes(s, x, b.s, y);
    case Array(items, _) =>
      ArraysDecode(a, x, b, y);
    case Object(ms, _) =>
      ObjectsDecode(a, x, b, y);
  }

  lemma CountedDecodes(t: Byte, m: nat, a: Bytes, x: Bytes, n: nat, b: Bytes, y: Bytes)
    requires m < WIDTH && n < WIDTH && [t] + (U32(m) + a) + x == [t] + (U32(n) + b) + y
    ensures m == n && a + x == b + y
  {
    DropTag(t, U32(m) + a, x, U32(n) + b, y);
    hide U32;
    Assoc(U32(m), a, x);
    Assoc(U32(n), b, y);
    CountDecodes(m, a + x, n, b + y);
  }

  lemma {:induction false} ArraysDecode(a: Node, x: Bytes, b: Node, y: Bytes)
    requires a.Array? && b.Array? && Fits(a) && Fits(b) && E(a) + x == E(b) + y
    ensures Same(a, b) && x == y
    decreases a, 0, 1
  {
    hide U32, EItems;
    CountedDecodes(0x61, |a.items|, EItems(a.items), x, |b.items|, EItems(b.items), y);
    ItemsDecode(a, a.items, x, b.items, y);
  }

  lemma {:induction false} ItemsDecode(a: Node, s: seq<Node>, x: Bytes, t: seq<Node>, y: Bytes)
    requires a.Array? && (forall n :: n in s ==> n in a.items && Fits(n)) && (forall n :: n in t ==> Fits(n))
    requires |s| == |t| && EItems(s) + x == EItems(t) + y
    ensures x == y && forall i :: 0 <= i < |s| ==> Same(s[i], t[i])
    decreases a, 0, 0, |s|
  {
    hide E, Same, Fits;
    if s == [] {
      assert EItems(s) + x == x && EItems(t) + y == y;
    } else {
      Assoc(E(s[0]), EItems(s[1..]), x);
      Assoc(E(t[0]), EItems(t[1..]), y);
      assert s[0] in a.items && s[0] < a;
      Decodable(s[0], EItems(s[1..]) + x, t[0], EItems(t[1..]) + y);
      ItemsDecode(a, s[1..], x, t[1..], y);
    }
  }

  lemma {:induction false} ObjectsDecode(a: Node, x: Bytes, b: Node, y: Bytes)
    requires a.Object? && b.Object? && Fits(a) && Fits(b) && E(a) + x == E(b) + y
    ensures Same(a, b) && x == y
    decreases a, 0, 1
  {
    var ps, qs := SortWith(PieceKey, Pieces(a.members)), SortWith(PieceKey, Pieces(b.members));
    PiecesSorted(a.members, ps);
    PiecesSorted(b.members, qs);
    hide U32, Flatten, SortWith, Pieces, PieceOf, SortedBy;
    CountedDecodes(0x6F, |a.members|, Flatten(ps), x, |b.members|, Flatten(qs), y);
    PiecesDecode(a, ps, x, b, qs, y);
    MatchingIsSame(a, b, ps, qs);
  }

  /** p and q come from members of a and b with the same key and the same value. */
  ghost predicate Matching(a: Node, p: Piece, b: Node, q: Piece)
    requires a.Object? && b.Object?
  {
    exists m, k :: m in a.members && k in b.members && p == PieceOf(m) && q == PieceOf(k) && m.key == k.key && Same(m.value, k.value)
  }

  lemma {:induction false} PiecesDecode(a: Node, ps: seq<Piece>, x: Bytes, b: Node, qs: seq<Piece>, y: Bytes)
    requires a.Object? && b.Object? && Fits(a) && Fits(b)
    requires (forall p :: p in ps ==> FromMember(p, a.members)) && (forall q :: q in qs ==> FromMember(q, b.members))
    requires |ps| == |qs| && Flatten(ps) + x == Flatten(qs) + y
    ensures x == y && forall i :: 0 <= i < |ps| ==> Matching(a, ps[i], b, qs[i])
    decreases a, 0, 0, |ps|
  {
    hide PieceOf;
    if ps == [] {
      assert Flatten(ps) + x == x && Flatten(qs) + y == y;
    } else {
      var p, q := ps[0], qs[0];
      assert FromMember(p, a.members) && FromMember(q, b.members);
      var m :| m in a.members && p == PieceOf(m);
      var k :| k in b.members && q == PieceOf(k);
      Assoc(p.bytes, Flatten(ps[1..]), x);
      Assoc(q.bytes, Flatten(qs[1..]), y);
      MemberDecodes(a, m, Flatten(ps[1..]) + x, b, k, Flatten(qs[1..]) + y);
      assert Matching(a, p, b, q);
      hide Matching, Fits, FromMember;
      PiecesDecode(a, ps[1..], x, b, qs[1..], y);
    }
  }

  lemma {:induction false} MemberDecodes(a: Node, m: Member, x: Bytes, b: Node, k: Member, y: Bytes)
    requires a.Object? && b.Object? && m in a.members && k in b.members && Fits(a) && Fits(b)
    requires PieceOf(m).bytes + x == PieceOf(k).bytes + y
    ensures m.key == k.key && Same(m.value, k.value) && x == y
    decreases a, 0, 0, 0
  {
    assert Fits(m.value) && Fits(k.value) && |m.key| < WIDTH && |k.key| < WIDTH;
    hide L, E, Same, Fits;
    assert PieceOf(m).bytes + x == [0x73] + L(m.key) + (E(m.value) + x);
    assert PieceOf(k).bytes + y == [0x73] + L(k.key) + (E(k.value) + y);
    DropTag(0x73, L(m.key), E(m.value) + x, L(k.key), E(k.value) + y);
    LDecodes(m.key, E(m.value) + x, k.key, E(k.value) + y);
    Decodable(m.value, x, k.value, y);
  }

  lemma SameMember(ms: seq<Member>, m: Member, k: Member)
    requires DistinctKeys(ms) && m in ms && k in ms && m.key == k.key
    ensures m == k
  {
  }

  lemma MatchesForward(a: Node, b: Node, ps: seq<Piece>, qs: seq<Piece>, m: Member) returns (k: Member)
    requires a.Object? && b.Object? && DistinctKeys(a.members) && |ps| == |qs| && m in a.members && PieceOf(m) in ps
    requires forall i :: 0 <= i < |ps| ==> Matching(a, ps[i], b, qs[i])
    ensures k in b.members && k.key == m.key && Same(m.value, k.value)
  {
    hide Same, DistinctKeys, PieceOf;
    var i :| 0 <= i < |ps| && ps[i] == PieceOf(m);
    assert Matching(a, ps[i], b, qs[i]);
    var m', k' :| m' in a.members && k' in b.members && ps[i] == PieceOf(m') && qs[i] == PieceOf(k') && m'.key == k'.key && Same(m'.value, k'.value);
    PieceHasKey(m);
    PieceHasKey(m');
    SameMember(a.members, m, m');
    k := k';
  }

  lemma MatchesBackward(a: Node, b: Node, ps: seq<Piece>, qs: seq<Piece>, k: Member) returns (m: Member)
    requires a.Object? && b.Object? && DistinctKeys(b.members) && |ps| == |qs| && k in b.members && PieceOf(k) in qs
    requires forall i :: 0 <= i < |ps| ==> Matching(a, ps[i], b, qs[i])
    ensures m in a.members && k.key == m.key && Same(m.value, k.value)
  {
    hide Same, DistinctKeys, PieceOf;
    var i :| 0 <= i < |qs| && qs[i] == PieceOf(k);
    assert Matching(a, ps[i], b, qs[i]);
    var m', k' :| m' in a.members && k' in b.members && ps[i] == PieceOf(m') && qs[i] == PieceOf(k') && m'.key == k'.key && Same(m'.value, k'.value);
    PieceHasKey(k);
    PieceHasKey(k');
    SameMember(b.members, k, k');
    m := m';
  }

  lemma PieceHasKey(m: Member)
    ensures PieceOf(m).key == m.key
  {
  }

  lemma MatchingIsSame(a: Node, b: Node, ps: seq<Piece>, qs: seq<Piece>)
    requires a.Object? && b.Object? && DistinctKeys(a.members) && DistinctKeys(b.members) && |ps| == |qs|
    requires (forall p :: FromMember(p, a.members) ==> p in ps) && (forall q :: FromMember(q, b.members) ==> q in qs)
    requires forall i :: 0 <= i < |ps| ==> Matching(a, ps[i], b, qs[i])
    ensures MembersMatch(a, b) && MembersMatched(a, b)
  {
    hide Same, Matching, DistinctKeys, PieceOf;
    forall m | m in a.members
      ensures exists k :: k in b.members && k.key == m.key && Same(m.value, k.value)
    {
      assert FromMember(PieceOf(m), a.members);
      var k := MatchesForward(a, b, ps, qs, m);
    }
    forall k | k in b.members
      ensures exists m :: m in a.members && k.key == m.key && Same(m.value, k.value)
    {
      assert FromMember(PieceOf(k), b.members);
      var m := MatchesBackward(a, b, ps, qs, k);
    }
  }

  // Independence of key order

  /** Equal values have one encoding, in whatever order their objects list the keys. */
  lemma {:induction false} SameEncodings(a: Node, b: Node)
    requires Fits(a) && Fits(b) && Same(a, b)
    ensures E(a) == E(b)
    decreases a
  {
    if a.Array? {
      hide U32, Fits;
      forall i | 0 <= i < |a.items|
        ensures E(a.items[i]) == E(b.items[i])
      {
        assert Fits(a.items[i]) && Fits(b.items[i]);
        SameEncodings(a.items[i], b.items[i]);
      }
      SameItems(a.items, b.items);
    } else if a.Object? {
      forall m, k | m in a.members && k in b.members && m.key == k.key && Same(m.value, k.value)
        ensures PieceOf(m) == PieceOf(k)
      {
        SameEncodings(m.value, k.value);
      }
      SamePieces(a, b);
    }
  }

  lemma {:induction false} SameItems(s: seq<Node>, t: seq<Node>)
    requires |s| == |t| && forall i :: 0 <= i < |s| ==> E(s[i]) == E(t[i])
    ensures EItems(s) == EItems(t)
  {
    hide E;
    if s != [] {
      SameItems(s[1..], t[1..]);
    }
  }

  lemma SameKeySameMember(ms: seq<Member>, m: Member, k: Member)
    requires DistinctKeys(ms) && m in ms && k in ms
    ensures m.key == k.key ==> m == k
  {
    var i :| 0 <= i < |ms| && ms[i] == m;
    var j :| 0 <= j < |ms| && ms[j] == k;
  }

  lemma PiecesDistinct(ms: seq<Member>)
    requires DistinctKeys(ms)
    ensures KeyDetermines(PieceKey, Pieces(ms)) && NoRepeat(Pieces(ms))
  {
    KeysOfPieces(ms);
    hide Pieces, PieceOf, Chars, DistinctKeys;
    forall p, q | p in Pieces(ms) && q in Pieces(ms) && PieceKey(p) == PieceKey(q)
      ensures p == q
    {
      CharsInjective(p.key, q.key);
      PiecesAre(ms, p);
      PiecesAre(ms, q);
      var m :| m in ms && p == PieceOf(m);
      var k :| k in ms && q == PieceOf(k);
      PieceHasKey(m);
      PieceHasKey(k);
      SameKeySameMember(ms, m, k);
    }
  }

  lemma KeysOfPieces(ms: seq<Member>)
    requires DistinctKeys(ms)
    ensures NoRepeat(Pieces(ms))
  {
    hide E, L;
    assert forall i :: 0 <= i < |ms| ==> Pieces(ms)[i].key == ms[i].key;
  }

  lemma SamePieces(a: Node, b: Node)
    requires a.Object? && b.Object? && MembersMatch(a, b) && MembersMatched(a, b) && DistinctKeys(a.members) && DistinctKeys(b.members)
    requires PartnersAgree(a, b)
    ensures E(a) == E(b)
  {
    var ps, qs := Pieces(a.members), Pieces(b.members);
    PiecesDistinct(a.members);
    PiecesDistinct(b.members);
    forall p
      ensures p in ps <==> p in qs
    {
      SamePiece(a, b, p);
    }
    hide PieceOf, Pieces, Same, MembersMatch, MembersMatched, DistinctKeys;
    DistinctMultisets(ps, qs);
    Permuted(ps, qs);
    SortWithSorts(PieceKey, ps);
    SortWithSorts(PieceKey, qs);
    SortsAgree(PieceKey, ps, qs, SortWith(PieceKey, ps), SortWith(PieceKey, qs));
  }

  lemma Partner(a: Node, b: Node, m: Member) returns (k: Member)
    requires a.Object? && b.Object? && MembersMatch(a, b) && m in a.members
    ensures k in b.members && k.key == m.key && Same(m.value, k.value)
  {
    hide Same;
    k :| k in b.members && k.key == m.key && Same(m.value, k.value);
  }

  lemma PartnerBack(a: Node, b: Node, k: Member) returns (m: Member)
    requires a.Object? && b.Object? && MembersMatched(a, b) && k in b.members
    ensures m in a.members && k.key == m.key && Same(m.value, k.value)
  {
    hide Same;
    m :| m in a.members && k.key == m.key && Same(m.value, k.value);
  }

  /** Partners contribute the same piece. */
  ghost predicate PartnersAgree(a: Node, b: Node)
    requires a.Object? && b.Object?
  {
    forall m, k :: m in a.members && k in b.members && m.key == k.key && Same(m.value, k.value) ==> PieceOf(m) == PieceOf(k)
  }

  lemma PieceForward(a: Node, b: Node, m: Member)
    requires a.Object? && b.Object? && MembersMatch(a, b) && PartnersAgree(a, b) && m in a.members
    ensures FromMember(PieceOf(m), b.members)
  {
    hide PieceOf, Same, MembersMatch;
    var k := Partner(a, b, m);
    assert PieceOf(m) == PieceOf(k);
  }

  lemma PieceBackward(a: Node, b: Node, k: Member)
    requires a.Object? && b.Object? && MembersMatched(a, b) && PartnersAgree(a, b) && k in b.members
    ensures FromMember(PieceOf(k), a.members)
  {
    hide PieceOf, Same, MembersMatched;
    var m := PartnerBack(a, b, k);
    assert PieceOf(m) == PieceOf(k);
  }

  lemma SamePiece(a: Node, b: Node, p: Piece)
    requires a.Object? && b.Object? && MembersMatch(a, b) && MembersMatched(a, b) && PartnersAgree(a, b)
    ensures p in Pieces(a.members) <==> p in Pieces(b.members)
  {
    hide PieceOf, Pieces, Same, MembersMatch, MembersMatched, PartnersAgree;
    PiecesAre(a.members, p);
    PiecesAre(b.members, p);
    if FromMember(p, a.members) {
      var m :| m in a.members && p == PieceOf(m);
      PieceForward(a, b, m);
    }
    if FromMember(p, b.members) {
      var k :| k in b.members && p == PieceOf(k);
      PieceBackward(a, b, k);
    }
  }

  /** The two directions together. */
  lemma EncodingDecides(a: Node, b: Node)
    requires Fits(a) && Fits(b)
    ensures E(a) == E(b) <==> Same(a, b)
  {
    if E(a) == E(b) {
      assert E(a) + [] == E(b) + [];
      Decodable(a, [], b, []);
    }
    if Same(a, b) {
      SameEncodings(a, b);
    }
  }

  // The loops of encodeE

  function MemberKey(m: Member): string {
    Chars(m.key)
  }

  /** No object repeats a key, as every parsed and every built value has it. */
  predicate Keyed(n: Node)
    decreases n
  {
    && (n.Array? ==> forall x :: x in n.items ==> Keyed(x))
    && (n.Object? ==> DistinctKeys(n.members) && forall m :: m in n.members ==> Keyed(m.value))
  }

  lemma SortedPieces(ms: seq<Member>, sorted: seq<Member>)
    requires DistinctKeys(ms) && SortOf(MemberKey, ms, sorted)
    ensures SortWith(PieceKey, Pieces(ms)) == Pieces(sorted)
  {
    PiecesDistinct(ms);
    MapMultiset(PieceOf, ms, sorted);
    assert Pieces(ms) == Map(PieceOf, ms) && Pieces(sorted) == Map(PieceOf, sorted);
    PiecesInOrder(sorted);
    hide Pieces, PieceOf, SortedBy, Map, SortWith, DistinctKeys, KeyDetermines;
    SortWithSorts(PieceKey, Pieces(ms));
    SortsAgree(PieceKey, Pieces(ms), Pieces(ms), SortWith(PieceKey, Pieces(ms)), Pieces(sorted));
  }

  lemma PiecesInOrder(sorted: seq<Member>)
    requires SortedBy(MemberKey, sorted)
    ensures SortedBy(PieceKey, Pieces(sorted))
  {
    hide E, L;
    var ps := Pieces(sorted);
    forall i, j | 0 <= i < j < |ps|
      ensures Text.Le(PieceKey(ps[i]), PieceKey(ps[j]))
    {
      assert PieceKey(ps[i]) == MemberKey(sorted[i]) && PieceKey(ps[j]) == MemberKey(sorted[j]);
    }
  }

  /** encodeE appends E of the value, or refuses. */
  method EncodeE(out: Bytes, n: Node) returns (r: Option<Bytes>)
    requires Keyed(n)
    ensures r == if Encodable(n) then Some(out + E(n)) else None
    decreases n
  {
    match n
    case Null(_) =>
      r := Some(out + [0x6E]);
    case Bool(b, _) =>
      r := Some(out + [if b then 0x74 else 0x66]);
    case Number(literal, _) =>
      if Uint32Literal(literal).None? { return None; }
      r := Some(out + [0x69] + L(literal));
      Assoc(out, [0x69], L(literal));
    case Str(s, _) =>
      r := Some(out + [0x73] + L(s));
      Assoc(out, [0x73], L(s));
    case Array(items, _) =>
      r := EncodeItems(out + [0x61] + U32(|items|), n);
      Assoc(out, [0x61], U32(|items|));
      Assoc(out, [0x61] + U32(|items|), EItems(items));
      Assoc([0x61], U32(|items|), EItems(items));
    case Object(ms, _) =>
      var sorted := SortBy(MemberKey, ms);
      SortedPieces(ms, sorted);
      Permuted(ms, sorted);
      r := EncodeMembers(out + [0x6F] + U32(|ms|), n, sorted);
      Assoc(out, [0x6F], U32(|ms|));
      Assoc(out, [0x6F] + U32(|ms|), Flatten(Pieces(sorted)));
      Assoc([0x6F], U32(|ms|), Flatten(Pieces(sorted)));
  }

  method EncodeItems(start: Bytes, n: Node) returns (r: Option<Bytes>)
    requires n.Array? && Keyed(n)
    ensures r == if Encodable(n) then Some(start + EItems(n.items)) else None
    decreases n, 0
  {
    hide E;
    var out := start;
    var items := n.items;
    for i := 0 to |items|
      invariant out + EItems(items[i..]) == start + EItems(items)
      invariant forall x :: x in items[..i] ==> Encodable(x)
    {
      assert items[i] in items;
      var next := EncodeE(out, items[i]);
      if next.None? { return None; }
      Assoc(out, E(items[i]), EItems(items[i + 1..]));
      assert items[i..][1..] == items[i + 1..];
      out := next.value;
    }
    assert items[..|items|] == items;
    assert out + [] == out;
    r := Some(out);
  }

  method EncodeMembers(start: Bytes, n: Node, sorted: seq<Member>) returns (r: Option<Bytes>)
    requires n.Object? && Keyed(n) && forall m :: m in sorted <==> m in n.members
    ensures r == if Encodable(n) then Some(start + Flatten(Pieces(sorted))) else None
    decreases n, 0
  {
    hide E, L, PieceOf, Pieces, Flatten, DistinctKeys;
    NoPieces();
    var out := start;
    for i := 0 to |sorted|
      invariant out + Flatten(Pieces(sorted[i..])) == start + Flatten(Pieces(sorted))
      invariant forall j :: 0 <= j < i ==> Encodable(sorted[j].value)
    {
      var m := sorted[i];
      assert m in n.members;
      var next := EncodeE(out + [0x73] + L(m.key), m.value);
      if next.None? { return None; }
      FlattenStep(sorted, i);
      PieceBytes(out, m);
      Assoc(out, PieceOf(m).bytes, Flatten(Pieces(sorted[i + 1..])));
      out := next.value;
    }
    assert out + [] == out;
    r := Some(out);
  }

  lemma NoPieces()
    ensures Flatten(Pieces([])) == []
  {
  }

  lemma PieceBytes(out: Bytes, m: Member)
    ensures out + PieceOf(m).bytes == out + [0x73] + L(m.key) + E(m.value)
  {
    hide E, L;
    Assoc(out, [0x73], L(m.key));
    Assoc(out, [0x73] + L(m.key), E(m.value));
  }

  lemma FlattenStep(ms: seq<Member>, i: nat)
    requires i < |ms|
    ensures Flatten(Pieces(ms[i..])) == PieceOf(ms[i]).bytes + Flatten(Pieces(ms[i + 1..]))
  {
    hide PieceOf;
    assert ms[i..][1..] == ms[i + 1..];
    assert Pieces(ms[i..])[1..] == Pieces(ms[i + 1..]);
  }
}
