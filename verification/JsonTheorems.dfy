/** The parser accepts exactly the spelled texts and answers exactly the denoted values. */
module JsonTheorems {
  import opened Wrappers
  import opened Bytes
  import opened JsonSpec
  import opened JsonGrammar
  import opened JsonAgreement

  // The productions of the parser, one at a time

  lemma CoreOfString(t: Bytes, str: Bytes, rest: Bytes, depth: nat)
    requires t != [] && t[0] == 0x22 && StrBody(t[1..]) == Some((str, rest))
    ensures Core(t, depth) == Some((Str(str, 0), rest))
  {
    hide NumberEnd, StrBody, JsonSpec.Items, JsonSpec.Members, Space;
  }

  lemma CoreOfArray(t: Bytes, depth: nat)
    requires t != [] && t[0] == 0x5B && Space(t[1..]) != [] && Space(t[1..])[0] != 0x5D
    ensures var r := JsonSpec.Items(t[1..], depth);
      Core(t, depth) == if r.None? then None else Some((Array(r.value.0, 0), r.value.1))
  {
    ItemsSkipSpace(t[1..], depth);
    hide NumberEnd, StrBody, JsonSpec.Items, JsonSpec.Members, Space;
  }

  lemma CoreOfObject(t: Bytes, depth: nat)
    requires t != [] && t[0] == 0x7B && Space(t[1..]) != [] && Space(t[1..])[0] != 0x7D
    ensures var r := JsonSpec.Members(t[1..], depth, {});
      Core(t, depth) == if r.None? then None else Some((Object(r.value.0, 0), r.value.1))
  {
    MembersSkipSpace(t[1..], depth, {});
    hide NumberEnd, StrBody, JsonSpec.Items, JsonSpec.Members, Space;
  }

  lemma ItemsSkipSpace(s: Bytes, depth: nat)
    ensures JsonSpec.Items(Space(s), depth) == JsonSpec.Items(s, depth)
  {
    assert Value(Space(s), depth + 1) == Value(s, depth + 1) by { hide Core; }
    hide Value;
  }

  lemma MembersSkipSpace(s: Bytes, depth: nat, seen: set<Bytes>)
    ensures JsonSpec.Members(Space(s), depth, seen) == JsonSpec.Members(s, depth, seen)
  {
    hide Value, StrBody;
    assert Space(Space(s)) == Space(s);
  }

  /** A value n is read at s, and t is what follows it after white space. */
  predicate ValueRead(s: Bytes, depth: nat, n: Node, t: Bytes) {
    var r := Value(s, depth);
    r.Some? && r.value.0 == n && Space(r.value.1) == t
  }

  /** Likewise for a member. */
  predicate MemberRead(s: Bytes, depth: nat, m: Member, t: Bytes) {
    var u := Space(s);
    && u != [] && u[0] == 0x22 && StrBody(u[1..]).Some? && StrBody(u[1..]).value.0 == m.key
    && var v := Space(StrBody(u[1..]).value.1);
       v != [] && v[0] == 0x3A && ValueRead(v[1..], depth, m.value, t)
  }

  lemma ItemsLast(s: Bytes, depth: nat, n: Node, rest: Bytes)
    requires ValueRead(s, depth + 1, n, [0x5D] + rest)
    ensures JsonSpec.Items(s, depth) == Some(([n], rest))
  {
    Front(0x5D, rest);
    hide Value, Space;
  }

  lemma ItemsMore(s: Bytes, depth: nat, n: Node, u: Bytes, ns: seq<Node>, rest: Bytes)
    requires ValueRead(s, depth + 1, n, [0x2C] + u) && JsonSpec.Items(u, depth) == Some((ns, rest))
    ensures JsonSpec.Items(s, depth) == Some(([n] + ns, rest))
  {
    Front(0x2C, u);
    hide Value, Space;
  }

  lemma MembersLast(s: Bytes, depth: nat, seen: set<Bytes>, m: Member, rest: Bytes)
    requires MemberRead(s, depth + 1, m, [0x7D] + rest) && m.key !in seen
    ensures JsonSpec.Members(s, depth, seen) == Some(([m], rest))
  {
    Front(0x7D, rest);
    hide Value, Space, StrBody;
  }

  lemma MembersMore(s: Bytes, depth: nat, seen: set<Bytes>, m: Member, u: Bytes, ms: seq<Member>, rest: Bytes)
    requires MemberRead(s, depth + 1, m, [0x2C] + u) && m.key !in seen
    requires JsonSpec.Members(u, depth, seen + {m.key}) == Some((ms, rest))
    ensures JsonSpec.Members(s, depth, seen) == Some(([m] + ms, rest))
  {
    Front(0x2C, u);
    hide Value, Space, StrBody;
  }

  // Every spelling is accepted and read as the value it denotes

  lemma FirstByte(c: Cst, depth: nat)
    requires CstOk(c, depth)
    ensures Spell(c) != [] && !IsSpace(Spell(c)[0]) && Spell(c)[0] != 0x5D && Spell(c)[0] != 0x7D
  {
    match c
    case Numeral(n) =>
      NumberStarts(n);
    case Quoted(cs) =>
    case _ =>
  }

  lemma AfterValue(after: Bytes, t: Bytes)
    requires IsWs(after) && t != [] && !IsSpace(t[0]) && Delimits(t)
    ensures Delimits(after + t) && Space(after + t) == t
  {
    SpaceSkips(after, t);
    assert after != [] ==> (after + t)[0] == after[0];
  }

  lemma SizeOfDenoted(c: Cst)
    ensures Denote(c).size == |Spell(c)|
  {
    hide Spell;
  }

  lemma OkIsShallow(c: Cst, depth: nat)
    requires CstOk(c, depth)
    ensures depth <= MAX_DEPTH
  {
  }

  lemma {:induction false} ValueComplete(ws: Bytes, c: Cst, rest: Bytes, depth: nat)
    requires IsWs(ws) && CstOk(c, depth) && Delimits(rest)
    ensures Value(ws + Spell(c) + rest, depth) == Some((Denote(c), rest))
    decreases c, 1
  {
    hide Core, Spell, Denote, CstOk, Space, Delimits, IsWs;
    OkIsShallow(c, depth);
    var t := Spell(c) + rest;
    CoreComplete(c, rest, depth);
    FirstByte(c, depth);
    assert t[0] == Spell(c)[0];
    SizeOfDenoted(c);
    SpaceSkips(ws, t);
    Assoc(ws, Spell(c), rest);
  }

  lemma {:induction false} CoreComplete(c: Cst, rest: Bytes, depth: nat)
    requires CstOk(c, depth) && Delimits(rest)
    ensures Core(Spell(c) + rest, depth) == Some((Sized(Denote(c), 0), rest))
    decreases c, 0
  {
    hide Core, SpellItems, SpellMembers, DenoteItems, DenoteMembers, ItemsOk, MembersOk, KeysFresh;
    hide SpellNum, SpellStr, StrBytes, NumOk, StrOk, Delimits;
    match c
    case LitTrue | LitFalse | LitNull =>
      WordComplete(c, rest, depth);
    case Numeral(n) =>
      NumeralComplete(n, rest, depth);
    case Quoted(cs) =>
      QuotedComplete(cs, rest, depth);
    case EmptyArray(ws) =>
      EmptyComplete(0x5B, ws, 0x5D, rest, depth);
    case EmptyObject(ws) =>
      EmptyComplete(0x7B, ws, 0x7D, rest, depth);
    case FullArray(items) =>
      ArrayComplete(items, rest, depth);
    case FullObject(members) =>
      ObjectComplete(members, rest, depth);
  }

  lemma {:induction false} ArrayComplete(items: JsonGrammar.Items, rest: Bytes, depth: nat)
    requires ItemsOk(items, depth + 1)
    ensures Core([0x5B] + SpellItems(items) + rest, depth) == Some((Array(DenoteItems(items), 0), rest))
    decreases items, 1
  {
    ItemsComplete(items, rest, depth);
    ItemsStart(items, rest, depth + 1);
    hide JsonSpec.Items, SpellItems, ItemsOk, DenoteItems, Core, Space;
    var u := SpellItems(items) + rest;
    assert [0x5B] + SpellItems(items) + rest == [0x5B] + u && ([0x5B] + u)[1..] == u;
    CoreOfArray([0x5B] + u, depth);
  }

  lemma {:induction false} ObjectComplete(members: JsonGrammar.Members, rest: Bytes, depth: nat)
    requires MembersOk(members, depth + 1) && KeysFresh(members, {})
    ensures Core([0x7B] + SpellMembers(members) + rest, depth) == Some((Object(DenoteMembers(members), 0), rest))
    decreases members, 1
  {
    MembersComplete(members, rest, depth, {});
    MembersStart(members, rest, depth + 1);
    hide JsonSpec.Members, SpellMembers, MembersOk, DenoteMembers, KeysFresh, Core, Space;
    var u := SpellMembers(members) + rest;
    assert [0x7B] + SpellMembers(members) + rest == [0x7B] + u && ([0x7B] + u)[1..] == u;
    CoreOfObject([0x7B] + u, depth);
  }

  lemma WordComplete(c: Cst, rest: Bytes, depth: nat)
    requires c.LitTrue? || c.LitFalse? || c.LitNull?
    ensures Core(Spell(c) + rest, depth) == Some((Sized(Denote(c), 0), rest))
  {
    var t := Spell(c) + rest;
    hide NumberEnd, StrBody, JsonSpec.Items, JsonSpec.Members, Space;
    assert t[|Spell(c)|..] == rest;
    assert Spell(c) <= t && t[0] == Spell(c)[0];
  }

  lemma NumeralComplete(n: Num, rest: Bytes, depth: nat)
    requires NumOk(n) && Delimits(rest)
    ensures Core(SpellNum(n) + rest, depth) == Some((Number(SpellNum(n), 0), rest))
  {
    var t := SpellNum(n) + rest;
    NumberComplete(n, rest);
    NumberStarts(n);
    hide SpellNum, NumberEnd, NumOk, Core;
    assert t[0] == SpellNum(n)[0];
    CoreOfNumber(t, depth);
    assert t[..|SpellNum(n)|] == SpellNum(n) && t[|SpellNum(n)|..] == rest;
  }

  lemma QuotedAt(cs: seq<Ch>, rest: Bytes)
    requires StrOk(cs)
    ensures var u := SpellStr(cs) + rest; u[0] == 0x22 && StrBody(u[1..]) == Some((StrBytes(cs), rest))
  {
    hide StrBody, SpellChars, StrBytes, StrOk;
    var body := SpellChars(cs) + [0x22] + rest;
    StrComplete(cs, rest);
    assert SpellStr(cs) + rest == [0x22] + body;
    assert ([0x22] + body)[1..] == body;
  }

  lemma QuotedComplete(cs: seq<Ch>, rest: Bytes, depth: nat)
    requires StrOk(cs)
    ensures Core(SpellStr(cs) + rest, depth) == Some((Str(StrBytes(cs), 0), rest))
  {
    QuotedAt(cs, rest);
    hide StrBody, SpellStr, StrBytes, Core, StrOk;
    CoreOfString(SpellStr(cs) + rest, StrBytes(cs), rest, depth);
  }

  lemma EmptyComplete(open: Byte, ws: Bytes, close: Byte, rest: Bytes, depth: nat)
    requires IsWs(ws) && ((open == 0x5B && close == 0x5D) || (open == 0x7B && close == 0x7D))
    ensures Core([open] + ws + [close] + rest, depth) == Some((if open == 0x5B then Array([], 0) else Object([], 0), rest))
  {
    var u := [close] + rest;
    SpaceSkips(ws, u);
    hide JsonSpec.Items, JsonSpec.Members, NumberEnd, StrBody, Space;
    assert [open] + ws + [close] + rest == [open] + (ws + u);
    assert ([open] + (ws + u))[1..] == ws + u && u[1..] == rest;
  }

  lemma ItemsStart(items: JsonGrammar.Items, rest: Bytes, depth: nat)
    requires ItemsOk(items, depth)
    ensures var u := Space(SpellItems(items) + rest); u != [] && u[0] != 0x5D
  {
    var p := items.item;
    var more := if items.LastItem? then [0x5D] + rest else [0x2C] + (SpellItems(items.rest) + rest);
    FirstByte(p.value, depth);
    ItemsSpelling(items, rest);
    hide Spell, CstOk, SpellItems;
    SkipsTo(p.before, Spell(p.value), p.after, more);
  }

  lemma SkipsTo(ws: Bytes, x: Bytes, y: Bytes, more: Bytes)
    requires IsWs(ws) && x != [] && !IsSpace(x[0])
    ensures var u := Space(ws + x + y + more); u != [] && u[0] == x[0]
  {
    var tail := x + (y + more);
    assert ws + x + y + more == ws + tail && tail[0] == x[0];
    SpaceSkips(ws, tail);
  }

  lemma MembersStart(members: JsonGrammar.Members, rest: Bytes, depth: nat)
    requires MembersOk(members, depth)
    ensures var u := Space(SpellMembers(members) + rest); u != [] && u[0] == 0x22
  {
    var p := members.pair;
    var more := if members.LastMember? then [0x7D] + rest else [0x2C] + (SpellMembers(members.rest) + rest);
    MembersSpelling(members, rest);
    assert SpellStr(p.key)[0] == 0x22;
    hide CstOk, SpellPadded, SpellStr, StrOk, SpellMembers, Space;
    var y := p.after + [0x3A] + SpellPadded(p.value);
    assert SpellPair(p) == p.before + SpellStr(p.key) + y;
    SkipsTo(p.before, SpellStr(p.key), y, more);
  }

  lemma {:induction false} PaddedComplete(p: Padded, t: Bytes, depth: nat)
    requires PaddedOk(p, depth) && t != [] && !IsSpace(t[0]) && Delimits(t)
    ensures ValueRead(SpellPadded(p) + t, depth, Denote(p.value), t)
    decreases p
  {
    AfterValue(p.after, t);
    ValueComplete(p.before, p.value, p.after + t, depth);
    hide Value, Spell, Denote, CstOk, Space, Delimits;
    assert SpellPadded(p) + t == p.before + Spell(p.value) + (p.after + t);
  }

  lemma ItemsSpelling(items: JsonGrammar.Items, rest: Bytes)
    ensures items.LastItem? ==> SpellItems(items) + rest == SpellPadded(items.item) + ([0x5D] + rest)
    ensures items.MoreItems? ==>
              SpellItems(items) + rest == SpellPadded(items.item) + ([0x2C] + (SpellItems(items.rest) + rest))
  {
    hide SpellPadded;
    if items.MoreItems? {
      Assoc([0x2C], SpellItems(items.rest), rest);
    }
  }

  lemma {:induction false} ItemsComplete(items: JsonGrammar.Items, rest: Bytes, depth: nat)
    requires ItemsOk(items, depth + 1)
    ensures JsonSpec.Items(SpellItems(items) + rest, depth) == Some((DenoteItems(items), rest))
    decreases items, 0
  {
    var n := Denote(items.item.value);
    ItemsSpelling(items, rest);
    hide ValueRead, Denote, PaddedOk, JsonSpec.Items, SpellPadded, SpellItems;
    if items.MoreItems? {
      var u := SpellItems(items.rest) + rest;
      PaddedComplete(items.item, [0x2C] + u, depth + 1);
      ItemsComplete(items.rest, rest, depth);
      ItemsMore(SpellPadded(items.item) + ([0x2C] + u), depth, n, u, DenoteItems(items.rest), rest);
    } else {
      PaddedComplete(items.item, [0x5D] + rest, depth + 1);
      ItemsLast(SpellPadded(items.item) + ([0x5D] + rest), depth, n, rest);
      assert DenoteItems(items) == [n] + [] == [n];
    }
  }

  lemma {:induction false} PairComplete(p: Pair, t: Bytes, depth: nat)
    requires PairOk(p, depth) && t != [] && !IsSpace(t[0]) && Delimits(t)
    ensures MemberRead(SpellPair(p) + t, depth, Member(StrBytes(p.key), Denote(p.value.value)), t)
    decreases p, 0
  {
    var tail := SpellPadded(p.value) + t;
    var v := [0x3A] + tail;
    var u := SpellStr(p.key) + (p.after + v);
    PaddedComplete(p.value, t, depth);
    QuotedAt(p.key, p.after + v);
    SpaceSkips(p.after, v);
    SpaceSkips(p.before, u);
    hide ValueRead, Denote, StrBody, StrBytes, StrOk, SpellPadded, SpellStr, Space, IsWs, PaddedOk;
    assert v[1..] == tail;
    Regroup(p.before, SpellStr(p.key), p.after, [0x3A], SpellPadded(p.value), t);
    assert SpellPair(p) + t == p.before + u;
    hide SpellPair;
  }

  lemma MembersSpelling(members: JsonGrammar.Members, rest: Bytes)
    ensures members.LastMember? ==> SpellMembers(members) + rest == SpellPair(members.pair) + ([0x7D] + rest)
    ensures members.MoreMembers? ==>
              SpellMembers(members) + rest == SpellPair(members.pair) + ([0x2C] + (SpellMembers(members.rest) + rest))
  {
    hide SpellPair;
    if members.MoreMembers? {
      Assoc([0x2C], SpellMembers(members.rest), rest);
    }
  }

  lemma {:induction false} MembersComplete(members: JsonGrammar.Members, rest: Bytes, depth: nat, seen: set<Bytes>)
    requires MembersOk(members, depth + 1) && KeysFresh(members, seen)
    ensures JsonSpec.Members(SpellMembers(members) + rest, depth, seen) == Some((DenoteMembers(members), rest))
    decreases members, 0
  {
    var p := members.pair;
    var m := Member(StrBytes(p.key), Denote(p.value.value));
    MembersSpelling(members, rest);
    hide MemberRead, Denote, PairOk, JsonSpec.Members, SpellPair, StrBytes, SpellMembers;
    if members.MoreMembers? {
      var u := SpellMembers(members.rest) + rest;
      PairComplete(p, [0x2C] + u, depth + 1);
      MembersComplete(members.rest, rest, depth, seen + {m.key});
      MembersMore(SpellPair(p) + ([0x2C] + u), depth, seen, m, u, DenoteMembers(members.rest), rest);
    } else {
      PairComplete(p, [0x7D] + rest, depth + 1);
      MembersLast(SpellPair(p) + ([0x7D] + rest), depth, seen, m, rest);
      assert DenoteMembers(members) == [m] + [] == [m];
    }
  }

  // Everything accepted is a spelling of the value read

  lemma {:induction false} ValueSound(s: Bytes, depth: nat) returns (ws: Bytes, c: Cst)
    requires Value(s, depth).Some?
    ensures IsWs(ws) && CstOk(c, depth)
    ensures Value(s, depth).value.0 == Denote(c) && s == ws + Spell(c) + Value(s, depth).value.1
    decreases |s|, 2
  {
    ws := SpaceIsWs(s);
    c := CoreSound(Space(s), depth);
    SizeOfDenoted(c);
    hide Core, Spell, Denote, CstOk, Space;
    var rest := Core(Space(s), depth).value.1;
    assert |Space(s)| == |Spell(c)| + |rest|;
  }

  lemma {:induction false} CoreSound(t: Bytes, depth: nat) returns (c: Cst)
    requires depth <= MAX_DEPTH && Core(t, depth).Some?
    ensures CstOk(c, depth)
    ensures Core(t, depth).value.0 == Sized(Denote(c), 0) && t == Spell(c) + Core(t, depth).value.1
    decreases |t|, 1
  {
    hide Core, CstOk, Denote, Spell;
    if t[0] == 0x7B {
      c := ObjectSound(t, depth);
    } else if t[0] == 0x5B {
      c := ArraySound(t, depth);
    } else if t[0] == 0x22 {
      c := QuotedSound(t, depth);
    } else if t[0] == 0x2D || IsDigit(t[0]) {
      c := NumeralSound(t, depth);
    } else {
      c := WordSound(t, depth);
    }
  }

  lemma WordSound(t: Bytes, depth: nat) returns (c: Cst)
    requires depth <= MAX_DEPTH && Core(t, depth).Some?
    requires t[0] !in {0x7B, 0x5B, 0x22, 0x2D} && !IsDigit(t[0])
    ensures CstOk(c, depth)
    ensures Core(t, depth).value.0 == Sized(Denote(c), 0) && t == Spell(c) + Core(t, depth).value.1
  {
    hide StrBody, JsonSpec.Items, JsonSpec.Members, NumberEnd, Space;
    c := if t[0] == 0x74 then LitTrue else if t[0] == 0x66 then LitFalse else LitNull;
    assert Spell(c) <= t;
    assert t == t[..|Spell(c)|] + t[|Spell(c)|..];
  }

  lemma QuotedSound(t: Bytes, depth: nat) returns (c: Cst)
    requires depth <= MAX_DEPTH && Core(t, depth).Some? && t[0] == 0x22
    ensures CstOk(c, depth)
    ensures Core(t, depth).value.0 == Sized(Denote(c), 0) && t == Spell(c) + Core(t, depth).value.1
  {
    hide StrBody, SpellChars, StrBytes, StrOk, JsonSpec.Items, JsonSpec.Members, NumberEnd, Space;
    var cs := StrSound(t[1..]);
    var rest := StrBody(t[1..]).value.1;
    CoreOfString(t, StrBytes(cs), rest, depth);
    c := Quoted(cs);
    assert t == [0x22] + (SpellChars(cs) + [0x22] + rest) == SpellStr(cs) + rest;
  }

  lemma NumeralSound(t: Bytes, depth: nat) returns (c: Cst)
    requires depth <= MAX_DEPTH && Core(t, depth).Some? && (t[0] == 0x2D || IsDigit(t[0]))
    ensures CstOk(c, depth)
    ensures Core(t, depth).value.0 == Sized(Denote(c), 0) && t == Spell(c) + Core(t, depth).value.1
  {
    hide StrBody, JsonSpec.Items, JsonSpec.Members, NumberEnd, Space;
    var k := NumberEnd(t);
    var n := NumberSound(t);
    CoreOfNumber(t, depth);
    c := Numeral(n);
    hide SpellNum, NumOk, Core;
    assert t == t[..k] + t[k..];
  }

  lemma {:induction false} ArraySound(t: Bytes, depth: nat) returns (c: Cst)
    requires depth <= MAX_DEPTH && Core(t, depth).Some? && t[0] == 0x5B
    ensures CstOk(c, depth)
    ensures Core(t, depth).value.0 == Sized(Denote(c), 0) && t == Spell(c) + Core(t, depth).value.1
    decreases |t|, 0
  {
    hide JsonSpec.Items, JsonSpec.Members, NumberEnd, StrBody, SpellItems, DenoteItems, ItemsOk, Space;
    var u := Space(t[1..]);
    if u != [] && u[0] == 0x5D {
      var ws := SpaceIsWs(t[1..]);
      c := EmptyArray(ws);
      EmptySpelled(t, ws, u);
    } else {
      CoreOfArray(t, depth);
      var items := ItemsSound(t[1..], depth);
      c := FullArray(items);
      hide Core;
      assert t == [0x5B] + t[1..];
    }
  }

  lemma EmptySpelled(t: Bytes, ws: Bytes, u: Bytes)
    requires t != [] && u != [] && t[1..] == ws + u
    ensures t == [t[0]] + ws + [u[0]] + u[1..]
  {
    assert t == [t[0]] + t[1..] && u == [u[0]] + u[1..];
  }

  lemma {:induction false} ObjectSound(t: Bytes, depth: nat) returns (c: Cst)
    requires depth <= MAX_DEPTH && Core(t, depth).Some? && t[0] == 0x7B
    ensures CstOk(c, depth)
    ensures Core(t, depth).value.0 == Sized(Denote(c), 0) && t == Spell(c) + Core(t, depth).value.1
    decreases |t|, 0
  {
    hide JsonSpec.Items, JsonSpec.Members, NumberEnd, StrBody, SpellMembers, DenoteMembers, MembersOk, KeysFresh, Space;
    var u := Space(t[1..]);
    if u != [] && u[0] == 0x7D {
      var ws := SpaceIsWs(t[1..]);
      c := EmptyObject(ws);
      EmptySpelled(t, ws, u);
    } else {
      CoreOfObject(t, depth);
      var members := MembersSound(t[1..], depth, {});
      c := FullObject(members);
      hide Core;
      assert t == [0x7B] + t[1..];
    }
  }

  lemma {:induction false} PaddedSound(s: Bytes, depth: nat, n: Node, t: Bytes) returns (p: Padded)
    requires ValueRead(s, depth, n, t)
    ensures PaddedOk(p, depth) && n == Denote(p.value) && s == SpellPadded(p) + t
    decreases |s|, 3
  {
    var before, c := ValueSound(s, depth);
    var rest := Value(s, depth).value.1;
    var after := SpaceIsWs(rest);
    p := Padded(before, c, after);
    hide Value, Spell, Denote, CstOk, Space;
    assert s == before + Spell(c) + (after + t);
  }

  lemma {:induction false} ItemsSound(s: Bytes, depth: nat) returns (items: JsonGrammar.Items)
    requires JsonSpec.Items(s, depth).Some?
    ensures ItemsOk(items, depth + 1)
    ensures JsonSpec.Items(s, depth).value.0 == DenoteItems(items)
    ensures s == SpellItems(items) + JsonSpec.Items(s, depth).value.1
    decreases |s|, 4
  {
    hide Value, Denote, CstOk, Space, SpellPadded, PaddedOk;
    var n := Value(s, depth + 1).value.0;
    var t := Space(Value(s, depth + 1).value.1);
    var p := PaddedSound(s, depth + 1, n, t);
    if t[0] == 0x2C {
      var more := ItemsSound(t[1..], depth);
      items := MoreItems(p, more);
      assert t == [0x2C] + SpellItems(more) + JsonSpec.Items(t[1..], depth).value.1;
    } else {
      items := LastItem(p);
      assert t == [0x5D] + t[1..];
    }
  }

  lemma {:induction false} PairSound(s: Bytes, depth: nat, m: Member, t: Bytes) returns (p: Pair)
    requires MemberRead(s, depth, m, t)
    ensures PairOk(p, depth) && m == Member(StrBytes(p.key), Denote(p.value.value)) && s == SpellPair(p) + t
    decreases |s|, 4
  {
    hide ValueRead, Denote, StrBody, SpellChars, StrBytes, StrOk, SpellPadded, PaddedOk;
    var u := Space(s);
    var key := StrSound(u[1..]);
    var afterKey := StrBody(u[1..]).value.1;
    var v := Space(afterKey);
    var before := SpaceIsWs(s);
    var after := SpaceIsWs(afterKey);
    var q := PaddedSound(v[1..], depth, m.value, t);
    hide Space;
    p := Pair(before, key, after, q);
    assert u == [0x22] + u[1..] == SpellStr(key) + afterKey;
    assert v == [0x3A] + v[1..];
    Regroup(before, SpellStr(key), after, [0x3A], SpellPadded(q), t);
  }

  lemma Regroup(a: Bytes, b: Bytes, c: Bytes, d: Bytes, e: Bytes, t: Bytes)
    ensures a + (b + (c + (d + (e + t)))) == a + b + c + d + e + t
  {
    Assoc(a + b + c + d, e, t);
    Assoc(a + b + c, d, e + t);
    Assoc(a + b, c, d + (e + t));
    Assoc(a, b, c + (d + (e + t)));
  }

  lemma {:induction false} MembersSound(s: Bytes, depth: nat, seen: set<Bytes>) returns (members: JsonGrammar.Members)
    requires JsonSpec.Members(s, depth, seen).Some?
    ensures MembersOk(members, depth + 1) && KeysFresh(members, seen)
    ensures JsonSpec.Members(s, depth, seen).value.0 == DenoteMembers(members)
    ensures s == SpellMembers(members) + JsonSpec.Members(s, depth, seen).value.1
    decreases |s|, 5
  {
    hide Value, Denote, Space, StrBody, StrBytes, SpellPair, PairOk;
    var m, t := FirstMember(s, depth, seen);
    var p := PairSound(s, depth + 1, m, t);
    hide MemberRead;
    if t[0] == 0x2C {
      var more := MembersSound(t[1..], depth, seen + {m.key});
      members := MoreMembers(p, more);
      assert t == [0x2C] + SpellMembers(more) + JsonSpec.Members(t[1..], depth, seen + {m.key}).value.1;
    } else {
      members := LastMember(p);
      assert t == [0x7D] + t[1..];
    }
  }

  lemma FirstMember(s: Bytes, depth: nat, seen: set<Bytes>) returns (m: Member, t: Bytes)
    requires JsonSpec.Members(s, depth, seen).Some?
    ensures MemberRead(s, depth + 1, m, t) && m.key !in seen && t != [] && |t| < |s|
    ensures t[0] == 0x2C || (t[0] == 0x7D && JsonSpec.Members(s, depth, seen).value == ([m], t[1..]))
    ensures t[0] == 0x2C ==>
              var r := JsonSpec.Members(t[1..], depth, seen + {m.key}); r.Some? && JsonSpec.Members(s, depth, seen).value == ([m] + r.value.0, r.value.1)
  {
    hide Value, StrBody, Space;
    var u := Space(s);
    var key := StrBody(u[1..]).value;
    var v := Space(key.1);
    var n := Value(v[1..], depth + 1).value;
    m, t := Member(key.0, n.0), Space(n.1);
  }

  // The main results

  /** A text of the grammar that denotes n, with white space around it. */
  ghost predicate Spells(raw: Bytes, n: Node) {
    exists p: Padded :: PaddedOk(p, 0) && raw == SpellPadded(p) && n == Denote(p.value)
  }

  /** parseJSON accepts exactly the texts of the grammar within the limit, with the value the text denotes. */
  lemma ParseIffSpelled(raw: Bytes, limit: nat, n: Node)
    ensures ParseJson(raw, limit) == Some(n) <==> |raw| <= limit && Utf8Valid(raw) && Spells(raw, n)
  {
    if |raw| <= limit && Utf8Valid(raw) && Spells(raw, n) {
      var p: Padded :| PaddedOk(p, 0) && raw == SpellPadded(p) && n == Denote(p.value);
      SpelledIsParsed(p, limit);
    }
    if ParseJson(raw, limit) == Some(n) {
      ParsedIsSpelled(raw, limit, n);
    }
  }

  lemma ParsedIsSpelled(raw: Bytes, limit: nat, n: Node)
    requires ParseJson(raw, limit) == Some(n)
    ensures |raw| <= limit && Utf8Valid(raw) && Spells(raw, n)
  {
    hide Value, Utf8Valid, PaddedOk, Denote, SpellPadded, Space;
    var p := PaddedSound(raw, 0, n, []);
    assert raw == SpellPadded(p);
  }

  lemma SpelledIsParsed(p: Padded, limit: nat)
    requires PaddedOk(p, 0) && |SpellPadded(p)| <= limit && Utf8Valid(SpellPadded(p))
    ensures ParseJson(SpellPadded(p), limit) == Some(Denote(p.value))
  {
    FirstByte(p.value, 0);
    assert p.after == [] || IsSpace(p.after[0]);
    ValueComplete(p.before, p.value, p.after, 0);
    SpaceSkips(p.after, []);
    assert p.after + [] == p.after;
    hide Value, Utf8Valid, CstOk, Spell, Denote;
  }

  /** A text denotes one value only. */
  lemma OneValuePerText(raw: Bytes, m: Node, n: Node)
    requires Utf8Valid(raw) && Spells(raw, m) && Spells(raw, n)
    ensures m == n
  {
    ParseIffSpelled(raw, |raw|, m);
    ParseIffSpelled(raw, |raw|, n);
  }
}
