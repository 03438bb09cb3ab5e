/** What the JSON writers have to produce: the tokens of a value with white space between them
    (android/jni/jsoncpp/json_writer.cpp:14-172, 197-263; section 2 of RFC 4627). */
module JsonText {
  import opened Basics
  import opened JsonValue
  import opened JsonLexer
  import opened JsonGrammar

  // ---- Numbers and strings -----------------------------------------------------------------------

  function Digit(d: nat): char
    requires d < 10
  {
    (d + '0' as int) as char
  }

  function Decimal(n: nat): (s: string)
    ensures s != []
  {
    if n < 10 then [Digit(n)] else Decimal(n / 10) + [Digit(n % 10)]
  }

  function IntText(i: int): string {
    if i < 0 then "-" + Decimal(-i) else Decimal(i)
  }

  function HexDigitOf(d: nat): char
    requires d < 16
  {
    if d < 10 then Digit(d) else (d - 10 + 'A' as int) as char
  }

  predicate IsControl(c: char) {
    '\0' < c <= '\U{1f}'
  }

  /** One character inside a string literal. */
  function Escape(c: char): string {
    if c == '"' then "\\\""
    else if c == '\\' then "\\\\"
    else if c == '\U{8}' then "\\b"
    else if c == '\U{c}' then "\\f"
    else if c == '\n' then "\\n"
    else if c == '\r' then "\\r"
    else if c == '\t' then "\\t"
    else if IsControl(c) then "\\u00" + [HexDigitOf(c as int / 16), HexDigitOf(c as int % 16)]
    else [c]
  }

  function EscapeAll(s: string): string {
    if s == [] then [] else Escape(s[0]) + EscapeAll(s[1..])
  }

  function Quoted(s: string): string {
    "\"" + EscapeAll(s) + "\""
  }

  // ---- Values that can be written ------------------------------------------------------------------

  predicate NulFree(s: string) {
    '\0' !in s
  }

  /** What the class keeps: 32-bit numbers, C strings, ascending keys.  Reals are left out, and a string
      value has to have a string. */
  predicate Writable(v: Value) {
    match v
    case Int(i) => -0x8000_0000 <= i <= 0x7FFF_FFFF
    case UInt(u) => u <= 0xFFFF_FFFF
    case Real(_) => false
    case Str(s) => s.Some? && NulFree(s.value)
    case Arr(items) =>
      Ascending(items) && forall e :: e in items ==> e.key.Index? && e.key.index >= 0 && Writable(e.value)
    case Obj(members) =>
      Ascending(members) && forall e :: e in members ==> e.key.Name? && NulFree(e.key.name) && Writable(e.value)
    case _ => true
  }

  /** `size` of an array: its last index and one; holes count. */
  function Slots(items: seq<Entry>): nat {
    if items == [] || !items[|items| - 1].key.Index? || items[|items| - 1].key.index < 0 then 0
    else items[|items| - 1].key.index + 1
  }

  /** What stands in slot i of an array is one of its values, or null. */
  lemma AtIsSmaller(items: seq<Entry>, key: Key)
    requires items != []
    ensures Size(At(items, key)) <= MapSize(items)
    ensures (forall e :: e in items ==> Writable(e.value)) ==> Writable(At(items, key))
  {
    var n := LowerBound(items, key);
    if n < |items| {
      EntryIsSmaller(items, n);
    } else {
      EntryIsSmaller(items, 0);
    }
  }

  lemma {:induction false} EntryIsSmaller(entries: seq<Entry>, n: nat)
    requires n < |entries|
    ensures Size(entries[n].value) <= MapSize(entries)
  {
    if n > 0 {
      EntryIsSmaller(entries[1..], n - 1);
    }
  }

  // ---- Tokens --------------------------------------------------------------------------------------

  function Tokens(v: Value): seq<string>
    requires Writable(v)
    decreases Size(v), 1, 0
  {
    match v
    case Null => ["null"]
    case Int(i) => [IntText(i)]
    case UInt(u) => [Decimal(u)]
    case Str(s) => [Quoted(s.value)]
    case Bool(b) => [if b then "true" else "false"]
    case Arr(items) => ["["] + ItemTokens(items, 0) + ["]"]
    case Obj(members) => ["{"] + MemberTokens(members, 0) + ["}"]
    case Real(_) => []
  }

  /** The slots of an array from one on, with a comma in front of all but the first. */
  function ItemTokens(items: seq<Entry>, from: nat): seq<string>
    requires Writable(Arr(items))
    decreases 1 + MapSize(items), 0, Slots(items) - from
  {
    if from >= Slots(items) then []
    else
      AtIsSmaller(items, Index(from));
      Comma(from) + Tokens(At(items, Index(from))) + ItemTokens(items, from + 1)
  }

  function Comma(from: nat): seq<string> {
    if from == 0 then [] else [","]
  }

  function MemberTokens(members: seq<Entry>, from: nat): seq<string>
    requires Writable(Obj(members))
    decreases 1 + MapSize(members), 0, |members| - from
  {
    if from >= |members| then []
    else
      EntryIsSmaller(members, from);
      Comma(from) + [Quoted(members[from].key.name), ":"] + Tokens(members[from].value)
          + MemberTokens(members, from + 1)
  }

  // ---- Spacing -------------------------------------------------------------------------------------

  /** The text is these tokens in order, with white space before, between and behind them. */
  predicate Spaced(t: string, tokens: seq<string>)
    decreases |tokens|
  {
    var s := SkipSpaces(t);
    if tokens == [] then s == []
    else |tokens[0]| <= |s| && s[..|tokens[0]|] == tokens[0] && Spaced(s[|tokens[0]|..], tokens[1..])
  }

  predicate AllSpaces(t: string) {
    forall c :: c in t ==> IsSpace(c)
  }

  /** No token is empty or begins with white space. */
  predicate Solid(tokens: seq<string>) {
    forall s :: s in tokens ==> s != [] && !IsSpace(s[0])
  }

  lemma {:induction false} SkipThrough(a: string, b: string)
    ensures SkipSpaces(a + b) == if SkipSpaces(a) == [] then SkipSpaces(b) else SkipSpaces(a) + b
  {
    if a == [] {
      assert a + b == b;
    } else if IsSpace(a[0]) {
      assert (a + b)[1..] == a[1..] + b;
      SkipThrough(a[1..], b);
    }
  }

  /** Texts behind one another are their tokens behind one another. */
  lemma {:induction false} SpacedAppend(a: string, s: seq<string>, b: string, t: seq<string>)
    requires Spaced(a, s) && Spaced(b, t) && Solid(s)
    ensures Spaced(a + b, s + t)
    decreases |s|
  {
    hide SkipSpaces;
    SkipThrough(a, b);
    var skipped := SkipSpaces(a);
    if s == [] {
      assert s + t == t;
      SpacedStart(a + b, b, t);
    } else {
      var n := |s[0]|;
      assert s[0] in s && forall x :: x in s[1..] ==> x in s;
      assert (skipped + b)[n..] == skipped[n..] + b && (skipped + b)[..n] == skipped[..n];
      assert (s + t)[1..] == s[1..] + t && (s + t)[0] == s[0];
      SpacedAppend(skipped[n..], s[1..], b, t);
    }
  }

  lemma SpacedStart(a: string, b: string, tokens: seq<string>)
    requires SkipSpaces(a) == SkipSpaces(b) && Spaced(b, tokens)
    ensures Spaced(a, tokens)
  {
    hide SkipSpaces;
  }

  /** One token on its own. */
  lemma SpacedOne(token: string)
    requires token != [] && !IsSpace(token[0])
    ensures Spaced(token, [token])
  {
    assert token[..|token|] == token && token[|token|..] == [];
  }

  lemma {:induction false} SpacesAreNoTokens(t: string)
    requires AllSpaces(t)
    ensures Spaced(t, [])
  {
    if t != [] {
      assert t[0] in t && forall c :: c in t[1..] ==> c in t;
      SpacesAreNoTokens(t[1..]);
    }
  }

  // ---- Tokens without space ------------------------------------------------------------------------

  /** The tokens behind one another; a colon may be written in another way. */
  function Joined(tokens: seq<string>, colon: string): string {
    if tokens == [] then [] else (if tokens[0] == ":" then colon else tokens[0]) + Joined(tokens[1..], colon)
  }

  lemma JoinedFirst(s: seq<string>, colon: string)
    requires s != []
    ensures Joined(s, colon) == (if s[0] == ":" then colon else s[0]) + Joined(s[1..], colon)
  {
  }

  lemma {:induction false} JoinedAppend(s: seq<string>, t: seq<string>, colon: string)
    ensures Joined(s + t, colon) == Joined(s, colon) + Joined(t, colon)
    decreases |s|
  {
    hide Joined;
    JoinedNone(colon);
    if s == [] {
      assert s + t == t;
    } else {
      JoinedAppend(s[1..], t, colon);
      JoinedFirst(s, colon);
      assert (s + t)[1..] == s[1..] + t && (s + t)[0] == s[0];
      JoinedFirst(s + t, colon);
    }
  }

  lemma JoinedOne(token: string, colon: string)
    requires token != ":"
    ensures Joined([token], colon) == token
  {
  }

  lemma {:induction false} DecimalDigits(n: nat)
    ensures forall c :: c in Decimal(n) ==> IsDigit(c)
  {
    if n >= 10 {
      DecimalDigits(n / 10);
    }
  }

  lemma JoinedItem(items: seq<Entry>, from: nat, colon: string)
    requires Writable(Arr(items)) && from < Slots(items)
    ensures Writable(At(items, Index(from))) && Size(At(items, Index(from))) <= MapSize(items)
    ensures Joined(ItemTokens(items, from), colon)
         == (if from == 0 then "" else ",") + Joined(Tokens(At(items, Index(from))), colon)
             + Joined(ItemTokens(items, from + 1), colon)
  {
    hide Tokens, Joined;
    AtIsSmaller(items, Index(from));
    JoinedAppend(Comma(from), Tokens(At(items, Index(from))), colon);
    JoinedAppend(Comma(from) + Tokens(At(items, Index(from))), ItemTokens(items, from + 1), colon);
    JoinedOne(",", colon);
    JoinedNone(colon);
  }

  lemma JoinedNone(colon: string)
    ensures Joined([], colon) == []
  {
  }

  lemma JoinedMember(members: seq<Entry>, from: nat, colon: string)
    requires Writable(Obj(members)) && from < |members|
    ensures members[from].key.Name? && NulFree(members[from].key.name)
    ensures Writable(members[from].value) && Size(members[from].value) <= MapSize(members)
    ensures Joined(MemberTokens(members, from), colon)
         == (if from == 0 then "" else ",") + Quoted(members[from].key.name) + colon
            + Joined(Tokens(members[from].value), colon) + Joined(MemberTokens(members, from + 1), colon)
  {
    hide Tokens, Joined, EscapeAll;
    EntryIsSmaller(members, from);
    var e := members[from];
    assert e in members;
    var name := [Quoted(e.key.name), ":"];
    JoinedAppend(Comma(from), name, colon);
    JoinedAppend(Comma(from) + name, Tokens(e.value), colon);
    JoinedAppend(Comma(from) + name + Tokens(e.value), MemberTokens(members, from + 1), colon);
    JoinedName(e.key.name, colon);
    JoinedOne(",", colon);
    JoinedNone(colon);
  }

  lemma JoinedName(name: string, colon: string)
    ensures Joined([Quoted(name), ":"], colon) == Quoted(name) + colon
  {
    assert Quoted(name)[0] == '"';
    JoinedAppend([Quoted(name)], [":"], colon);
    JoinedOne(Quoted(name), colon);
    assert Joined([":"], colon) == colon;
  }

  lemma JoinedArray(items: seq<Entry>, colon: string)
    requires Writable(Arr(items))
    ensures Joined(Tokens(Arr(items)), colon) == "[" + Joined(ItemTokens(items, 0), colon) + "]"
    ensures Joined(ItemTokens(items, Slots(items)), colon) == []
  {
    hide Joined;
    JoinedAppend(["["], ItemTokens(items, 0), colon);
    JoinedAppend(["["] + ItemTokens(items, 0), ["]"], colon);
    JoinedOne("[", colon);
    JoinedOne("]", colon);
    JoinedNone(colon);
  }

  lemma JoinedObject(members: seq<Entry>, colon: string)
    requires Writable(Obj(members))
    ensures Joined(Tokens(Obj(members)), colon) == "{" + Joined(MemberTokens(members, 0), colon) + "}"
    ensures Joined(MemberTokens(members, |members|), colon) == []
  {
    hide Joined;
    JoinedAppend(["{"], MemberTokens(members, 0), colon);
    JoinedAppend(["{"] + MemberTokens(members, 0), ["}"], colon);
    JoinedOne("{", colon);
    JoinedOne("}", colon);
    JoinedNone(colon);
  }

  /** The one token of a scalar. */
  lemma JoinedScalar(v: Value, colon: string)
    requires Writable(v) && !v.Arr? && !v.Obj?
    ensures |Tokens(v)| == 1 && Joined(Tokens(v), colon) == Tokens(v)[0] != []
  {
    match v
    case Int(i) => DecimalDigits(if i < 0 then -i else i); JoinedOne(IntText(i), colon);
    case UInt(u) => DecimalDigits(u); JoinedOne(Decimal(u), colon);
    case Str(s) => assert Quoted(s.value)[0] == '"'; JoinedOne(Quoted(s.value), colon);
    case Null => JoinedOne("null", colon);
    case Bool(b) => JoinedOne(if b then "true" else "false", colon);
    case Real(_) =>
  }

  lemma NumberStart(n: nat)
    ensures IsDigit(Decimal(n)[0]) && !IsSpace(IntText(n)[0]) && !IsSpace(IntText(0 - n)[0])
  {
    DecimalDigits(n);
    assert Decimal(n)[0] in Decimal(n);
  }

  lemma SolidAppend(s: seq<string>, t: seq<string>)
    requires Solid(s) && Solid(t)
    ensures Solid(s + t)
  {
  }

  lemma {:induction false} TokensAreSolid(v: Value)
    requires Writable(v)
    ensures Solid(Tokens(v))
    decreases Size(v), 1, 0
  {
    hide ItemTokens, MemberTokens, EscapeAll, Decimal;
    match v
    case Int(i) => NumberStart(if i < 0 then -i else i);
    case UInt(u) => NumberStart(u);
    case Arr(items) => ItemsAreSolid(items, 0);
    case Obj(members) => MembersAreSolid(members, 0);
    case _ =>
  }

  lemma {:induction false} ItemsAreSolid(items: seq<Entry>, from: nat)
    requires Writable(Arr(items))
    ensures Solid(ItemTokens(items, from))
    decreases 1 + MapSize(items), 0, Slots(items) - from
  {
    hide Tokens, Solid, Writable;
    EmptySolid();
    if from < Slots(items) {
      SlotIsWritable(items, from);
      TokensAreSolid(At(items, Index(from)));
      SolidAppend(Comma(from), Tokens(At(items, Index(from))));
      ItemsAreSolid(items, from + 1);
      SolidAppend(Comma(from) + Tokens(At(items, Index(from))), ItemTokens(items, from + 1));
    }
  }

  lemma EmptySolid()
    ensures Solid([]) && Solid([","])
  {
  }

  lemma SlotIsWritable(items: seq<Entry>, from: nat)
    requires Writable(Arr(items)) && from < Slots(items)
    ensures Writable(At(items, Index(from))) && Size(At(items, Index(from))) <= MapSize(items)
  {
    AtIsSmaller(items, Index(from));
  }

  lemma MemberIsWritable(members: seq<Entry>, from: nat)
    requires Writable(Obj(members)) && from < |members|
    ensures members[from].key.Name? && NulFree(members[from].key.name)
    ensures Writable(members[from].value) && Size(members[from].value) <= MapSize(members)
  {
    EntryIsSmaller(members, from);
    assert members[from] in members;
  }

  lemma {:induction false} MembersAreSolid(members: seq<Entry>, from: nat)
    requires Writable(Obj(members))
    ensures Solid(MemberTokens(members, from))
    decreases 1 + MapSize(members), 0, |members| - from
  {
    hide Tokens, Writable, EscapeAll;
    if from < |members| {
      MemberIsWritable(members, from);
      TokensAreSolid(members[from].value);
      MembersAreSolid(members, from + 1);
    }
  }
}
