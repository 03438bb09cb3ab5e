/** What the JSON readers and writers are for: what is written is read back, both layouts say the same,
    and writing again changes nothing. */
module JsonTheorems {
  import opened JsonValue
  import opened JsonLexer
  import opened JsonGrammar
  import opened JsonText
  import opened JsonLayout
  import opened JsonRoundTrip
  import opened JsonSound

  // ---- Round trips -----------------------------------------------------------------------------------

  /** What `parse` has to give for a text that means v; the strict mode wants a container at the root,
      but lets null pass. */
  function Verdict(config: Config, v: Value): Parsed {
    if config.strictRoot && !v.Null? && !v.Arr? && !v.Obj? then Parsed(false, v, [RootNotStructured])
    else Parsed(true, v, [])
  }

  /** Every spacing of the tokens of a value is read as that value, whatever the root held before. */
  lemma SpacedIsRead(config: Config, t: string, v: Value, root: Value)
    requires Writable(v) && Readable(config, v) && Spaced(t, Tokens(v))
    ensures Parse(config, t, root) == Verdict(config, Canon(config, v))
  {
    hide Spaced, ReadValue, Canon, Tokens;
    assert Tokens(v) + [] == Tokens(v);
    ReadsBack(config, t, v, [], root, []);
  }

  lemma {:induction false} JoinedIsSpaced(tokens: seq<string>, colon: string)
    requires Solid(tokens) && colon in {":", ": "}
    ensures Spaced(Joined(tokens, colon) + "\n", tokens)
    decreases |tokens|
  {
    hide Spaced;
    if tokens == [] {
      SpacesAreNoTokens("\n");
      assert Joined(tokens, colon) + "\n" == "\n";
    } else {
      assert tokens[0] in tokens && forall s :: s in tokens[1..] ==> s in tokens;
      JoinedIsSpaced(tokens[1..], colon);
      var rest := Joined(tokens[1..], colon) + "\n";
      var first := if tokens[0] == ":" then colon else tokens[0];
      FirstIsSpaced(tokens[0], colon);
      SpacedAppend(first, [tokens[0]], rest, tokens[1..]);
      assert first + rest == Joined(tokens, colon) + "\n" && [tokens[0]] + tokens[1..] == tokens;
    }
  }

  lemma FirstIsSpaced(token: string, colon: string)
    requires token != [] && !IsSpace(token[0]) && colon in {":", ": "}
    ensures Spaced(if token == ":" then colon else token, [token])
  {
    SpacedOne(token);
    if token == ":" && colon == ": " {
      SpacesAreNoTokens(" ");
      SpacedAppend(":", [":"], " ", []);
      assert ":" + " " == ": " && [":"] + [] == [":"];
    }
  }

  /** `FastWriter::write`, then `Reader::parse`, with or without the YAML colon. */
  lemma FastRoundTrip(config: Config, v: Value, colon: string, root: Value)
    requires Writable(v) && Readable(config, v) && colon in {":", ": "}
    ensures Parse(config, Joined(Tokens(v), colon) + "\n", root) == Verdict(config, Canon(config, v))
  {
    hide Tokens, Joined, Canon, Parse;
    TokensAreSolid(v);
    JoinedIsSpaced(Tokens(v), colon);
    SpacedIsRead(config, Joined(Tokens(v), colon) + "\n", v, root);
  }

  /** The layout adds white space only. */
  lemma LayoutIsSpaced(v: Value)
    requires Writable(v)
    ensures Spaced(Layout([], [], v) + "\n", Tokens(v))
  {
    hide Layout, Tokens, Spaced, Solid;
    LayoutWrites([], [], v);
    var text := Layout([], [], v);
    assert text[0..] == text;
    TokensAreSolid(v);
    SpacesAreNoTokens("\n");
    SpacedAppend(text, Tokens(v), "\n", []);
    assert Tokens(v) + [] == Tokens(v);
  }

  /** `StyledWriter::write`, then `Reader::parse`. */
  lemma StyledRoundTrip(config: Config, v: Value, root: Value)
    requires Writable(v) && Readable(config, v)
    ensures Parse(config, Layout([], [], v) + "\n", root) == Verdict(config, Canon(config, v))
  {
    hide Tokens, Layout, Canon, Parse;
    LayoutIsSpaced(v);
    SpacedIsRead(config, Layout([], [], v) + "\n", v, root);
  }

  // ---- White space outside of literals -----------------------------------------------------------------

  /** A text without the white space outside of its string literals. */
  function Squeeze(t: string, inLiteral: bool): string {
    if t == [] then []
    else if !inLiteral then
      if IsSpace(t[0]) then Squeeze(t[1..], false) else [t[0]] + Squeeze(t[1..], t[0] == '"')
    else if t[0] == '\\' && |t| > 1 then t[..2] + Squeeze(t[2..], true)
    else [t[0]] + Squeeze(t[1..], t[0] != '"')
  }

  /** A token that is kept as it is and ends outside of a literal. */
  ghost predicate Kept(token: string) {
    forall t :: Squeeze(token + t, false) == token + Squeeze(t, false)
  }

  lemma {:induction false} BareIsKept(token: string)
    requires forall c :: c in token ==> !IsSpace(c) && c != '"'
    ensures Kept(token)
  {
    forall t
      ensures Squeeze(token + t, false) == token + Squeeze(t, false)
    {
      if token == [] {
        assert token + t == t;
      } else {
        assert token[0] in token && forall c :: c in token[1..] ==> c in token;
        BareIsKept(token[1..]);
        assert (token + t)[1..] == token[1..] + t;
        assert Squeeze(token[1..] + t, false) == token[1..] + Squeeze(t, false);
        assert [token[0]] + (token[1..] + Squeeze(t, false)) == token + Squeeze(t, false);
      }
    }
  }

  lemma {:induction false} PlainInside(a: string, t: string)
    requires '"' !in a && '\\' !in a
    ensures Squeeze(a + t, true) == a + Squeeze(t, true)
  {
    if a == [] {
      assert a + t == t;
    } else {
      assert a[0] in a && forall c :: c in a[1..] ==> c in a;
      assert (a + t)[1..] == a[1..] + t;
      PlainInside(a[1..], t);
    }
  }

  lemma EscapeInside(c: char, t: string)
    ensures Squeeze(Escape(c) + t, true) == Escape(c) + Squeeze(t, true)
  {
    hide Escape;
    EscapeForms(c);
    if ByItself(c) {
      PlainInside([c], t);
    } else if ByLetter(c) {
      assert (Escape(c) + t)[2..] == t && (Escape(c) + t)[..2] == Escape(c);
    } else {
      assert (Escape(c) + t)[2..] == ControlHex(c) + t && (Escape(c) + t)[..2] == "\\u";
      PlainInside(ControlHex(c), t);
      assert "\\u" + (ControlHex(c) + Squeeze(t, true)) == Escape(c) + Squeeze(t, true);
    }
  }

  lemma {:induction false} EscapesInside(s: string, t: string)
    ensures Squeeze(EscapeAll(s) + t, true) == EscapeAll(s) + Squeeze(t, true)
  {
    hide Escape, Squeeze;
    if s == [] {
      assert EscapeAll(s) + t == t && EscapeAll(s) + Squeeze(t, true) == Squeeze(t, true);
    } else {
      EscapeInside(s[0], EscapeAll(s[1..]) + t);
      EscapesInside(s[1..], t);
      assert EscapeAll(s) + t == Escape(s[0]) + (EscapeAll(s[1..]) + t);
      assert Escape(s[0]) + (EscapeAll(s[1..]) + Squeeze(t, true)) == EscapeAll(s) + Squeeze(t, true);
    }
  }

  lemma QuotedIsKept(s: string)
    ensures Kept(Quoted(s))
  {
    hide EscapeAll, Squeeze;
    forall t
      ensures Squeeze(Quoted(s) + t, false) == Quoted(s) + Squeeze(t, false)
    {
      assert Quoted(s) + t == "\"" + (EscapeAll(s) + ("\"" + t));
      QuoteToggles(EscapeAll(s) + ("\"" + t), false);
      EscapesInside(s, "\"" + t);
      QuoteToggles(t, true);
      assert "\"" + (EscapeAll(s) + ("\"" + Squeeze(t, false))) == Quoted(s) + Squeeze(t, false);
    }
  }

  lemma QuoteToggles(t: string, inLiteral: bool)
    ensures Squeeze("\"" + t, inLiteral) == "\"" + Squeeze(t, !inLiteral)
  {
    assert ("\"" + t)[1..] == t;
  }

  ghost predicate AllKept(tokens: seq<string>) {
    forall s :: s in tokens ==> Kept(s)
  }

  /** Squeezing a spacing of tokens leaves the tokens. */
  lemma {:induction false} SpacedSqueezes(t: string, tokens: seq<string>)
    requires Spaced(t, tokens) && AllKept(tokens)
    ensures Squeeze(t, false) == Joined(tokens, ":")
    decreases |tokens|
  {
    hide Kept;
    SqueezeSkips(t);
    var s := SkipSpaces(t);
    if tokens != [] {
      var rest := s[|tokens[0]|..];
      assert s == tokens[0] + rest;
      KeptAt(tokens[0], rest);
      SpacedSqueezes(rest, tokens[1..]);
    }
  }

  lemma KeptAt(token: string, t: string)
    requires Kept(token)
    ensures Squeeze(token + t, false) == token + Squeeze(t, false)
  {
  }

  lemma {:induction false} SqueezeSkips(t: string)
    ensures Squeeze(t, false) == Squeeze(SkipSpaces(t), false)
  {
    if t != [] && IsSpace(t[0]) {
      SqueezeSkips(t[1..]);
    }
  }

  lemma {:induction false} TokensAreKept(v: Value)
    requires Writable(v)
    ensures AllKept(Tokens(v))
    decreases Size(v), 1, 0
  {
    hide ItemTokens, MemberTokens, EscapeAll, Decimal, Kept;
    match v
    case Null => BareIsKept("null");
    case Bool(b) => BareIsKept("true"); BareIsKept("false");
    case Int(i) => DecimalDigits(if i < 0 then -i else i); BareIsKept(IntText(i));
    case UInt(u) => DecimalDigits(u); BareIsKept(Decimal(u));
    case Str(s) => QuotedIsKept(s.value);
    case Arr(items) => BareIsKept("["); BareIsKept("]"); ItemsAreKept(items, 0);
    case Obj(members) => BareIsKept("{"); BareIsKept("}"); MembersAreKept(members, 0);
    case Real(_) =>
  }

  lemma {:induction false} ItemsAreKept(items: seq<Entry>, from: nat)
    requires Writable(Arr(items))
    ensures AllKept(ItemTokens(items, from))
    decreases 1 + MapSize(items), 0, Slots(items) - from
  {
    hide Tokens, Writable, Slots, Kept;
    BareIsKept(",");
    if from < Slots(items) {
      SlotIsWritable(items, from);
      TokensAreKept(At(items, Index(from)));
      ItemsAreKept(items, from + 1);
    }
  }

  lemma {:induction false} MembersAreKept(members: seq<Entry>, from: nat)
    requires Writable(Obj(members))
    ensures AllKept(MemberTokens(members, from))
    decreases 1 + MapSize(members), 0, |members| - from
  {
    hide Tokens, Writable, Quoted, Kept;
    BareIsKept(",");
    BareIsKept(":");
    if from < |members| {
      MemberIsWritable(members, from);
      QuotedIsKept(members[from].key.name);
      TokensAreKept(members[from].value);
      MembersAreKept(members, from + 1);
    }
  }

  /** Both writers say the same: without the white space outside of literals the styled text is the fast
      text. */
  lemma LayoutSqueezes(v: Value)
    requires Writable(v)
    ensures Squeeze(Layout([], [], v) + "\n", false) == Joined(Tokens(v), ":")
            == Squeeze(Joined(Tokens(v), ":") + "\n", false)
  {
    hide Layout, Tokens, Joined, Squeeze, Kept, Spaced;
    LayoutIsSpaced(v);
    TokensAreKept(v);
    TokensAreSolid(v);
    SpacedSqueezes(Layout([], [], v) + "\n", Tokens(v));
    JoinedIsSpaced(Tokens(v), ":");
    SpacedSqueezes(Joined(Tokens(v), ":") + "\n", Tokens(v));
  }

  // ---- When the value itself comes back ----------------------------------------------------------------

  /** Integers are exact, unsigned ones do not fit an `Int`, and arrays have no holes. */
  predicate Faithful(v: Value) {
    match v
    case Int(i) => Exact(i)
    case UInt(u) => Exact(u) && u > 0x7FFF_FFFF
    case Arr(items) => |items| == Slots(items) && forall e :: e in items ==> Faithful(e.value)
    case Obj(members) => forall e :: e in members ==> Faithful(e.value)
    case _ => true
  }

  /** An array has as many entries as slots if and only if its keys are 0, 1, 2 and so on. */
  lemma {:induction false} NoHoles(items: seq<Entry>, i: nat)
    requires Writable(Arr(items)) && i < |items| == Slots(items)
    ensures items[i].key == Index(i)
    decreases |items| - i
  {
    hide LowerBound;
    KeyAtLeast(items, i);
    if i + 1 < |items| {
      NoHoles(items, i + 1);
    }
    assert items[i] in items;
  }

  lemma {:induction false} CanonItem(config: Config, items: seq<Entry>, count: nat, i: nat)
    requires Writable(Arr(items)) && Readable(config, Arr(items)) && i < count <= Slots(items)
    ensures Writable(At(items, Index(i))) && Readable(config, At(items, Index(i)))
    ensures CanonItems(config, items, count)[i] == Entry(Index(i), Canon(config, At(items, Index(i))))
  {
    hide Canon, At, Writable, Readable;
    SlotIsReadable(config, items, i);
    if i < count - 1 {
      CanonItem(config, items, count - 1, i);
    }
  }

  lemma {:induction false} CanonMember(config: Config, members: seq<Entry>, count: nat, i: nat)
    requires Writable(Obj(members)) && Readable(config, Obj(members)) && i < count <= |members|
    ensures Writable(members[i].value) && Readable(config, members[i].value)
    ensures CanonMembers(config, members, count)[i] == Entry(members[i].key, Canon(config, members[i].value))
  {
    hide Canon;
    assert members[i] in members;
    if i < count - 1 {
      CanonMember(config, members, count - 1, i);
    }
  }

  /** The value itself comes back if and only if it is faithful. */
  lemma {:induction false} FaithfulIff(config: Config, v: Value)
    requires Writable(v) && Readable(config, v)
    ensures Canon(config, v) == v <==> Faithful(v)
    decreases v
  {
    match v
    case Arr(items) => ArrayFaithfulIff(config, items);
    case Obj(members) => ObjectFaithfulIff(config, members);
    case _ =>
  }

  lemma {:induction false} EntryFaithfulIff(config: Config, e: Entry)
    requires Writable(e.value) && Readable(config, e.value)
    ensures Canon(config, e.value) == e.value <==> Faithful(e.value)
    decreases e, 1
  {
    FaithfulIff(config, e.value);
  }

  lemma {:induction false} ArrayFaithfulIff(config: Config, items: seq<Entry>)
    requires Writable(Arr(items)) && Readable(config, Arr(items))
    ensures CanonItems(config, items, Slots(items)) == items <==> Faithful(Arr(items))
    decreases items
  {
    hide Canon, CanonItems, Slots;
    if |items| == Slots(items) {
      forall i | 0 <= i < |items|
        ensures items[i] in items && CanonItems(config, items, |items|)[i] == items[i] <==> Faithful(items[i].value)
      {
        NoHoles(items, i);
        AtEntry(items, i);
        CanonItem(config, items, |items|, i);
        EntryFaithfulIff(config, items[i]);
      }
    }
  }

  lemma {:induction false} ObjectFaithfulIff(config: Config, members: seq<Entry>)
    requires Writable(Obj(members)) && Readable(config, Obj(members))
    ensures CanonMembers(config, members, |members|) == members <==> Faithful(Obj(members))
    decreases members
  {
    hide Canon, CanonMembers;
    forall i | 0 <= i < |members|
      ensures members[i] in members && CanonMembers(config, members, |members|)[i] == members[i]
              <==> Faithful(members[i].value)
    {
      CanonMember(config, members, |members|, i);
      EntryFaithfulIff(config, members[i]);
    }
  }

  predicate NoReals(v: Value) {
    match v
    case Real(_) => false
    case Arr(items) => forall e :: e in items ==> NoReals(e.value)
    case Obj(members) => forall e :: e in members ==> NoReals(e.value)
    case _ => true
  }

  /** A proper value without reals can be written, and comes back as it is. */
  lemma {:induction false} SoundIsFaithful(config: Config, v: Value)
    requires Sound(v) && NoReals(v)
    ensures Writable(v) && Readable(config, v) && Faithful(v)
    decreases v
  {
    match v
    case Arr(items) =>
      forall e | e in items
        ensures Writable(e.value) && Readable(config, e.value) && Faithful(e.value)
      {
        SoundIsFaithful(config, e.value);
      }
    case Obj(members) =>
      forall e | e in members
        ensures Writable(e.value) && Readable(config, e.value) && Faithful(e.value)
      {
        SoundIsFaithful(config, e.value);
      }
    case _ =>
  }

  /** What was read without reals, from any text, is read again from what either writer makes of it. */
  lemma ReadWriteRead(config: Config, document: string, root: Value, root': Value)
    requires Parse(config, document, root).ok && NoReals(Parse(config, document, root).root)
    ensures var v := Parse(config, document, root).root;
            && Writable(v)
            && Parse(config, Joined(Tokens(v), ":") + "\n", root') == Parsed(true, v, [])
            && Parse(config, Layout([], [], v) + "\n", root') == Parsed(true, v, [])
  {
    hide ReadValue, Tokens, Layout, Joined, Canon, Readable, Writable, Faithful, Sound, NoReals;
    var v := Parse(config, document, root).root;
    ParseIsSound(config, document, root);
    SoundIsFaithful(config, v);
    FaithfulIff(config, v);
    FastRoundTrip(config, v, ":", root');
    StyledRoundTrip(config, v, root');
  }
}
