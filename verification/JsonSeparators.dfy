/** What separates the items of an array (android/jni/jsoncpp/json_reader.cpp:538-578): `readToken` always
    succeeds, so the test for a bad separator is never true. */
module JsonSeparators {
  import opened Basics
  import opened JsonValue
  import opened JsonLexer
  import opened JsonGrammar
  import opened JsonText
  import opened JsonTokens
  import opened JsonRoundTrip

  /** Two more items behind those that have been read. */
  function WithTwo(done: seq<Entry>, first: Value, second: Value): Value {
    Arr(done + [Entry(Index(|done|), first), Entry(Index(|done| + 1), second)])
  }

  /** The two items were read, and nothing else. */
  predicate ReadTwo(o: Outcome, first: Value, second: Value) {
    o.ok && o.value == WithTwo([], first, second)
  }

  /** One round of the loop of `readArray` when an item can be read. */
  lemma Round(config: Config, t: string, done: seq<Entry>, errors: Errors)
    requires (forall e :: e in done ==> KeyLess(e.key, Index(|done|))) && ReadValue(config, t, Null, errors).ok
    ensures var first := ReadValue(config, t, Null, errors);
            var next, grown := SkipComments(first.rest), done + [Entry(Index(|done|), first.value)];
            ReadItems(config, t, done, errors)
            == if next.token.kind == ArrayEnd then Outcome(true, Arr(grown), next.rest, errors)
               else ReadItems(config, next.rest, grown, errors)
  {
    hide ReadValue, KeyLess, Put, At, SkipComments;
    PutLast(done, Index(|done|), ReadValue(config, t, Null, errors).value);
    PutLast(done, Index(|done|), Null);
    ValueIsHonest(config, t, Null, errors);
  }

  /** Behind an item, wherever it stands in an array: both it and the next one are read, and nothing else, if
      and only if the token between them is not the closing bracket. It need not be a comma. */
  lemma SeparatorIff(config: Config, t: string, done: seq<Entry>, first: Outcome, second: Outcome, errors: Errors)
    requires forall e :: e in done ==> KeyLess(e.key, Index(|done|))
    requires first == ReadValue(config, t, Null, errors) && first.ok
    requires second == ReadValue(config, SkipComments(first.rest).rest, Null, errors) && second.ok
    requires SkipComments(second.rest).token.kind == ArrayEnd
    ensures ReadItems(config, t, done, errors)
            == Outcome(true, WithTwo(done, first.value, second.value), SkipComments(second.rest).rest, errors)
       <==> SkipComments(first.rest).token.kind != ArrayEnd
  {
    hide ReadValue, ReadItems, SkipComments;
    Round(config, t, done, errors);
    var next, grown := SkipComments(first.rest), done + [Entry(Index(|done|), first.value)];
    assert grown + [Entry(Index(|grown|), second.value)]
        == done + [Entry(Index(|done|), first.value), Entry(Index(|done| + 1), second.value)];
    if next.token.kind != ArrayEnd {
      Round(config, next.rest, grown, errors);
    }
  }

  // ---- Arrays of two written values --------------------------------------------------------------------

  /** Between two written values, in any text. */
  lemma WrittenSeparatorIff(config: Config, t: string, v: Value, w: Value, errors: Errors)
    requires Writable(v) && Writable(w) && Readable(config, v) && Readable(config, w)
    requires ReadValue(config, t, Null, errors).ok && ReadValue(config, t, Null, errors).value == Canon(config, v)
    requires Spaced(SkipComments(ReadValue(config, t, Null, errors).rest).rest, Tokens(w) + ["]"])
    ensures ReadTwo(ReadItems(config, t, [], errors), Canon(config, v), Canon(config, w))
       <==> SkipComments(ReadValue(config, t, Null, errors).rest).token.kind != ArrayEnd
  {
    hide ReadValue, ReadItems, SkipComments, Spaced, Tokens, Canon, Writable, Readable, ReadToken;
    var first := ReadValue(config, t, Null, errors);
    var text := SkipComments(first.rest).rest;
    ReadsBack(config, text, w, ["]"], Null, errors);
    var second := ReadValue(config, text, Null, errors);
    assert ["]"] + [] == ["]"];
    var last := ReadsMark(config, second.rest, "]", []);
    SeparatorIff(config, t, [], first, second, errors);
    Round(config, t, [], errors);
  }

  /** The characters that are a token of their own wherever they stand, right or wrong. */
  predicate StandsAlone(c: char) {
    !IsSpace(c) && !IsNumberChar(c) && c !in {'"', '/', 't', 'f', 'n'}
  }

  lemma LexAlone(config: Config, t: string, c: char, rest: string)
    requires Leads(t, [c], rest) && StandsAlone(c)
    ensures SkipComments(t).rest == rest && (SkipComments(t).token.kind == ArrayEnd <==> c == ']')
  {
    hide SkipSpaces;
    assert ([c] + rest)[1..] == rest;
    NoComment(config, t);
  }

  /** Any such character stands for the comma, a colon or brace as well as one that begins no token at all. */
  lemma AnySignSeparatesIff(config: Config, t: string, v: Value, c: char, w: Value, errors: Errors)
    requires Writable(v) && Writable(w) && Readable(config, v) && Readable(config, w) && StandsAlone(c)
    requires Spaced(t, Tokens(v) + ([[c]] + (Tokens(w) + ["]"])))
    ensures ReadTwo(ReadItems(config, t, [], errors), Canon(config, v), Canon(config, w)) <==> c != ']'
  {
    hide ReadValue, ReadItems, SkipComments, Spaced, Tokens, Canon, Writable, Readable, SkipSpaces;
    ReadsBack(config, t, v, [[c]] + (Tokens(w) + ["]"]), Null, errors);
    var first := ReadValue(config, t, Null, errors);
    var rest := SpacedLeads(first.rest, [c], Tokens(w) + ["]"]);
    LexAlone(config, first.rest, c, rest);
    WrittenSeparatorIff(config, t, v, w, errors);
  }

  // ---- Witnesses -----------------------------------------------------------------------------------------

  lemma NullIsRead(config: Config, t: string, rest: string, previous: Value)
    requires Leads(t, "null", rest)
    ensures ReadValue(config, t, previous, []) == Outcome(true, Null, rest, [])
  {
    hide SkipSpaces, ReadToken;
    LexWord(t, "null", rest, NullToken);
    NoComment(config, t);
  }

  lemma ClosingBracket(config: Config)
    ensures SkipComments("]") == Lexed(Token(ArrayEnd, "]"), "")
  {
    assert "]" == "]" + "" && SkipSpaces("]") == "]";
    LexMark("]", "]", "");
    NoComment(config, "]");
  }

  /** The text of an array whose first item follows its bracket at once. */
  lemma OpenArray(config: Config, t: string, previous: Value)
    requires t != [] && !IsSpace(t[0]) && t[0] != ']'
    ensures ReadValue(config, "[" + t, previous, []) == ReadItems(config, t, [], [])
  {
    hide ReadItems;
    assert ("[" + t)[1..] == t && SkipSpaces("[" + t) == "[" + t;
    LexMark("[" + t, "[", t);
    NoComment(config, "[" + t);
    SameOutcome(config, "[" + t, t, previous, []);
  }

  lemma ErrorTexts()
    ensures "[null@null]" == "[" + "null@null]" && Leads("null@null]", "null", "@null]")
    ensures Leads("@null]", "@", "null]") && Leads("null]", "null", "]")
    ensures ReadToken("@null]").token.kind == ErrorToken
  {
    assert SkipSpaces("null@null]") == "null" + "@null]" && SkipSpaces("@null]") == "@" + "null]";
    assert SkipSpaces("null]") == "null" + "]";
  }

  /** An error token between two items is no error. */
  lemma ErrorTokenSeparates(config: Config, root: Value)
    ensures ReadToken("@null]").token.kind == ErrorToken
    ensures Parse(config, "[null@null]", root) == Parsed(true, WithTwo([], Null, Null), [])
  {
    hide ReadValue, ReadItems, SkipComments, ReadToken, Leads;
    ErrorTexts();
    OpenArray(config, "null@null]", root);
    NullIsRead(config, "null@null]", "@null]", Null);
    LexAlone(config, "@null]", '@', "null]");
    NullIsRead(config, "null]", "]", Null);
    ClosingBracket(config);
    SeparatorIff(config, "null@null]", [], ReadValue(config, "null@null]", Null, []),
                 ReadValue(config, "null]", Null, []), []);
  }

  lemma DigitIsRead(config: Config, t: string, d: char, rest: string)
    requires IsDigit(d) && Leads(t, [d], rest) && (rest != [] ==> !IsNumberChar(rest[0]))
    ensures SkipComments(t) == NextToken(config, t) == Lexed(Token(Number, [d]), rest)
    ensures ReadValue(config, t, Null, []) == Outcome(true, Int(d as int - '0' as int), rest, [])
  {
    hide SkipSpaces, ReadToken;
    LexNumber(t, [d], rest);
    NoComment(config, t);
    assert [d][1..] == [];
    assert ReadDigits([d], 0, 0xFFFF_FFFF / 10) == Whole(d as int - '0' as int);
  }

  lemma NumberTexts()
    ensures "[1 2 3]" == "[" + "1 2 3]" && Leads("1 2 3]", "1", " 2 3]")
    ensures Leads(" 2 3]", "2", " 3]") && Leads(" 3]", "3", "]")
  {
    assert " 2 3]"[1..] == "2 3]" && SkipSpaces("2 3]") == "2" + " 3]";
    assert " 3]"[1..] == "3]" && SkipSpaces("3]") == "3" + "]";
  }

  /** A number between two items is lost. */
  lemma NumberIsLost(config: Config, root: Value)
    ensures Parse(config, "[1 2 3]", root) == Parsed(true, WithTwo([], Int(1), Int(3)), [])
  {
    hide ReadValue, ReadItems, SkipComments, ReadToken, SkipSpaces, NextToken, Leads;
    NumberTexts();
    OpenArray(config, "1 2 3]", root);
    DigitIsRead(config, "1 2 3]", '1', " 2 3]");
    DigitIsRead(config, " 2 3]", '2', " 3]");
    DigitIsRead(config, " 3]", '3', "]");
    ClosingBracket(config);
    SeparatorIff(config, "1 2 3]", [], ReadValue(config, "1 2 3]", Null, []), ReadValue(config, " 3]", Null, []), []);
  }
}
