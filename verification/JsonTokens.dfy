/** Reading one token of a spaced text (android/jni/jsoncpp/json_reader.cpp:245-345, 348-374, 451-476). */
module JsonTokens {
  import opened Basics
  import opened JsonValue
  import opened JsonLexer
  import opened JsonGrammar
  import opened JsonText

  /** The text is white space, this token, and the rest. */
  predicate Leads(t: string, token: string, rest: string) {
    SkipSpaces(t) == token + rest
  }

  lemma SpacedLeads(t: string, token: string, tokens: seq<string>) returns (rest: string)
    requires Spaced(t, [token] + tokens)
    ensures Leads(t, token, rest) && Spaced(rest, tokens)
  {
    var s := SkipSpaces(t);
    rest := s[|token|..];
    assert ([token] + tokens)[1..] == tokens;
    assert s == s[..|token|] + s[|token|..];
  }

  predicate LexesAs(t: string, kind: Kind, token: string, rest: string) {
    ReadToken(t) == Lexed(Token(kind, token), rest)
  }

  lemma LexFrom(t: string, token: string, rest: string, kind: Kind)
    requires Leads(t, token, rest) && token != [] && Classify(token[0], token[1..] + rest) == (kind, rest)
    ensures LexesAs(t, kind, token, rest)
  {
    hide Classify;
    assert (token + rest)[1..] == token[1..] + rest;
    assert (token + rest)[..|token|] == token;
  }

  /** The tokens of one character. */
  function MarkKind(c: char): Option<Kind> {
    if c == '{' then Some(ObjectBegin)
    else if c == '}' then Some(ObjectEnd)
    else if c == '[' then Some(ArrayBegin)
    else if c == ']' then Some(ArrayEnd)
    else if c == ',' then Some(ArraySeparator)
    else if c == ':' then Some(MemberSeparator)
    else None
  }

  lemma LexMark(t: string, token: string, rest: string)
    requires Leads(t, token, rest) && |token| == 1 && MarkKind(token[0]).Some?
    ensures LexesAs(t, MarkKind(token[0]).value, token, rest)
  {
    assert token[1..] + rest == rest;
    LexFrom(t, token, rest, MarkKind(token[0]).value);
  }

  lemma LexWord(t: string, token: string, rest: string, kind: Kind)
    requires Leads(t, token, rest)
    requires (token, kind) in {("true", True), ("false", False), ("null", NullToken)}
    ensures LexesAs(t, kind, token, rest)
  {
    assert (token[1..] + rest)[..|token| - 1] == token[1..];
    assert (token[1..] + rest)[|token| - 1..] == rest;
    LexFrom(t, token, rest, kind);
  }

  lemma {:induction false} SkipNumberChars(text: string, rest: string)
    requires forall c :: c in text ==> IsNumberChar(c)
    requires rest != [] ==> !IsNumberChar(rest[0])
    ensures SkipNumber(text + rest) == rest
  {
    if text == [] {
      assert text + rest == rest;
    } else {
      assert text[0] in text && forall c :: c in text[1..] ==> c in text;
      assert (text + rest)[1..] == text[1..] + rest;
      SkipNumberChars(text[1..], rest);
    }
  }

  /** The texts that are one number token: a digit or a minus, then any characters of numbers. */
  predicate IsNumberText(text: string) {
    text != [] && (IsDigit(text[0]) || text[0] == '-') && forall c :: c in text ==> IsNumberChar(c)
  }

  lemma LexNumber(t: string, text: string, rest: string)
    requires Leads(t, text, rest) && IsNumberText(text) && (rest != [] ==> !IsNumberChar(rest[0]))
    ensures LexesAs(t, Number, text, rest)
  {
    SkipNumberChars(text[1..], rest);
    LexFrom(t, text, rest, Number);
  }

  function Literal(inside: string): string {
    "\"" + inside + "\""
  }

  lemma LexLiteral(t: string, inside: string, rest: string)
    requires Leads(t, Literal(inside), rest) && ScanString(inside + "\"" + rest) == Scan(true, rest)
    ensures LexesAs(t, StringToken, Literal(inside), rest)
  {
    hide ScanString;
    assert Literal(inside)[1..] + rest == inside + "\"" + rest;
    LexFrom(t, Literal(inside), rest, StringToken);
  }

  lemma InsideLiteral(inside: string)
    ensures |Literal(inside)| >= 2 && DecodeString(Literal(inside)) == Decode(inside)
  {
    assert Literal(inside)[1..|Literal(inside)| - 1] == inside;
  }

  /** What may stand behind a value: nothing that could be a part of a number. */
  predicate Closes(tokens: seq<string>) {
    tokens == [] || (tokens[0] != [] && !IsNumberChar(tokens[0][0]))
  }

  /** A number ends where the next token may begin. */
  lemma NumberEnds(rest: string, tokens: seq<string>)
    requires Spaced(rest, tokens) && Closes(tokens)
    ensures rest != [] ==> !IsNumberChar(rest[0])
  {
    if rest != [] && !IsSpace(rest[0]) {
      assert SkipSpaces(rest) == rest;
    }
  }

  /** A token that is no comment is what every way of reading sees. */
  lemma NoComment(config: Config, t: string)
    requires ReadToken(t).token.kind != Comment
    ensures SkipComments(t) == ReadToken(t) == NextToken(config, t)
  {
  }

  lemma ReadsMark(config: Config, t: string, token: string, tail: seq<string>) returns (rest: string)
    requires Spaced(t, [token] + tail) && |token| == 1 && MarkKind(token[0]).Some?
    ensures SkipComments(t) == ReadToken(t) == NextToken(config, t)
            == Lexed(Token(MarkKind(token[0]).value, token), rest)
    ensures Spaced(rest, tail) && SkipSpaces(t) == token + rest
  {
    hide Spaced, ReadToken, SkipSpaces;
    rest := SpacedLeads(t, token, tail);
    LexMark(t, token, rest);
    NoComment(config, t);
  }

  lemma SpacedSkipped(t: string, tokens: seq<string>)
    requires Spaced(t, tokens)
    ensures Spaced(SkipSpaces(t), tokens)
  {
    SkipTwice(t);
  }

  /** A key behind all others goes to the end. */
  lemma {:induction false} LastKey(entries: seq<Entry>, key: Key)
    requires forall e :: e in entries ==> KeyLess(e.key, key)
    ensures LowerBound(entries, key) == |entries|
  {
    if entries != [] {
      assert entries[0] in entries && forall e :: e in entries[1..] ==> e in entries;
      LastKey(entries[1..], key);
    }
  }

  lemma PutLast(entries: seq<Entry>, key: Key, value: Value)
    requires forall e :: e in entries ==> KeyLess(e.key, key)
    ensures At(entries, key) == Null && Put(entries, key, value) == entries + [Entry(key, value)]
  {
    LastKey(entries, key);
  }

  /** The operation has read this value and has left the text with the tokens behind it. */
  predicate Reads(o: Outcome, value: Value, errors: Errors, tail: seq<string>) {
    o.ok && o.value == value && o.errors == errors && Spaced(o.rest, tail)
  }

  lemma SameOutcome(config: Config, t: string, rest: string, previous: Value, errors: Errors)
    requires NextToken(config, t).rest == rest
    ensures NextToken(config, t).token.kind == ArrayBegin
            ==> ReadValue(config, t, previous, errors) == ReadArray(config, rest, errors)
    ensures NextToken(config, t).token.kind == ObjectBegin
            ==> ReadValue(config, t, previous, errors) == ReadMembers(config, rest, [], [], errors)
  {
  }
}
