/** The JSON grammar (sections 2.1 to 2.5 of RFC 4627) and what the reader makes of its texts
    (android/jni/jsoncpp/json_reader.cpp:194-242, 463-771). */
module JsonSyntax {
  import opened Basics
  import opened JsonValue
  import opened JsonLexer
  import opened JsonGrammar
  import opened JsonText
  import opened JsonTokens

  // ---- Strings ---------------------------------------------------------------------------------------

  /** One character of a string literal: itself, a backslash and a letter, or a backslash, u and four digits. */
  datatype Piece = Plain(c: char) | Short(letter: char) | Code(hex: string)

  predicate ValidPiece(p: Piece) {
    match p
    case Plain(c) => c != '"' && c != '\\'
    case Short(letter) => Unescape(letter).Some?
    case Code(hex) => |hex| == 4 && forall i :: 0 <= i < 4 ==> HexValue(hex[i]).Some?
  }

  predicate ValidPieces(pieces: seq<Piece>) {
    forall p :: p in pieces ==> ValidPiece(p)
  }

  function PieceText(p: Piece): string {
    match p
    case Plain(c) => [c]
    case Short(letter) => ['\\', letter]
    case Code(hex) => "\\u" + hex
  }

  function Inside(pieces: seq<Piece>): string {
    if pieces == [] then [] else PieceText(pieces[0]) + Inside(pieces[1..])
  }

  function CodeValue(hex: string): nat
    requires ValidPiece(Code(hex))
  {
    FourDigitValue(hex);
    assert hex[..4] == hex;
    HexEscape(hex).value
  }

  /** The escape of a first surrogate half. */
  predicate IsHigh(p: Piece)
    requires ValidPiece(p)
  {
    p.Code? && 0xD800 <= CodeValue(p.hex) <= 0xDBFF
  }

  /** Every escape of a first surrogate half is followed at once by another escape with four digits. */
  predicate Paired(pieces: seq<Piece>)
    requires ValidPieces(pieces)
    decreases |pieces|
  {
    if pieces == [] then true
    else if !IsHigh(pieces[0]) then Paired(pieces[1..])
    else |pieces| > 1 && pieces[1].Code? && Paired(pieces[2..])
  }

  /** The bytes that a literal stands for. */
  function StringMeaning(pieces: seq<Piece>): string
    requires ValidPieces(pieces) && Paired(pieces)
    decreases |pieces|
  {
    if pieces == [] then []
    else if IsHigh(pieces[0]) then
      Utf8(0x1_0000 + CodeValue(pieces[0].hex) % 0x400 * 0x400 + CodeValue(pieces[1].hex) % 0x400)
          + StringMeaning(pieces[2..])
    else
      var first :=
        match pieces[0]
        case Plain(c) => [c]
        case Short(letter) => [Unescape(letter).value]
        case Code(hex) => Utf8(CodeValue(hex));
      first + StringMeaning(pieces[1..])
  }

  lemma {:induction false} ScanPlain(a: string, t: string)
    requires '"' !in a && '\\' !in a
    ensures ScanString(a + t) == ScanString(t)
  {
    if a == [] {
      assert a + t == t;
    } else {
      assert a[0] in a && forall c :: c in a[1..] ==> c in a;
      assert (a + t)[1..] == a[1..] + t;
      ScanPlain(a[1..], t);
    }
  }

  lemma ScanPiece(p: Piece, t: string)
    requires ValidPiece(p)
    ensures ScanString(PieceText(p) + t) == ScanString(t)
  {
    match p
    case Plain(c) => ScanPlain([c], t);
    case Short(letter) => assert (PieceText(p) + t)[2..] == t;
    case Code(hex) =>
      assert (PieceText(p) + t)[2..] == hex + t;
      ScanPlain(hex, t);
  }

  lemma {:induction false} ScanPieces(pieces: seq<Piece>, rest: string)
    requires ValidPieces(pieces)
    ensures ScanString(Inside(pieces) + "\"" + rest) == Scan(true, rest)
    decreases |pieces|
  {
    hide PieceText, ValidPiece;
    if pieces == [] {
      assert Inside(pieces) + "\"" + rest == "\"" + rest && ("\"" + rest)[1..] == rest;
    } else {
      ScanPiece(pieces[0], Inside(pieces[1..]) + "\"" + rest);
      assert Inside(pieces) + "\"" + rest == PieceText(pieces[0]) + (Inside(pieces[1..]) + "\"" + rest);
      ScanPieces(pieces[1..], rest);
    }
  }

  /** One escape with four digits, whatever follows. */
  lemma HexEscapeOf(hex: string, t: string)
    requires ValidPiece(Code(hex))
    ensures HexEscape(hex + t) == Ok(CodeValue(hex)) && (hex + t)[4..] == t
  {
    hide HexDigits;
    FourDigitValue(hex);
    assert (hex + t)[..4] == hex && hex[..4] == hex;
  }

  lemma CodePointAlone(hex: string, t: string)
    requires ValidPiece(Code(hex)) && !IsHigh(Code(hex))
    ensures CodePoint(hex + t) == Ok((CodeValue(hex), t))
  {
    hide HexEscape, CodeValue, ValidPiece;
    HexEscapeOf(hex, t);
  }

  lemma CodePointPair(hex: string, low: string, t: string)
    requires ValidPiece(Code(hex)) && ValidPiece(Code(low)) && IsHigh(Code(hex))
    ensures CodePoint(hex + ("\\u" + low + t))
            == Ok((0x1_0000 + CodeValue(hex) % 0x400 * 0x400 + CodeValue(low) % 0x400, t))
  {
    hide HexEscape, CodeValue;
    var rest := "\\u" + low + t;
    HexEscapeOf(hex, rest);
    assert rest[2..] == low + t;
    HexEscapeOf(low, t);
    assert rest[6..] == (low + t)[4..];
  }

  lemma CodePointUnpaired(hex: string, pieces: seq<Piece>)
    requires ValidPiece(Code(hex)) && IsHigh(Code(hex)) && ValidPieces(pieces) && (pieces == [] || !pieces[0].Code?)
    ensures CodePoint(hex + Inside(pieces)).Err?
  {
    hide HexEscape, CodeValue;
    HexEscapeOf(hex, Inside(pieces));
    if pieces != [] {
      assert ValidPiece(pieces[0]);
    }
  }

  /** The text between the quotes is decoded to its meaning if all halves are paired, and refused if not. */
  lemma {:induction false} DecodesIff(pieces: seq<Piece>)
    requires ValidPieces(pieces)
    ensures if Paired(pieces) then Decode(Inside(pieces)) == Ok(StringMeaning(pieces)) else Decode(Inside(pieces)).Err?
    decreases |pieces|
  {
    hide CodePoint, Utf8, CodeValue, Unescape;
    if pieces != [] {
      var p, more := pieces[0], Inside(pieces[1..]);
      assert p in pieces && ValidPiece(p);
      match p
      case Plain(c) =>
        assert ([c] + more)[1..] == more;
        DecodesIff(pieces[1..]);
      case Short(letter) =>
        ShortIsNoCode(letter);
        assert (['\\', letter] + more)[2..] == more;
        DecodesIff(pieces[1..]);
      case Code(hex) =>
        assert ("\\u" + hex + more)[2..] == hex + more;
        CodeDecodesIff(pieces);
    }
  }

  lemma ShortIsNoCode(letter: char)
    requires Unescape(letter).Some?
    ensures letter != 'u'
  {
  }

  lemma {:induction false} CodeDecodesIff(pieces: seq<Piece>)
    requires ValidPieces(pieces) && pieces != [] && pieces[0].Code?
    ensures if Paired(pieces) then Decode(Inside(pieces)) == Ok(StringMeaning(pieces)) else Decode(Inside(pieces)).Err?
    decreases |pieces|, 0
  {
    hide CodePoint, Utf8, CodeValue, Unescape, Decode, ValidPiece;
    var hex, more := pieces[0].hex, Inside(pieces[1..]);
    assert pieces[0] in pieces && ValidPiece(pieces[0]);
    assert Inside(pieces) == "\\u" + hex + more && Inside(pieces)[2..] == hex + more;
    DecodeUnicode(Inside(pieces));
    if !IsHigh(pieces[0]) {
      CodePointAlone(hex, more);
      DecodesIff(pieces[1..]);
    } else if |pieces| > 1 && pieces[1].Code? {
      assert pieces[1] in pieces && ValidPiece(pieces[1]);
      assert pieces[1..][1..] == pieces[2..];
      assert more == "\\u" + pieces[1].hex + Inside(pieces[2..]);
      CodePointPair(hex, pieces[1].hex, Inside(pieces[2..]));
      DecodesIff(pieces[2..]);
    } else {
      CodePointUnpaired(hex, pieces[1..]);
    }
  }

  // ---- Documents -------------------------------------------------------------------------------------

  /** A JSON value as it is written: numbers with their text, strings with their pieces. */
  datatype Doc =
    | NullDoc
    | BoolDoc(b: bool)
    | NumberDoc(text: string)
    | StringDoc(pieces: seq<Piece>)
    | ArrayDoc(items: seq<Doc>)
    | ObjectDoc(members: seq<Member>)

  datatype Member = Member(name: seq<Piece>, value: Doc)

  /** Tokens that the lexer tells apart. */
  predicate Lexical(d: Doc) {
    match d
    case NumberDoc(text) => IsNumberText(text)
    case StringDoc(pieces) => ValidPieces(pieces)
    case ArrayDoc(items) => forall e :: e in items ==> Lexical(e)
    case ObjectDoc(members) => forall m :: m in members ==> ValidPieces(m.name) && Lexical(m.value)
    case _ => true
  }

  function DocTokens(d: Doc): seq<string>
    decreases d, 1, 0
  {
    match d
    case NullDoc => ["null"]
    case BoolDoc(b) => [if b then "true" else "false"]
    case NumberDoc(text) => [text]
    case StringDoc(pieces) => [Literal(Inside(pieces))]
    case ArrayDoc(_) => ["["] + ItemDocTokens(d, 0) + ["]"]
    case ObjectDoc(_) => ["{"] + MemberDocTokens(d, 0) + ["}"]
  }

  function ItemDocTokens(d: Doc, from: nat): seq<string>
    requires d.ArrayDoc?
    decreases d, 0, |d.items| - from
  {
    if from >= |d.items| then [] else Comma(from) + DocTokens(d.items[from]) + ItemDocTokens(d, from + 1)
  }

  function MemberDocTokens(d: Doc, from: nat): seq<string>
    requires d.ObjectDoc?
    decreases d, 0, |d.members| - from
  {
    if from >= |d.members| then []
    else
      var m := d.members[from];
      Comma(from) + [Literal(Inside(m.name)), ":"] + DocTokens(m.value) + MemberDocTokens(d, from + 1)
  }

  /** What the reader accepts: paired halves in every string and name, and numbers that it or `sscanf` reads. */
  predicate Accepted(config: Config, d: Doc)
    requires Lexical(d)
  {
    match d
    case NumberDoc(text) => DecodeNumber(config.toDouble, text).Ok?
    case StringDoc(pieces) => Paired(pieces)
    case ArrayDoc(items) => forall e :: e in items ==> Accepted(config, e)
    case ObjectDoc(members) => forall m :: m in members ==> Paired(m.name) && Accepted(config, m.value)
    case _ => true
  }

  /** The value of a document: a repeated name means its last member, and strings end before a NUL. */
  function Meaning(config: Config, d: Doc): Value
    requires Lexical(d) && Accepted(config, d)
    decreases d, 1, 0
  {
    match d
    case NullDoc => Null
    case BoolDoc(b) => Bool(b)
    case NumberDoc(text) => DecodeNumber(config.toDouble, text).value
    case StringDoc(pieces) => Str(Some(UpToNul(StringMeaning(pieces))))
    case ArrayDoc(items) => Arr(ItemMeanings(config, d, |items|))
    case ObjectDoc(members) => Obj(MemberMeanings(config, d, |members|))
  }

  function ItemMeanings(config: Config, d: Doc, count: nat): (r: seq<Entry>)
    requires d.ArrayDoc? && Lexical(d) && count <= |d.items|
    requires forall i :: 0 <= i < count ==> Accepted(config, d.items[i])
    ensures |r| == count
    decreases d, 0, count
  {
    if count == 0 then []
    else ItemMeanings(config, d, count - 1) + [Entry(Index(count - 1), Meaning(config, d.items[count - 1]))]
  }

  predicate MemberAccepted(config: Config, m: Member)
    requires ValidPieces(m.name) && Lexical(m.value)
  {
    Paired(m.name) && Accepted(config, m.value)
  }

  function MemberMeanings(config: Config, d: Doc, count: nat): seq<Entry>
    requires d.ObjectDoc? && Lexical(d) && count <= |d.members|
    requires forall i :: 0 <= i < count ==> MemberAccepted(config, d.members[i])
    decreases d, 0, count
  {
    if count == 0 then []
    else
      var m := d.members[count - 1];
      assert MemberAccepted(config, m);
      Put(MemberMeanings(config, d, count - 1), Name(UpToNul(StringMeaning(m.name))), Meaning(config, m.value))
  }

  // ---- Reading a document ----------------------------------------------------------------------------

  /** The document has been read with its meaning, or refused because of what the reader does not accept. */
  predicate ReadsIf(config: Config, o: Outcome, d: Doc, errors: Errors, tail: seq<string>)
    requires Lexical(d)
  {
    if Accepted(config, d) then Reads(o, Meaning(config, d), errors, tail) else !o.ok
  }

  lemma WordReads(config: Config, t: string, word: string, kind: Kind, tail: seq<string>, previous: Value,
      errors: Errors)
    requires (word, kind) in {("true", True), ("false", False), ("null", NullToken)}
    requires Spaced(t, [word] + tail)
    ensures Reads(ReadValue(config, t, previous, errors),
                  if kind == NullToken then Null else Bool(kind == True), errors, tail)
  {
    hide Spaced, ReadToken, SkipSpaces, Classify;
    var rest := SpacedLeads(t, word, tail);
    LexWord(t, word, rest, kind);
    NoComment(config, t);
  }

  lemma NumberReads(config: Config, t: string, text: string, tail: seq<string>, previous: Value, errors: Errors)
    requires IsNumberText(text) && Spaced(t, [text] + tail) && Closes(tail)
    ensures ReadsIf(config, ReadValue(config, t, previous, errors), NumberDoc(text), errors, tail)
  {
    hide Spaced, ReadToken, DecodeNumber, SkipSpaces, Classify, IsNumberText;
    var rest := SpacedLeads(t, text, tail);
    NumberEnds(rest, tail);
    LexNumber(t, text, rest);
    NoComment(config, t);
  }

  /** A literal as a token, and what it decodes to. */
  lemma LiteralReads(config: Config, t: string, pieces: seq<Piece>, tail: seq<string>) returns (rest: string)
    requires ValidPieces(pieces) && Spaced(t, [Literal(Inside(pieces))] + tail)
    ensures SkipComments(t) == NextToken(config, t) == Lexed(Token(StringToken, Literal(Inside(pieces))), rest)
    ensures Spaced(rest, tail) && |Literal(Inside(pieces))| >= 2
    ensures if Paired(pieces) then DecodeString(Literal(Inside(pieces))) == Ok(StringMeaning(pieces))
            else DecodeString(Literal(Inside(pieces))).Err?
  {
    hide Spaced, ReadToken, SkipSpaces, Inside, DecodeString, ValidPieces, Paired, StringMeaning;
    rest := SpacedLeads(t, Literal(Inside(pieces)), tail);
    ScanPieces(pieces, rest);
    LexLiteral(t, Inside(pieces), rest);
    NoComment(config, t);
    InsideLiteral(Inside(pieces));
    DecodesIff(pieces);
  }

  lemma StringReads(config: Config, t: string, pieces: seq<Piece>, tail: seq<string>, previous: Value, errors: Errors)
    requires ValidPieces(pieces) && Spaced(t, [Literal(Inside(pieces))] + tail)
    ensures ReadsIf(config, ReadValue(config, t, previous, errors), StringDoc(pieces), errors, tail)
  {
    hide Spaced, NextToken, Literal, Inside, DecodeString, ValidPieces, Paired, StringMeaning, UpToNul;
    var rest := LiteralReads(config, t, pieces, tail);
  }

  /** Every text of the grammar, spaced in any way: the reader gives its meaning and stops behind its last
      token, or it fails, exactly as the document is accepted or not. */
  lemma {:induction false} DocReads(config: Config, t: string, d: Doc, tail: seq<string>, previous: Value,
      errors: Errors)
    requires Lexical(d) && Spaced(t, DocTokens(d) + tail) && (d.NumberDoc? ==> Closes(tail))
    ensures ReadsIf(config, ReadValue(config, t, previous, errors), d, errors, tail)
    decreases d, 1, 0
  {
    hide Spaced, ReadToken, IsNumberText, ValidPieces, ReadArray, ReadMembers, ReadValue, NextToken, ItemDocTokens,
         MemberDocTokens, Inside,
         DecodeNumber, Paired, StringMeaning, ItemMeanings, MemberMeanings;
    match d
    case NullDoc => WordReads(config, t, "null", NullToken, tail, previous, errors);
    case BoolDoc(b) =>
      if b {
        WordReads(config, t, "true", True, tail, previous, errors);
      } else {
        WordReads(config, t, "false", False, tail, previous, errors);
      }
    case NumberDoc(text) => NumberReads(config, t, text, tail, previous, errors);
    case StringDoc(pieces) => StringReads(config, t, pieces, tail, previous, errors);
    case ArrayDoc(items) =>
      assert DocTokens(d) + tail == ["["] + (ItemDocTokens(d, 0) + (["]"] + tail));
      var rest := ReadsMark(config, t, "[", ItemDocTokens(d, 0) + (["]"] + tail));
      ArrayReads(config, rest, d, tail, errors);
      SameOutcome(config, t, rest, previous, errors);
    case ObjectDoc(members) =>
      assert DocTokens(d) + tail == ["{"] + (MemberDocTokens(d, 0) + (["}"] + tail));
      var rest := ReadsMark(config, t, "{", MemberDocTokens(d, 0) + (["}"] + tail));
      ObjectReads(config, rest, d, tail, errors);
      SameOutcome(config, t, rest, previous, errors);
  }

  /** No document begins with a closing bracket. */
  lemma DocStart(d: Doc)
    requires Lexical(d)
    ensures DocTokens(d) != [] && DocTokens(d)[0] != [] && DocTokens(d)[0][0] != ']'
  {
  }

  lemma {:induction false} ArrayReads(config: Config, t: string, d: Doc, tail: seq<string>, errors: Errors)
    requires d.ArrayDoc? && Lexical(d) && Spaced(t, ItemDocTokens(d, 0) + (["]"] + tail))
    ensures ReadsIf(config, ReadArray(config, t, errors), d, errors, tail)
    decreases d, 0, |d.items| + 1
  {
    hide Spaced, ReadToken, Reads, DocTokens, ReadItems, Lexical, Accepted, Meaning, Classify;
    if d.items == [] {
      assert ItemDocTokens(d, 0) + (["]"] + tail) == ["]"] + tail;
      var rest := ReadsMark(config, t, "]", tail);
      assert ("]" + rest)[1..] == rest;
      EmptyReads(config, rest, errors, tail);
    } else {
      var first := d.items[0];
      ItemIsLexical(d, 0);
      DocStart(first);
      var more := ItemDocTokens(d, 1) + (["]"] + tail);
      assert ItemDocTokens(d, 0) + (["]"] + tail) == DocTokens(first) + more;
      assert DocTokens(first) + more == [DocTokens(first)[0]] + (DocTokens(first)[1..] + more);
      var rest := SpacedLeads(t, DocTokens(first)[0], DocTokens(first)[1..] + more);
      SpacedSkipped(t, DocTokens(first) + more);
      ItemsRead(config, SkipSpaces(t), d, 0, tail, errors);
    }
  }

  lemma EmptyReads(config: Config, rest: string, errors: Errors, tail: seq<string>)
    requires Spaced(rest, tail)
    ensures ReadsIf(config, Outcome(true, Arr([]), rest, errors), ArrayDoc([]), errors, tail)
    ensures ReadsIf(config, Outcome(true, Obj([]), rest, errors), ObjectDoc([]), errors, tail)
  {
  }

  lemma ItemIsLexical(d: Doc, i: nat)
    requires d.ArrayDoc? && Lexical(d) && i < |d.items|
    ensures Lexical(d.items[i])
  {
    assert d.items[i] in d.items;
  }

  /** One round of the loop of `readArray`. */
  lemma ItemsStep(config: Config, t: string, done: seq<Entry>, errors: Errors, value: Value, tail: seq<string>)
      returns (rest: string)
    requires forall e :: e in done ==> KeyLess(e.key, Index(|done|))
    requires Reads(ReadValue(config, t, Null, errors), value, errors, tail)
    ensures Spaced(rest, tail)
    ensures var next, grown := SkipComments(rest), done + [Entry(Index(|done|), value)];
            ReadItems(config, t, done, errors)
            == if next.token.kind == ArrayEnd then Outcome(true, Arr(grown), next.rest, errors)
               else ReadItems(config, next.rest, grown, errors)
  {
    hide Spaced, KeyLess, ReadValue, Put, At, SkipComments;
    PutLast(done, Index(|done|), value);
    rest := ReadValue(config, t, Null, errors).rest;
  }

  lemma ItemsFail(config: Config, t: string, done: seq<Entry>, errors: Errors)
    requires forall e :: e in done ==> KeyLess(e.key, Index(|done|))
    requires !ReadValue(config, t, Null, errors).ok
    ensures !ReadItems(config, t, done, errors).ok
  {
    hide KeyLess, ReadValue, Put, At, SkipComments, Recover;
    PutLast(done, Index(|done|), Null);
  }

  lemma {:induction false} ItemMeaningsAscend(config: Config, d: Doc, count: nat)
    requires d.ArrayDoc? && Lexical(d) && count <= |d.items|
    requires forall i :: 0 <= i < count ==> Accepted(config, d.items[i])
    ensures forall e :: e in ItemMeanings(config, d, count) ==> KeyLess(e.key, Index(count))
  {
    hide Meaning, Lexical, Accepted;
    if count > 0 {
      ItemMeaningsAscend(config, d, count - 1);
    }
  }

  /** The tokens behind an item. */
  lemma ItemsBehind(d: Doc, from: nat, tail: seq<string>)
    requires d.ArrayDoc? && 0 < from <= |d.items|
    ensures ItemDocTokens(d, from) + (["]"] + tail)
         == if from == |d.items| then ["]"] + tail
            else [","] + (DocTokens(d.items[from]) + (ItemDocTokens(d, from + 1) + (["]"] + tail)))
  {
    hide DocTokens;
  }

  lemma ItemRefused(config: Config, d: Doc, i: nat)
    requires d.ArrayDoc? && Lexical(d) && i < |d.items| && !Accepted(config, d.items[i])
    ensures !Accepted(config, d)
  {
    assert d.items[i] in d.items;
  }

  lemma {:induction false} ItemsRead(config: Config, t: string, d: Doc, from: nat, tail: seq<string>, errors: Errors)
    requires d.ArrayDoc? && Lexical(d) && from < |d.items|
    requires forall i :: 0 <= i < from ==> Accepted(config, d.items[i])
    requires Spaced(t, DocTokens(d.items[from]) + (ItemDocTokens(d, from + 1) + (["]"] + tail)))
    ensures ReadsIf(config, ReadItems(config, t, ItemMeanings(config, d, from), errors), d, errors, tail)
    decreases d, 0, |d.items| - from
  {
    hide Spaced, ReadToken, DocTokens, ItemDocTokens, Lexical, ReadValue, ReadItems, At, SkipComments, KeyLess,
         Accepted, Meaning, ItemMeanings;
    ItemIsLexical(d, from);
    ItemMeaningsAscend(config, d, from);
    ItemsBehind(d, from + 1, tail);
    var item, done := d.items[from], ItemMeanings(config, d, from);
    var behind := ItemDocTokens(d, from + 1) + (["]"] + tail);
    DocReads(config, t, item, behind, Null, errors);
    if !Accepted(config, item) {
      ItemRefused(config, d, from);
      ItemsFail(config, t, done, errors);
    } else {
      ItemMeaningsStep(config, d, from);
      var rest := ItemsStep(config, t, done, errors, Meaning(config, item), behind);
      if from + 1 == |d.items| {
        var last := ReadsMark(config, rest, "]", tail);
        AllItemsRead(config, d, last, errors, tail);
      } else {
        var next := ReadsMark(config, rest, ",",
            DocTokens(d.items[from + 1]) + (ItemDocTokens(d, from + 2) + (["]"] + tail)));
        ItemsRead(config, next, d, from + 1, tail, errors);
      }
    }
  }

  lemma ItemMeaningsStep(config: Config, d: Doc, from: nat)
    requires d.ArrayDoc? && Lexical(d) && from < |d.items|
    requires forall i :: 0 <= i <= from ==> Accepted(config, d.items[i])
    ensures ItemMeanings(config, d, from + 1) == ItemMeanings(config, d, from)
            + [Entry(Index(from), Meaning(config, d.items[from]))]
  {
    hide Meaning, Lexical, Accepted;
  }

  lemma AllItemsRead(config: Config, d: Doc, rest: string, errors: Errors, tail: seq<string>)
    requires d.ArrayDoc? && Lexical(d) && forall i :: 0 <= i < |d.items| ==> Accepted(config, d.items[i])
    requires Spaced(rest, tail)
    ensures ReadsIf(config, Outcome(true, Arr(ItemMeanings(config, d, |d.items|)), rest, errors), d, errors, tail)
  {
    hide Spaced, ItemMeanings;
  }

  // ---- Objects ---------------------------------------------------------------------------------------

  /** What the loop of `readObject` makes of one member, up to the end of its value. */
  lemma MemberStep(config: Config, t: string, done: seq<Entry>, before: string, errors: Errors, m: Member,
      tail: seq<string>)
    returns (rest: string)
    requires ValidPieces(m.name) && Lexical(m.value) && Closes(tail)
    requires Spaced(t, [Literal(Inside(m.name))] + ([":"] + (DocTokens(m.value) + tail)))
    ensures MemberAccepted(config, m) ==>
              && Spaced(rest, tail)
              && var key := Name(UpToNul(StringMeaning(m.name)));
              ReadMembers(config, t, done, before, errors)
              == EndMember(config, rest, Put(done, key, Meaning(config, m.value)), StringMeaning(m.name), errors)
    ensures !MemberAccepted(config, m) ==> !ReadMembers(config, t, done, before, errors).ok
    decreases m.value, 3, 0
  {
    hide Spaced, SkipComments, NextToken, DocTokens, Literal, Inside, ValidPieces, Paired, StringMeaning,
         DecodeString, NamedMember, Lexical, Accepted, Meaning, Recover, EndMember;
    rest := LiteralReads(config, t, m.name, [":"] + (DocTokens(m.value) + tail));
    if Paired(m.name) {
      rest := NamedStep(config, rest, done, StringMeaning(m.name), errors, m.value, tail);
    }
  }

  lemma NamedStep(config: Config, t: string, done: seq<Entry>, name: string, errors: Errors, d: Doc, tail: seq<string>)
    returns (rest: string)
    requires Lexical(d) && Closes(tail) && Spaced(t, [":"] + (DocTokens(d) + tail))
    ensures Accepted(config, d) ==>
              && Spaced(rest, tail)
              && NamedMember(config, t, done, name, errors)
                 == EndMember(config, rest, Put(done, Name(UpToNul(name)), Meaning(config, d)), name, errors)
    ensures !Accepted(config, d) ==> !NamedMember(config, t, done, name, errors).ok
    decreases d, 2, 0
  {
    hide Spaced, ReadToken, SkipComments, NextToken, DocTokens, Lexical, Accepted, Meaning, Recover, EndMember,
         ReadValue, Put, At, UpToNul;
    var value := ReadsMark(config, t, ":", DocTokens(d) + tail);
    var previous := At(done, Name(UpToNul(name)));
    DocReads(config, value, d, tail, previous, errors);
    rest := ReadValue(config, value, previous, errors).rest;
  }

  lemma MembersBehind(d: Doc, from: nat, tail: seq<string>)
    requires d.ObjectDoc? && from <= |d.members|
    ensures MemberDocTokens(d, from) + (["}"] + tail)
         == if from == |d.members| then ["}"] + tail
            else
              var m := d.members[from];
              Comma(from) + ([Literal(Inside(m.name))]
                  + ([":"] + (DocTokens(m.value) + (MemberDocTokens(d, from + 1) + (["}"] + tail)))))
  {
    hide DocTokens, Literal, Inside, Comma;
  }

  lemma MemberRefused(config: Config, d: Doc, i: nat)
    requires d.ObjectDoc? && Lexical(d) && i < |d.members|
    ensures ValidPieces(d.members[i].name) && Lexical(d.members[i].value)
    ensures !MemberAccepted(config, d.members[i]) ==> !Accepted(config, d)
  {
    assert d.members[i] in d.members;
  }

  lemma MemberMeaningsStep(config: Config, d: Doc, from: nat)
    requires d.ObjectDoc? && Lexical(d) && from < |d.members|
    requires forall i :: 0 <= i <= from ==> MemberAccepted(config, d.members[i])
    ensures var m := d.members[from];
            && ValidPieces(m.name) && Paired(m.name) && Lexical(m.value) && Accepted(config, m.value)
            && MemberMeanings(config, d, from + 1)
               == Put(MemberMeanings(config, d, from), Name(UpToNul(StringMeaning(m.name))), Meaning(config, m.value))
  {
    hide Meaning, ValidPieces, Accepted, Paired, Put, StringMeaning, UpToNul;
    MemberRefused(config, d, from);
  }

  lemma AllMembersRead(config: Config, d: Doc, rest: string, errors: Errors, tail: seq<string>)
    requires d.ObjectDoc? && Lexical(d) && forall i :: 0 <= i < |d.members| ==> MemberAccepted(config, d.members[i])
    requires Spaced(rest, tail)
    ensures ReadsIf(config, Outcome(true, Obj(MemberMeanings(config, d, |d.members|)), rest, errors), d, errors, tail)
  {
    hide Spaced, MemberMeanings, ValidPieces, Paired;
    forall m | m in d.members
      ensures Paired(m.name) && Accepted(config, m.value)
    {
      var i :| 0 <= i < |d.members| && d.members[i] == m;
      assert MemberAccepted(config, d.members[i]);
    }
  }

  lemma {:induction false} MembersRead(config: Config, t: string, d: Doc, from: nat, before: string,
      tail: seq<string>, errors: Errors)
    requires d.ObjectDoc? && Lexical(d) && from < |d.members|
    requires forall i :: 0 <= i < from ==> MemberAccepted(config, d.members[i])
    requires var m := d.members[from];
             Spaced(t, [Literal(Inside(m.name))]
                 + ([":"] + (DocTokens(m.value) + (MemberDocTokens(d, from + 1) + (["}"] + tail)))))
    ensures ReadsIf(config, ReadMembers(config, t, MemberMeanings(config, d, from), before, errors), d, errors, tail)
    decreases d, 0, |d.members| - from
  {
    hide Spaced, ReadToken, SkipComments, DocTokens, MemberDocTokens, Literal, Inside, Lexical, ValidPieces,
         ReadMembers, Accepted, Meaning,
         MemberMeanings, MemberAccepted, Put, UpToNul, StringMeaning, Paired;
    MemberRefused(config, d, from);
    MembersBehind(d, from + 1, tail);
    var m, done := d.members[from], MemberMeanings(config, d, from);
    var behind := MemberDocTokens(d, from + 1) + (["}"] + tail);
    var rest := MemberStep(config, t, done, before, errors, m, behind);
    if MemberAccepted(config, m) {
      MemberMeaningsStep(config, d, from);
      if from + 1 == |d.members| {
        var last := ReadsMark(config, rest, "}", tail);
        AllMembersRead(config, d, last, errors, tail);
      } else {
        var n := d.members[from + 1];
        var more := [Literal(Inside(n.name))] + ([":"]
            + (DocTokens(n.value) + (MemberDocTokens(d, from + 2) + (["}"] + tail))));
        var next := ReadsMark(config, rest, ",", more);
        MembersRead(config, next, d, from + 1, StringMeaning(m.name), tail, errors);
      }
    }
  }

  lemma {:induction false} ObjectReads(config: Config, t: string, d: Doc, tail: seq<string>, errors: Errors)
    requires d.ObjectDoc? && Lexical(d) && Spaced(t, MemberDocTokens(d, 0) + (["}"] + tail))
    ensures ReadsIf(config, ReadMembers(config, t, [], [], errors), d, errors, tail)
    decreases d, 0, |d.members| + 1
  {
    hide Spaced, ReadToken, SkipComments, DocTokens, MemberDocTokens, Literal, Inside, Lexical, ReadMembers, Accepted,
         Meaning;
    MembersBehind(d, 0, tail);
    if d.members == [] {
      var rest := ReadsMark(config, t, "}", tail);
      NoMembers(config, t, errors);
      EmptyReads(config, rest, errors, tail);
    } else {
      var m := d.members[0];
      var more := [Literal(Inside(m.name))] + ([":"] + (DocTokens(m.value) + (MemberDocTokens(d, 1) + (["}"] + tail))));
      assert Comma(0) + more == more;
      MembersRead(config, t, d, 0, [], tail, errors);
    }
  }

  lemma NoMembers(config: Config, t: string, errors: Errors)
    requires SkipComments(t).token.kind == ObjectEnd
    ensures ReadMembers(config, t, [], [], errors) == Outcome(true, Obj([]), SkipComments(t).rest, errors)
  {
  }

  // ---- The texts of RFC 4627 -------------------------------------------------------------------------

  /** Section 2.4: a minus, digits without leading zeros, decimals, an exponent. */
  datatype Numeral = Numeral(minus: bool, whole: string, decimals: string, marker: string, sign: string,
      exponent: string)

  predicate AllDigits(s: string) {
    forall c :: c in s ==> IsDigit(c)
  }

  predicate ValidNumeral(n: Numeral) {
    && n.whole != [] && AllDigits(n.whole) && (n.whole[0] == '0' ==> n.whole == "0")
    && AllDigits(n.decimals)
    && if n.marker == "" then n.sign == "" && n.exponent == ""
       else n.marker in {"e", "E"} && n.sign in {"", "+", "-"} && n.exponent != [] && AllDigits(n.exponent)
  }

  function NumeralText(n: Numeral): string {
    (if n.minus then "-" else "") + n.whole + (if n.decimals == [] then "" else "." + n.decimals) + n.marker + n.sign
        + n.exponent
  }

  ghost predicate IsNumeral(text: string) {
    exists n :: ValidNumeral(n) && NumeralText(n) == text
  }

  /** Sections 2.1 to 2.5, without the white space between the tokens. */
  ghost predicate Rfc(d: Doc) {
    match d
    case NumberDoc(text) => IsNumeral(text)
    case StringDoc(pieces) => RfcPieces(pieces)
    case ArrayDoc(items) => forall e :: e in items ==> Rfc(e)
    case ObjectDoc(members) => forall m :: m in members ==> RfcPieces(m.name) && Rfc(m.value)
    case _ => true
  }

  /** Section 2.5: control characters are not written as themselves. */
  predicate RfcPieces(pieces: seq<Piece>) {
    ValidPieces(pieces) && forall p :: p in pieces && p.Plain? ==> p.c >= ' '
  }

  /** `sscanf` reads every number of the grammar. */
  ghost predicate ReadsNumerals(config: Config) {
    forall text :: IsNumeral(text) ==> config.toDouble(text).Some?
  }

  /** No half of a surrogate pair is left alone in front, anywhere in the document. */
  predicate AllPaired(d: Doc)
    requires Lexical(d)
  {
    match d
    case StringDoc(pieces) => Paired(pieces)
    case ArrayDoc(items) => forall e :: e in items ==> AllPaired(e)
    case ObjectDoc(members) => forall m :: m in members ==> Paired(m.name) && AllPaired(m.value)
    case _ => true
  }

  lemma NumeralIsNumberText(text: string)
    requires IsNumeral(text)
    ensures IsNumberText(text)
  {
    hide IsDigit;
    var n :| ValidNumeral(n) && NumeralText(n) == text;
    assert n.whole[0] in n.whole;
    NumeralHead(n);
    forall c | c in text
      ensures IsNumberChar(c)
    {
      assert c in n.whole || c in n.decimals || c in n.exponent || c in "-.eE+";
    }
  }

  lemma NumeralHead(n: Numeral)
    requires n.whole != []
    ensures NumeralText(n) != [] && NumeralText(n)[0] == if n.minus then '-' else n.whole[0]
  {
  }

  lemma {:induction false} DigitsAreRead(digits: string, value: nat, threshold: nat)
    requires AllDigits(digits)
    ensures !ReadDigits(digits, value, threshold).NoNumber?
  {
    if digits != [] && value < threshold {
      assert digits[0] in digits && forall c :: c in digits[1..] ==> c in digits;
      DigitsAreRead(digits[1..], value * 10 + (digits[0] as int - '0' as int), threshold);
    }
  }

  /** The error in the digit loop of `decodeNumber` cannot happen: a number token is refused only by `sscanf`. */
  lemma NumberRefusedBySscanf(config: Config, text: string)
    requires IsNumberText(text) && config.toDouble(text).Some?
    ensures DecodeNumber(config.toDouble, text).Ok?
  {
    hide ReadDigits;
    if !LooksDouble(text) {
      var digits := if text[0] == '-' then text[1..] else text;
      forall c | c in digits
        ensures IsDigit(c)
      {
        var i :| 0 <= i < |digits| && digits[i] == c;
        var k := if text[0] == '-' then i + 1 else i;
        assert text[k] == c && text[k] in text;
      }
      DigitsAreRead(digits, 0, (if text[0] == '-' then 0x8000_0000 else 0xFFFF_FFFF) / 10);
    }
  }

  lemma {:induction false} RfcIsAcceptedIff(config: Config, d: Doc)
    requires Rfc(d) && ReadsNumerals(config)
    ensures Lexical(d) && (Accepted(config, d) <==> AllPaired(d))
    decreases d
  {
    match d
    case NumberDoc(text) =>
      NumeralIsNumberText(text);
      NumberRefusedBySscanf(config, text);
    case ArrayDoc(items) =>
      forall e | e in items
        ensures Lexical(e) && (Accepted(config, e) <==> AllPaired(e))
      {
        RfcIsAcceptedIff(config, e);
      }
    case ObjectDoc(members) =>
      forall m | m in members
        ensures Lexical(m.value) && (Accepted(config, m.value) <==> AllPaired(m.value))
      {
        RfcIsAcceptedIff(config, m.value);
      }
    case _ =>
  }

  /** Every text of RFC 4627 without comments, with any white space between its tokens and whatever follows it, is
      accepted if and only if no first surrogate half stands alone in it; then the root is its meaning.  `parse`
      does not look at what follows. */
  lemma RfcTextIff(config: Config, t: string, d: Doc, tail: seq<string>, root: Value)
    requires Rfc(d) && (d.ArrayDoc? || d.ObjectDoc?) && ReadsNumerals(config)
    requires Spaced(t, DocTokens(d) + tail)
    ensures Lexical(d) && (Parse(config, t, root).ok <==> AllPaired(d))
    ensures AllPaired(d) ==> Accepted(config, d) && Parse(config, t, root) == Parsed(true, Meaning(config, d), [])
  {
    hide Spaced, ReadValue, DocTokens, AllPaired, Rfc, Lexical, Accepted;
    RfcIsAcceptedIff(config, d);
    DocReads(config, t, d, tail, root, []);
  }

  /** A closing bracket behind the root is no error. */
  lemma BracketBehindRoot(config: Config, root: Value)
    ensures Parse(config, "null]", root) == Parsed(true, Null, [])
  {
    hide ReadToken;
    assert "null]" == "null" + "]";
    LexWord("null]", "null", "]", NullToken);
    NoComment(config, "null]");
  }
}
