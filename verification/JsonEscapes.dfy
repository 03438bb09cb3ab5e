/** The errors of string literals: which one a wrong escape gives (android/jni/jsoncpp/json_reader.cpp:657-756). */
module JsonEscapes {
  import opened Basics
  import opened JsonLexer
  import opened JsonSyntax

  /** Characters and escapes that are right are decoded before anything that follows. */
  lemma {:induction false} DecodesFront(pieces: seq<Piece>, t: string)
    requires ValidPieces(pieces) && Paired(pieces)
    ensures Decode(Inside(pieces) + t) == Prefixed(StringMeaning(pieces), Decode(t))
    decreases |pieces|
  {
    hide CodePoint, Utf8, CodeValue, Unescape, ValidPiece;
    if pieces == [] {
      assert [] + t == t;
      assert Decode(t).Ok? ==> [] + Decode(t).value == Decode(t).value;
    } else {
      var p, more := pieces[0], Inside(pieces[1..]) + t;
      assert p in pieces && ValidPiece(p);
      assert Inside(pieces) + t == PieceText(p) + more;
      match p
      case Plain(c) =>
        PlainIsItself(c);
        assert ([c] + more)[1..] == more;
        DecodesFront(pieces[1..], t);
        PrefixedTwice([c], StringMeaning(pieces[1..]), Decode(t));
      case Short(letter) =>
        ShortHasMeaning(letter);
        assert (['\\', letter] + more)[2..] == more;
        DecodesFront(pieces[1..], t);
        PrefixedTwice([Unescape(letter).value], StringMeaning(pieces[1..]), Decode(t));
      case Code(hex) =>
        CodeFront(pieces, t);
    }
  }

  lemma PlainIsItself(c: char)
    requires ValidPiece(Plain(c))
    ensures c != '"' && c != '\\'
  {
  }

  lemma ShortHasMeaning(letter: char)
    requires ValidPiece(Short(letter))
    ensures Unescape(letter).Some? && letter != 'u'
  {
  }

  lemma PrefixedTwice(a: string, b: string, r: Result<string>)
    ensures Prefixed(a, Prefixed(b, r)) == Prefixed(a + b, r)
  {
    if r.Ok? {
      assert a + (b + r.value) == a + b + r.value;
    }
  }

  lemma {:induction false} CodeFront(pieces: seq<Piece>, t: string)
    requires ValidPieces(pieces) && Paired(pieces) && pieces != [] && pieces[0].Code?
    ensures Decode(Inside(pieces) + t) == Prefixed(StringMeaning(pieces), Decode(t))
    decreases |pieces|, 0
  {
    hide CodePoint, Utf8, CodeValue, Unescape, Decode, ValidPiece;
    var hex, more := pieces[0].hex, Inside(pieces[1..]) + t;
    assert pieces[0] in pieces && ValidPiece(pieces[0]);
    if !IsHigh(pieces[0]) {
      AloneFront(hex, more);
      DecodesFront(pieces[1..], t);
      PrefixedTwice(Utf8(CodeValue(hex)), StringMeaning(pieces[1..]), Decode(t));
      Regrouped("\\u" + hex, Inside(pieces[1..]), t);
    } else {
      assert pieces[1] in pieces && ValidPiece(pieces[1]);
      PairFront(hex, pieces[1].hex, Inside(pieces[2..]) + t);
      DecodesFront(pieces[2..], t);
      PrefixedTwice(PairOf(hex, pieces[1].hex), StringMeaning(pieces[2..]), Decode(t));
      InsidePair(pieces, t);
    }
  }

  lemma Regrouped(a: string, b: string, c: string)
    ensures a + b + c == a + (b + c)
  {
  }

  lemma InsidePair(pieces: seq<Piece>, t: string)
    requires |pieces| > 1 && pieces[0].Code? && pieces[1].Code?
    ensures Inside(pieces) + t == "\\u" + pieces[0].hex + "\\u" + pieces[1].hex + (Inside(pieces[2..]) + t)
  {
    assert pieces[1..][1..] == pieces[2..] && pieces[1..][0] == pieces[1];
    var a, b, rest := "\\u" + pieces[0].hex, "\\u" + pieces[1].hex, Inside(pieces[2..]);
    assert Inside(pieces[1..]) == b + rest;
    Regrouped(a, b + rest, t);
    Regrouped(b, rest, t);
    Regrouped(a, b, rest + t);
    Regrouped(a, "\\u", pieces[1].hex);
  }

  function PairOf(hex: string, low: string): string
    requires ValidPiece(Code(hex)) && ValidPiece(Code(low))
  {
    Utf8(0x1_0000 + CodeValue(hex) % 0x400 * 0x400 + CodeValue(low) % 0x400)
  }

  lemma AloneFront(hex: string, t: string)
    requires ValidPiece(Code(hex)) && !IsHigh(Code(hex))
    ensures Decode("\\u" + hex + t) == Prefixed(Utf8(CodeValue(hex)), Decode(t))
  {
    hide CodePoint, Utf8, CodeValue, Unescape, Decode, ValidPiece;
    var text := "\\u" + hex + t;
    assert text[2..] == hex + t;
    DecodeUnicode(text);
    CodePointAlone(hex, t);
  }

  lemma PairFront(hex: string, low: string, t: string)
    requires ValidPiece(Code(hex)) && ValidPiece(Code(low)) && IsHigh(Code(hex))
    ensures Decode("\\u" + hex + "\\u" + low + t) == Prefixed(PairOf(hex, low), Decode(t))
  {
    hide CodePoint, Utf8, CodeValue, Unescape, Decode, ValidPiece;
    var text := "\\u" + hex + "\\u" + low + t;
    assert text[2..] == hex + ("\\u" + low + t);
    DecodeUnicode(text);
    CodePointPair(hex, low, t);
  }

  predicate IsHex(c: char) {
    '0' <= c <= '9' || 'a' <= c <= 'f' || 'A' <= c <= 'F'
  }

  /** Four characters behind a backslash and a u that are no digits, or too few of them. */
  function BadDigits(t: string): Option<Message> {
    if |t| < 4 then Some(FourDigits)
    else if !IsHex(t[0]) || !IsHex(t[1]) || !IsHex(t[2]) || !IsHex(t[3]) then Some(HexDigit)
    else None
  }

  /** What is wrong at the start of a text, if it is. */
  function BadEscapeAt(t: string): Option<Message> {
    if t == [] || t[0] != '\\' then None
    else if |t| == 1 then Some(EmptyEscape)
    else if t[1] != 'u' then if t[1] in "\"\\/bfnrt" then None else Some(BadEscape)
    else if BadDigits(t[2..]).Some? then BadDigits(t[2..])
    else if !(t[2] in "dD" && t[3] in "89abAB") then None
    else if |t| < 12 then Some(SixCharacters)
    else if t[6] != '\\' || t[7] != 'u' then Some(SecondHalf)
    else BadDigits(t[8..])
  }

  lemma HexIsHex(c: char)
    ensures IsHex(c) <==> HexValue(c).Some?
  {
  }

  lemma {:induction false} DigitsFail(digits: string, before: nat, i: nat)
    requires i < |digits| && !IsHex(digits[i])
    ensures HexDigits(digits, before) == Err(HexDigit)
    decreases |digits|
  {
    hide HexValue;
    HexIsHex(digits[0]);
    if i > 0 && HexValue(digits[0]).Some? {
      DigitsFail(digits[1..], before * 16 + HexValue(digits[0]).value, i - 1);
    }
  }

  lemma DigitsOf(t: string)
    ensures HexEscape(t).Err? ==> BadDigits(t) == Some(HexEscape(t).message)
    ensures HexEscape(t).Ok? ==> BadDigits(t).None?
    ensures HexEscape(t).Ok? ==> (0xD800 <= HexEscape(t).value <= 0xDBFF <==> t[0] in "dD" && t[1] in "89abAB")
  {
    hide HexValue, HexDigits;
    if |t| >= 4 {
      HexIsHex(t[0]);
      HexIsHex(t[1]);
      HexIsHex(t[2]);
      HexIsHex(t[3]);
      if BadDigits(t).Some? {
        var i := if !IsHex(t[0]) then 0 else if !IsHex(t[1]) then 1 else if !IsHex(t[2]) then 2 else 3;
        DigitsFail(t[..4], 0, i);
      } else {
        FourDigitValue(t[..4]);
        FirstHalf(t[0], t[1], HexValue(t[2]).value, HexValue(t[3]).value);
      }
    }
  }

  lemma FirstHalf(a: char, b: char, c: nat, d: nat)
    requires IsHex(a) && IsHex(b) && c < 16 && d < 16
    ensures HexValue(a).Some? && HexValue(b).Some?
    ensures 0xD800 <= ((HexValue(a).value * 16 + HexValue(b).value) * 16 + c) * 16 + d <= 0xDBFF
            <==> a in "dD" && b in "89abAB"
  {
    assert "dD"[0] == 'd' && "dD"[1] == 'D';
    var s := "89abAB";
    assert s[0] == '8' && s[1] == '9' && s[2] == 'a' && s[3] == 'b' && s[4] == 'A' && s[5] == 'B';
  }

  lemma CodePointFails(t: string)
    ensures CodePoint(t).Err?
            ==> BadEscapeAt("\\u" + t) == Some(CodePoint(t).message)
    ensures CodePoint(t).Ok? ==> BadEscapeAt("\\u" + t).None?
  {
    hide HexEscape, BadDigits;
    var s := "\\u" + t;
    assert s[2..] == t;
    DigitsOf(t);
    if |t| >= 10 {
      assert s[8..] == t[6..] && t[4..][2..] == t[6..];
      DigitsOf(t[6..]);
    }
  }

  /** A wrong escape at the start of a text. */
  lemma BadFront(t: string)
    requires BadEscapeAt(t).Some?
    ensures Decode(t) == Err(BadEscapeAt(t).value)
  {
    hide BadDigits, CodePoint, HexEscape;
    if |t| > 1 && t[1] == 'u' {
      assert t == "\\u" + t[2..];
      CodePointFails(t[2..]);
    } else if |t| > 1 {
      LetterHasMeaning(t[1]);
    }
  }

  lemma LetterHasMeaning(c: char)
    ensures Unescape(c).Some? <==> c in "\"\\/bfnrt"
  {
    var s := "\"\\/bfnrt";
    assert s[0] == '"' && s[1] == '\\' && s[2] == '/' && s[3] == 'b' && s[4] == 'f' && s[5] == 'n' && s[6] == 'r'
           && s[7] == 't';
  }

  /** The error of a string is what is wrong with the first escape that is. */
  lemma EscapeError(pieces: seq<Piece>, t: string)
    requires ValidPieces(pieces) && Paired(pieces) && BadEscapeAt(t).Some?
    ensures Decode(Inside(pieces) + t) == Err(BadEscapeAt(t).value)
  {
    hide Decode, BadEscapeAt, StringMeaning, Inside, Paired;
    DecodesFront(pieces, t);
    BadFront(t);
  }
}
