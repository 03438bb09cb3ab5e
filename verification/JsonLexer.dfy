/** The tokens of the JSON reader and what they decode to, as functions of the text that is left
    (android/jni/jsoncpp/json_reader.cpp:70-105, 254-456, 578-771). */
module JsonLexer {
  import opened Basics
  import opened JsonValue

  datatype Kind =
    | EndOfStream | ObjectBegin | ObjectEnd | ArrayBegin | ArrayEnd | StringToken | Number
    | True | False | NullToken | ArraySeparator | MemberSeparator | Comment | ErrorToken

  datatype Token = Token(kind: Kind, text: string)

  /** A step of the lexer: what it saw, and the text behind it. */
  datatype Lexed = Lexed(token: Token, rest: string)

  datatype Scan = Scan(ok: bool, rest: string)

  datatype Message =
    | SyntaxError | MissingColon | MissingMemberEnd | MissingObjectEnd | MissingArrayEnd | NotANumber
    | EmptyEscape | BadEscape | FourDigits | HexDigit | SixCharacters | SecondHalf | RootNotStructured

  datatype Result<T> = Ok(value: T) | Err(message: Message)

  predicate IsSpace(c: char) {
    c == ' ' || c == '\t' || c == '\r' || c == '\n'
  }

  /** The characters that a number token goes on with. */
  predicate IsNumberChar(c: char) {
    IsDigit(c) || c in {'.', 'e', 'E', '+', '-'}
  }

  function SkipSpaces(t: string): (s: string)
    ensures |s| <= |t|
  {
    if t != [] && IsSpace(t[0]) then SkipSpaces(t[1..]) else t
  }

  lemma {:induction false} SkipTwice(t: string)
    ensures SkipSpaces(SkipSpaces(t)) == SkipSpaces(t)
  {
    if t != [] && IsSpace(t[0]) {
      SkipTwice(t[1..]);
    }
  }

  /** `readNumber` */
  function SkipNumber(t: string): (s: string)
    ensures |s| <= |t|
  {
    if t != [] && IsNumberChar(t[0]) then SkipNumber(t[1..]) else t
  }

  /** `readString`, behind the opening quote; a backslash hides the character behind it. */
  function ScanString(t: string): (s: Scan)
    ensures |s.rest| <= |t|
  {
    if t == [] then Scan(false, [])
    else if t[0] == '"' then Scan(true, t[1..])
    else if t[0] == '\\' then if |t| == 1 then Scan(false, []) else ScanString(t[2..])
    else ScanString(t[1..])
  }

  /** `readCStyleComment`, behind its two opening characters. */
  function ScanBlockComment(t: string): (s: Scan)
    ensures |s.rest| <= |t|
  {
    if t == [] then Scan(false, [])
    else if t[0] == '*' && |t| > 1 && t[1] == '/' then Scan(true, t[2..])
    else ScanBlockComment(t[1..])
  }

  /** `readCppStyleComment` */
  function ScanLineComment(t: string): (s: Scan)
    ensures |s.rest| <= |t|
  {
    if t == [] then Scan(true, [])
    else if t[0] == '\r' || t[0] == '\n' then Scan(true, t[1..])
    else ScanLineComment(t[1..])
  }

  /** `readComment`, behind its first slash. */
  function ScanComment(t: string): (s: Scan)
    ensures |s.rest| <= |t|
  {
    if t == [] then Scan(false, [])
    else if t[0] == '*' then ScanBlockComment(t[1..])
    else if t[0] == '/' then ScanLineComment(t[1..])
    else Scan(false, t[1..])
  }

  /** `match` */
  function ScanWord(t: string, word: string): (s: Scan)
    ensures |s.rest| <= |t|
  {
    if |word| <= |t| && t[..|word|] == word then Scan(true, t[|word|..]) else Scan(false, t)
  }

  function Judged(kind: Kind, s: Scan): (Kind, string) {
    (if s.ok then kind else ErrorToken, s.rest)
  }

  /** The kind of the token that begins with c, and the text behind it. */
  function Classify(c: char, t: string): (r: (Kind, string))
    ensures |r.1| <= |t|
  {
    if c == '{' then (ObjectBegin, t)
    else if c == '}' then (ObjectEnd, t)
    else if c == '[' then (ArrayBegin, t)
    else if c == ']' then (ArrayEnd, t)
    else if c == '"' then Judged(StringToken, ScanString(t))
    else if c == '/' then Judged(Comment, ScanComment(t))
    else if IsDigit(c) || c == '-' then (Number, SkipNumber(t))
    else if c == 't' then Judged(True, ScanWord(t, "rue"))
    else if c == 'f' then Judged(False, ScanWord(t, "alse"))
    else if c == 'n' then Judged(NullToken, ScanWord(t, "ull"))
    else if c == ',' then (ArraySeparator, t)
    else if c == ':' then (MemberSeparator, t)
    else if c == '\0' then (EndOfStream, t)
    else (ErrorToken, t)
  }

  /** `readToken`; at the end of the text it stays there. */
  function ReadToken(t: string): (r: Lexed)
    ensures |r.rest| <= |t|
    ensures r.token.kind != EndOfStream ==> |r.rest| < |t|
  {
    var s := SkipSpaces(t);
    if s == [] then Lexed(Token(EndOfStream, []), [])
    else
      var (kind, rest) := Classify(s[0], s[1..]);
      Lexed(Token(kind, s[..|s| - |rest|]), rest)
  }

  /** The first token that is not a comment. */
  function SkipComments(t: string): (r: Lexed)
    ensures |r.rest| <= |t|
    ensures r.token.kind != EndOfStream ==> |r.rest| < |t|
    ensures r.token.kind != Comment
    decreases |t|
  {
    var r := ReadToken(t);
    if r.token.kind == Comment then SkipComments(r.rest) else r
  }

  /** `recoverFromError`: the text behind the next token of one kind, or behind the end. */
  function Recover(t: string, until: Kind): (rest: string)
    ensures |rest| <= |t|
    decreases |t|
  {
    var r := ReadToken(t);
    if r.token.kind == until || r.token.kind == EndOfStream then r.rest else Recover(r.rest, until)
  }

  // ---- Strings -------------------------------------------------------------------------------

  function HexValue(c: char): (h: Option<nat>)
    ensures h.Some? ==> h.value < 16
  {
    if '0' <= c <= '9' then Some(c as int - '0' as int)
    else if 'a' <= c <= 'f' then Some(c as int - 'a' as int + 10)
    else if 'A' <= c <= 'F' then Some(c as int - 'A' as int + 10)
    else None
  }

  /** The loop of `decodeUnicodeEscapeSequence`: the value of hexadecimal digits behind earlier ones. */
  function HexDigits(digits: string, before: nat): Result<nat> {
    if digits == [] then Ok(before)
    else
      match HexValue(digits[0])
      case None => Err(HexDigit)
      case Some(h) => HexDigits(digits[1..], before * 16 + h)
  }

  /** `decodeUnicodeEscapeSequence` */
  function HexEscape(t: string): (r: Result<nat>)
    ensures r.Ok? ==> |t| >= 4 && r.value < 0x1_0000
  {
    if |t| < 4 then Err(FourDigits)
    else
      HexBound(t[..4], 0, 1);
      assert Pow16(4) == 16 * Pow16(3) && Pow16(3) == 16 * Pow16(2);
      HexDigits(t[..4], 0)
  }

  function Pow16(n: nat): nat {
    if n == 0 then 1 else 16 * Pow16(n - 1)
  }

  lemma {:induction false} HexBound(digits: string, before: nat, limit: nat)
    requires before < limit
    ensures var r := HexDigits(digits, before); r.Ok? ==> r.value < limit * Pow16(|digits|)
  {
    if digits != [] && HexValue(digits[0]).Some? {
      HexBound(digits[1..], before * 16 + HexValue(digits[0]).value, limit * 16);
      assert limit * 16 * Pow16(|digits| - 1) == limit * (16 * Pow16(|digits| - 1));
    }
  }

  lemma FourDigitValue(hex: string)
    requires |hex| == 4 && forall i :: 0 <= i < 4 ==> HexValue(hex[i]).Some?
    ensures HexDigits(hex, 0)
         == Ok(((HexValue(hex[0]).value * 16 + HexValue(hex[1]).value) * 16 + HexValue(hex[2]).value) * 16
             + HexValue(hex[3]).value)
  {
    hide HexValue;
    var v0 := HexValue(hex[0]).value;
    var v1 := v0 * 16 + HexValue(hex[1]).value;
    var v2 := v1 * 16 + HexValue(hex[2]).value;
    assert HexDigits(hex[4..], v2 * 16 + HexValue(hex[3]).value).Ok?;
    assert hex[3..][1..] == hex[4..] && hex[2..][1..] == hex[3..] && hex[1..][1..] == hex[2..];
    assert HexDigits(hex[3..], v2) == HexDigits(hex[4..], v2 * 16 + HexValue(hex[3]).value);
    assert HexDigits(hex[2..], v1) == HexDigits(hex[3..], v2);
    assert HexDigits(hex[1..], v0) == HexDigits(hex[2..], v1);
  }

  /** `decodeUnicodeCodePoint`: the code point and the text behind it. */
  function CodePoint(t: string): (r: Result<(nat, string)>)
    ensures r.Ok? ==> r.value.0 <= 0x10_FFFF && |r.value.1| < |t|
  {
    match HexEscape(t)
    case Err(m) => Err(m)
    case Ok(unicode) =>
      var rest := t[4..];
      if !(0xD800 <= unicode <= 0xDBFF) then Ok((unicode, rest))
      else if |rest| < 6 then Err(SixCharacters)
      else if rest[0] != '\\' || rest[1] != 'u' then Err(SecondHalf)
      else
        match HexEscape(rest[2..])
        case Err(m) => Err(m)
        case Ok(half) => Ok((0x1_0000 + unicode % 0x400 * 0x400 + half % 0x400, rest[6..]))
  }

  /** `codePointToUTF8` */
  function Utf8(cp: nat): string {
    if cp <= 0x7F then [cp as char]
    else if cp <= 0x7FF then [(0xC0 + cp / 0x40) as char, (0x80 + cp % 0x40) as char]
    else if cp <= 0xFFFF then [(0xE0 + cp / 0x1000) as char, (0x80 + cp / 0x40 % 0x40) as char,
        (0x80 + cp % 0x40) as char]
    else if cp <= 0x10_FFFF then
      [(0xF0 + cp / 0x4_0000 % 8) as char, (0x80 + cp / 0x1000 % 0x40) as char, (0x80 + cp / 0x40 % 0x40) as char,
          (0x80 + cp % 0x40) as char]
    else []
  }

  /** What the character behind a backslash stands for. */
  function Unescape(c: char): Option<char> {
    if c == '"' || c == '/' || c == '\\' then Some(c)
    else if c == 'b' then Some('\U{8}')
    else if c == 'f' then Some('\U{c}')
    else if c == 'n' then Some('\n')
    else if c == 'r' then Some('\r')
    else if c == 't' then Some('\t')
    else None
  }

  function Prefixed(s: string, r: Result<string>): Result<string> {
    match r
    case Ok(t) => Ok(s + t)
    case Err(m) => r
  }

  /** `decodeString` on the text between the quotes. */
  function Decode(t: string): Result<string>
    decreases |t|
  {
    if t == [] || t[0] == '"' then Ok([])
    else if t[0] != '\\' then Prefixed([t[0]], Decode(t[1..]))
    else if |t| == 1 then Err(EmptyEscape)
    else if t[1] == 'u' then
      match CodePoint(t[2..])
      case Err(m) => Err(m)
      case Ok((cp, rest)) => Prefixed(Utf8(cp), Decode(rest))
    else
      match Unescape(t[1])
      case None => Err(BadEscape)
      case Some(c) => Prefixed([c], Decode(t[2..]))
  }

  /** `Decode` at an escape with four digits. */
  lemma DecodeUnicode(t: string)
    requires |t| >= 2 && t[0] == '\\' && t[1] == 'u'
    ensures Decode(t) == match CodePoint(t[2..])
                         case Err(m) => Err(m)
                         case Ok((cp, rest)) => Prefixed(Utf8(cp), Decode(rest))
  {
  }

  /** `decodeString` on a string token. */
  function DecodeString(text: string): Result<string>
    requires |text| >= 2
  {
    Decode(text[1..|text| - 1])
  }

  /** A string token has both its quotes. */
  lemma StringHasQuotes(t: string)
    ensures ReadToken(t).token.kind == StringToken ==> |ReadToken(t).token.text| >= 2
  {
    var s := SkipSpaces(t);
    if s != [] && s[0] == '"' {
      ScanProgress(s[1..]);
    }
  }

  lemma {:induction false} ScanProgress(t: string)
    ensures ScanString(t).ok ==> |ScanString(t).rest| < |t|
  {
    if t != [] && t[0] != '"' {
      if t[0] != '\\' { ScanProgress(t[1..]); } else if |t| > 1 { ScanProgress(t[2..]); }
    }
  }

  // ---- Numbers -------------------------------------------------------------------------------

  /** `decodeNumber` falls back to `decodeDouble` on these texts. */
  predicate LooksDouble(text: string) {
    exists i :: 0 <= i < |text| && (text[i] in {'.', 'e', 'E', '+'} || (i > 0 && text[i] == '-'))
  }

  datatype Digits = Whole(value: nat) | TooLarge | NoNumber

  /** The loop of `decodeNumber`. */
  function ReadDigits(digits: string, value: nat, threshold: nat): Digits {
    if digits == [] then Whole(value)
    else if !IsDigit(digits[0]) then NoNumber
    else if value >= threshold then TooLarge
    else ReadDigits(digits[1..], value * 10 + (digits[0] as int - '0' as int), threshold)
  }

  function DecodeDouble(toDouble: string -> Option<real>, text: string): Result<Value> {
    match toDouble(text)
    case None => Err(NotANumber)
    case Some(r) => Ok(Real(r))
  }

  /** `decodeNumber`; `toDouble` stands for `sscanf` with "%lf". */
  function DecodeNumber(toDouble: string -> Option<real>, text: string): Result<Value>
    requires text != []
  {
    if LooksDouble(text) then DecodeDouble(toDouble, text)
    else
      var negative := text[0] == '-';
      var threshold := (if negative then 0x8000_0000 else 0xFFFF_FFFF) / 10;
      match ReadDigits(if negative then text[1..] else text, 0, threshold)
      case NoNumber => Err(NotANumber)
      case TooLarge => DecodeDouble(toDouble, text)
      case Whole(n) => Ok(if negative then Int(0 - n) else if n <= 0x7FFF_FFFF then Int(n) else UInt(n))
  }
}
