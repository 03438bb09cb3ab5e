/** The Unicode side of string decoding (android/jni/jsoncpp/json_reader.cpp:70-105, 710-771;
    section 2.5 of RFC 4627, section 3 of RFC 3629). */
module JsonUnicode {
  import opened Basics
  import opened JsonLexer

  predicate IsContinuation(c: char) {
    0x80 <= c as int < 0xC0
  }

  function Tail(c: char): nat {
    c as int % 0x40
  }

  /** The code point of a byte sequence, read as RFC 3629 says: shortest form only, nothing above
      U+10FFFF, and no surrogates. */
  function Utf8Value(s: string): Option<nat> {
    if |s| == 1 && s[0] as int < 0x80 then Some(s[0] as int)
    else if |s| == 2 && 0xC0 <= s[0] as int < 0xE0 && IsContinuation(s[1]) then
      Shortest((s[0] as int - 0xC0) * 0x40 + Tail(s[1]), 0x80)
    else if |s| == 3 && 0xE0 <= s[0] as int < 0xF0 && IsContinuation(s[1]) && IsContinuation(s[2]) then
      Shortest((s[0] as int - 0xE0) * 0x1000 + Tail(s[1]) * 0x40 + Tail(s[2]), 0x800)
    else if |s| == 4 && 0xF0 <= s[0] as int < 0xF8 && IsContinuation(s[1]) && IsContinuation(s[2])
        && IsContinuation(s[3]) then
      Shortest((s[0] as int - 0xF0) * 0x4_0000 + Tail(s[1]) * 0x1000 + Tail(s[2]) * 0x40 + Tail(s[3]), 0x1_0000)
    else None
  }

  function Shortest(value: nat, least: nat): Option<nat> {
    if value < least || value > 0x10_FFFF || IsSurrogate(value) then None else Some(value)
  }

  predicate IsSurrogate(cp: nat) {
    0xD800 <= cp <= 0xDFFF
  }

  /** What `codePointToUTF8` writes is the encoding of its argument if and only if that is no surrogate. */
  lemma Utf8IsReadIff(cp: nat)
    requires cp <= 0x10_FFFF
    ensures Utf8Value(Utf8(cp)) == Some(cp) <==> !IsSurrogate(cp)
  {
    if 0x7F < cp <= 0x7FF {
      TwoBytes(cp);
    } else if 0x7FF < cp <= 0xFFFF {
      ThreeBytes(cp);
    } else if 0xFFFF < cp {
      FourBytes(cp);
    }
  }

  lemma Sixty(n: nat)
    ensures Tail((0x80 + n % 0x40) as char) == n % 0x40 && IsContinuation((0x80 + n % 0x40) as char)
  {
  }

  lemma TwoBytes(cp: nat)
    requires 0x7F < cp <= 0x7FF
    ensures Utf8Value(Utf8(cp)) == if IsSurrogate(cp) then None else Some(cp)
  {
    Sixty(cp);
  }

  lemma ThreeBytes(cp: nat)
    requires 0x7FF < cp <= 0xFFFF
    ensures Utf8Value(Utf8(cp)) == if IsSurrogate(cp) then None else Some(cp)
  {
    Sixty(cp);
    Sixty(cp / 0x40);
    assert cp / 0x40 / 0x40 == cp / 0x1000;
  }

  lemma FourParts(cp: nat)
    requires 0xFFFF < cp <= 0x10_FFFF
    ensures cp / 0x4_0000 % 8 == cp / 0x4_0000 < 5
    ensures cp == cp / 0x4_0000 * 0x4_0000 + cp / 0x1000 % 0x40 * 0x1000 + cp / 0x40 % 0x40 * 0x40 + cp % 0x40
  {
    assert cp / 0x40 / 0x40 == cp / 0x1000 && cp / 0x1000 / 0x40 == cp / 0x4_0000;
  }

  lemma FourBytes(cp: nat)
    requires 0xFFFF < cp <= 0x10_FFFF
    ensures Utf8Value(Utf8(cp)) == if IsSurrogate(cp) then None else Some(cp)
  {
    hide IsContinuation, Tail;
    FourParts(cp);
    Sixty(cp);
    Sixty(cp / 0x40);
    Sixty(cp / 0x1000);
  }

  /** The first half of a surrogate pair. */
  function High(cp: nat): nat {
    0xD800 + (cp - 0x1_0000) / 0x400
  }

  /** A pair of escapes is read as a code point beyond 16 bits if and only if the second escape has its low
      ten bits; whether that escape is a low surrogate at all is not checked. */
  lemma SurrogatesJoin(cp: nat, high: string, low: string, half: nat, rest: string)
    requires 0x1_0000 <= cp <= 0x10_FFFF && |high| == 4 && |low| == 4
    requires HexDigits(high, 0) == Ok(High(cp)) && HexDigits(low, 0) == Ok(half)
    ensures CodePoint(high + "\\u" + low + rest).Ok?
    ensures CodePoint(high + "\\u" + low + rest) == Ok((cp, rest)) <==> half % 0x400 == (cp - 0x1_0000) % 0x400
  {
    hide HexDigits;
    var t := high + "\\u" + low + rest;
    assert t[..4] == high && t[4..] == "\\u" + low + rest;
    assert t[4..][2..] == low + rest && (low + rest)[..4] == low && t[4..][6..] == rest;
    assert High(cp) % 0x400 == (cp - 0x1_0000) / 0x400;
  }

  /** A low surrogate on its own is accepted, and written as bytes that are no UTF-8. */
  lemma LoneLowSurrogate(rest: string)
    ensures CodePoint("DC00" + rest) == Ok((0xDC00, rest))
    ensures Utf8(0xDC00) == [0xED as char, 0xB0 as char, 0x80 as char] && Utf8Value(Utf8(0xDC00)) == None
  {
    assert ("DC00" + rest)[..4] == "DC00" && ("DC00" + rest)[4..] == rest;
    FourDigitValue("DC00");
  }

  /** A high surrogate on its own is refused, although the grammar has it. */
  lemma LoneHighSurrogate()
    ensures CodePoint("D800") == Err(SixCharacters) && Decode("\\uD800") == Err(SixCharacters)
  {
    hide Decode;
    assert "D800"[..4] == "D800" && "\\uD800"[2..] == "D800";
    FourDigitValue("D800");
    DecodeUnicode("\\uD800");
  }

  /** Exactly the escapes that are read on their own as a surrogate give such bytes. */
  lemma EscapeIsEncodedIff(t: string)
    requires CodePoint(t).Ok?
    ensures Utf8Value(Utf8(CodePoint(t).value.0)) == Some(CodePoint(t).value.0)
       <==> !(0xDC00 <= HexEscape(t).value <= 0xDFFF)
  {
    hide Utf8, Utf8Value, HexDigits;
    Utf8IsReadIff(CodePoint(t).value.0);
  }
}
