/** How the writers spell strings and numbers (android/jni/jsoncpp/json_writer.cpp:14-172; section 2.5 of RFC 4627). */
module JsonSpelling {
  import opened Basics
  import opened JsonValue
  import opened JsonLexer
  import opened JsonText

  /** The two-character escapes that the writers use. */
  const SHORT: seq<(char, char)> :=
    [('"', '"'), ('\\', '\\'), ('\U{8}', 'b'), ('\U{c}', 'f'), ('\n', 'n'), ('\r', 'r'), ('\t', 't')]

  /** Six characters: four digits of which the first two are zero, and upper-case letters. */
  predicate IsLongEscape(s: string, c: char) {
    && |s| == 6 && s[..4] == "\\u00"
    && (forall i :: 4 <= i < 6 ==> '0' <= s[i] <= '9' || 'A' <= s[i] <= 'F')
    && HexEscape(s[2..]) == Ok(c as nat)
  }

  /** Quote, backslash and five controls have a short escape, the other controls a long one, and every other character
      stands for itself. */
  lemma SpelledAs(c: char)
    requires c != '\0'
    ensures (exists e :: (c, e) in SHORT) ==> exists e :: (c, e) in SHORT && Escape(c) == ['\\', e]
    ensures (forall e :: (c, e) !in SHORT) && c < ' ' ==> IsLongEscape(Escape(c), c)
    ensures (forall e :: (c, e) !in SHORT) && c >= ' ' ==> Escape(c) == [c]
  {
    hide HexEscape;
    ShortEscapes(c);
    if (forall e :: (c, e) !in SHORT) && c < ' ' {
      assert SHORT[2] in SHORT && SHORT[3] in SHORT && SHORT[4] in SHORT && SHORT[5] in SHORT && SHORT[6] in SHORT;
      LongEscapes(c);
    }
  }

  lemma ShortEscapes(c: char)
    ensures forall e :: (c, e) in SHORT ==> Escape(c) == ['\\', e]
    ensures (forall e :: (c, e) !in SHORT) ==> Escape(c) == if IsControl(c) then
              "\\u00" + [HexDigitOf(c as int / 16), HexDigitOf(c as int % 16)] else [c]
  {
    assert SHORT[0] in SHORT && SHORT[1] in SHORT;
    assert SHORT[2] in SHORT && SHORT[3] in SHORT && SHORT[4] in SHORT && SHORT[5] in SHORT && SHORT[6] in SHORT;
  }

  lemma LongEscapes(c: char)
    requires '\0' < c < ' '
    ensures IsLongEscape("\\u00" + [HexDigitOf(c as int / 16), HexDigitOf(c as int % 16)], c)
  {
    var h, l := HexDigitOf(c as int / 16), HexDigitOf(c as int % 16);
    var s := "\\u00" + [h, l];
    assert s[2..][..4] == "00" + [h, l];
    FourDigitValue("00" + [h, l]);
  }

  predicate NoControls(s: string) {
    forall c :: c in s ==> c >= ' '
  }

  /** What a literal for one character begins with. */
  lemma FirstSpelled(c: char, s: string)
    requires Decode(s) == Ok([c])
    ensures s != [] && s[0] != '"'
    ensures s[0] != '\\' ==> s[0] == c
    ensures s[0] == '\\' ==> |s| >= 2 && if s[1] == 'u' then |s| >= 6 else Unescape(s[1]) == Some(c)
  {
    hide CodePoint, Utf8, Unescape;
    if s[0] != '\\' {
      FirstOf(s[0], Decode(s[1..]), c);
    } else if s[1] == 'u' {
      FourDigitsFollow(s[2..]);
    } else {
      FirstOf(Unescape(s[1]).value, Decode(s[2..]), c);
    }
  }

  /** No literal of RFC 4627 that is read as this character is shorter. */
  lemma ShortestSpelling(c: char, s: string)
    requires c != '\0' && NoControls(s) && Decode(s) == Ok([c])
    ensures |Escape(c)| <= |s|
  {
    hide Decode;
    FirstSpelled(c, s);
    assert s[0] in s;
  }

  lemma FourDigitsFollow(t: string)
    requires CodePoint(t).Ok?
    ensures |t| >= 4
  {
  }

  lemma FirstOf(x: char, r: Result<string>, c: char)
    requires Prefixed([x], r) == Ok([c])
    ensures x == c
  {
    assert ([x] + r.value)[0] == x;
  }

  /** A number has no leading zero. */
  lemma {:induction false} NoLeadingZero(n: nat)
    ensures Decimal(n)[0] == '0' ==> n == 0
    ensures n < 10 ==> |Decimal(n)| == 1
  {
    if n >= 10 {
      NoLeadingZero(n / 10);
      assert (Decimal(n / 10) + [Digit(n % 10)])[0] == Decimal(n / 10)[0];
    }
  }
}
