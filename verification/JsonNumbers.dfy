/** Which number tokens the reader accepts, and the buffer behind them (android/jni/jsoncpp/json_reader.cpp:580-643). */
module JsonNumbers {
  import opened Basics
  import opened JsonValue
  import opened JsonLexer
  import opened JsonGrammar
  import opened JsonTokens
  import opened JsonSyntax

  /** `decodeNumber` leaves the token to `decodeDouble`. */
  predicate FallsBack(text: string)
    requires text != []
  {
    || LooksDouble(text)
    || ReadDigits(if text[0] == '-' then text[1..] else text, 0,
                  (if text[0] == '-' then 0x8000_0000 else 0xFFFF_FFFF) / 10).TooLarge?
  }

  /** A number token is refused if and only if it is left to `sscanf`, and `sscanf` does not read it. */
  lemma NumberAcceptedIff(config: Config, text: string)
    requires IsNumberText(text)
    ensures DecodeNumber(config.toDouble, text).Ok? <==> !FallsBack(text) || config.toDouble(text).Some?
  {
    hide ReadDigits, LooksDouble;
    NumberRefusedBySscanf(config.(toDouble := s => Some(0.0)), text);
  }

  /** The grammar of section 2.4 has no leading zeros; the reader takes them. */
  lemma LeadingZero(config: Config, root: Value)
    ensures !IsNumeral("01") && ReadValue(config, "01", root, []) == Outcome(true, Int(1), "", [])
  {
    hide SkipSpaces, ValidNumeral, NumeralText;
    forall n | ValidNumeral(n)
      ensures NumeralText(n) != "01"
    {
      NotZeroOne(n);
    }
    ZeroOne(config);
  }

  lemma NotZeroOne(n: Numeral)
    requires ValidNumeral(n)
    ensures NumeralText(n) != "01"
  {
    assert n.whole[0] in n.whole;
    NumeralHead(n);
    assert n.whole == "0" && !n.minus ==> NumeralText(n) == "0" || NumeralText(n)[1] in {'.', 'e', 'E'};
  }

  lemma ZeroOne(config: Config)
    ensures NextToken(config, "01") == Lexed(Token(Number, "01"), "")
            && DecodeNumber(config.toDouble, "01") == Ok(Int(1))
  {
    assert SkipSpaces("01") == "01" + "";
    LexNumber("01", "01", "");
    NoComment(config, "01");
    assert "01"[1..] == "1" && "1"[1..] == "";
    assert ReadDigits("1", 0, 0xFFFF_FFFF / 10) == Whole(1);
    assert ReadDigits("01", 0, 0xFFFF_FFFF / 10) == ReadDigits("1", 0, 0xFFFF_FFFF / 10);
  }

  // ---- The buffer of decodeDouble ------------------------------------------------------------------------

  /** The size of the array; a longer token goes through a string object. */
  const BUFFER_SIZE := 32

  /** Where the NUL behind the copied token is stored in the array, if it is. */
  function NulAt(text: string): Option<nat>
    requires text != []
  {
    if FallsBack(text) && |text| <= BUFFER_SIZE then Some(|text|) else None
  }

  /** The store is inside the array if and only if the token is not one of exactly 32 characters that is left to
      `decodeDouble`. */
  lemma StoreInsideIff(text: string)
    requires IsNumberText(text)
    ensures (NulAt(text).Some? ==> NulAt(text).value < BUFFER_SIZE) <==> |text| != BUFFER_SIZE || !FallsBack(text)
  {
  }

  const THIRTY_TWO := "1.000000000000000000000000000000"

  lemma StoreOutside()
    ensures IsNumberText(THIRTY_TWO) && NulAt(THIRTY_TWO) == Some(BUFFER_SIZE)
  {
    assert THIRTY_TWO[1] == '.';
  }
}
