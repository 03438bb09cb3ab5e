/** What the lexer of the JSON reader makes of every character, by the lists of RFC 4627
    (sections 2, 2.1, 2.4 and 2.5; android/jni/jsoncpp/json_reader.cpp:265-449, 654-771). */
module JsonCharacters {
  import opened Basics
  import opened JsonValue
  import opened JsonLexer
  import opened JsonComments

  // ---- White space, numbers, words ---------------------------------------------------------------------

  const WHITE_SPACE := " \t\r\n"
  const NUMBER_CHARACTERS := "0123456789.eE+-"

  /** The characters from the start on that are in a list, and no more. */
  ghost predicate IsLongest(front: string, rest: string, list: string) {
    (forall c :: c in front ==> c in list) && (rest != [] ==> rest[0] !in list)
  }

  lemma SpaceIff(c: char)
    ensures IsSpace(c) <==> c in WHITE_SPACE
  {
    assert WHITE_SPACE[0] == ' ' && WHITE_SPACE[1] == '\t' && WHITE_SPACE[2] == '\r' && WHITE_SPACE[3] == '\n';
  }

  lemma NumberCharIff(c: char)
    ensures IsNumberChar(c) <==> c in NUMBER_CHARACTERS
  {
    var n := NUMBER_CHARACTERS;
    if IsDigit(c) {
      assert n[c as int - '0' as int] == c;
    }
    assert n[10] == '.' && n[11] == 'e' && n[12] == 'E' && n[13] == '+' && n[14] == '-';
    assert forall i :: 0 <= i < 10 ==> IsDigit(n[i]);
  }

  /** White space is passed to its end, and a number goes on as long as it can. */
  lemma {:induction false} LongestRuns(front: string, rest: string)
    ensures IsLongest(front, rest, WHITE_SPACE) ==> SkipSpaces(front + rest) == rest
    ensures IsLongest(front, rest, NUMBER_CHARACTERS) ==> SkipNumber(front + rest) == rest
    decreases |front|
  {
    hide IsSpace, IsNumberChar;
    if front == [] {
      assert front + rest == rest;
      if rest != [] {
        SpaceIff(rest[0]);
        NumberCharIff(rest[0]);
      }
    } else {
      assert front[0] in front && forall c :: c in front[1..] ==> c in front;
      assert (front + rest)[1..] == front[1..] + rest;
      SpaceIff(front[0]);
      NumberCharIff(front[0]);
      LongestRuns(front[1..], rest);
    }
  }

  /** The words are read as a whole, or are errors. */
  lemma WordsIff(t: string)
    ensures ReadToken("t" + t).token.kind == if "rue" <= t then True else ErrorToken
    ensures ReadToken("f" + t).token.kind == if "alse" <= t then False else ErrorToken
    ensures ReadToken("n" + t).token.kind == if "ull" <= t then NullToken else ErrorToken
  {
    hide Classify;
    FirstCharacter('t', t);
    FirstCharacter('f', t);
    FirstCharacter('n', t);
    WordKinds(t);
  }

  lemma FirstCharacter(c: char, t: string)
    requires !IsSpace(c)
    ensures ReadToken([c] + t).token.kind == Classify(c, t).0
  {
    hide Classify;
    assert ([c] + t)[1..] == t;
  }

  lemma WordKinds(t: string)
    ensures Classify('t', t).0 == if "rue" <= t then True else ErrorToken
    ensures Classify('f', t).0 == if "alse" <= t then False else ErrorToken
    ensures Classify('n', t).0 == if "ull" <= t then NullToken else ErrorToken
  {
  }

  /** The characters that can begin a token. */
  const STARTS := "{}[]\"/0123456789-tfn,:\0"

  lemma UnknownCharacter(c: char, t: string)
    requires c !in STARTS && c !in WHITE_SPACE
    ensures ReadToken([c] + t) == Lexed(Token(ErrorToken, [c]), t)
  {
    hide ScanString, ScanComment, SkipNumber;
    SpaceIff(c);
    NotAStart(c);
    assert ([c] + t)[1..] == t;
    assert ([c] + t)[..1] == [c];
  }

  lemma NoDigitLeft(c: char)
    ensures IsDigit(c) ==> c in STARTS
  {
    if IsDigit(c) {
      assert STARTS[6 + (c as int - '0' as int)] == c;
    }
  }

  lemma NotAStart(c: char)
    requires c !in STARTS
    ensures c != '{' && c != '}' && c != '[' && c != ']' && c != '"' && c != '/' && !IsDigit(c) && c != '-'
    ensures c != 't' && c != 'f' && c != 'n' && c != ',' && c != ':' && c != '\0'
  {
    var s := STARTS;
    assert !IsDigit(c) by { NoDigitLeft(c); }
    assert s[0] in s && s[1] in s && s[2] in s && s[3] in s && s[4] in s && s[5] in s;
    assert s[16] in s && s[17] in s && s[18] in s && s[19] in s && s[20] in s && s[21] in s && s[22] in s;
  }

  // ---- Comments and strings ----------------------------------------------------------------------------

  /** A slash begins a comment if another one follows, or a star with a star and a slash somewhere behind it; all else
      behind a slash is an error. */
  lemma SlashIff(t: string)
    ensures ReadToken("/" + t).token.kind in {Comment, ErrorToken}
    ensures ReadToken("/" + t).token.kind == Comment
            <==> t != [] && (t[0] == '/' || (t[0] == '*' && exists k: nat :: StarSlashAt(t[1..], k)))
  {
    hide Classify, ScanBlockComment, ScanLineComment;
    FirstCharacter('/', t);
    SlashKind(t);
    if t != [] {
      BlockCommentEnds(t[1..]);
      LineCommentEnds(t[1..]);
    }
  }

  lemma SlashKind(t: string)
    ensures Classify('/', t).0 == if ScanComment(t).ok then Comment else ErrorToken
  {
    hide ScanComment;
  }

  /** Characters and backslashes with the character behind them, and no quote. */
  predicate IsInside(s: string) {
    || s == []
    || (s[0] == '\\' && |s| > 1 && IsInside(s[2..]))
    || (s[0] != '\\' && s[0] != '"' && IsInside(s[1..]))
  }

  predicate EndsAt(t: string, k: nat) {
    k < |t| && t[k] == '"' && IsInside(t[..k])
  }

  /** A string ends at the first quote that is not behind a backslash, and without one it is an error. */
  lemma StringEnds(t: string)
    ensures forall k: nat :: EndsAt(t, k) ==> ScanString(t) == Scan(true, t[k + 1..])
    ensures ScanString(t).ok <==> exists k: nat :: EndsAt(t, k)
  {
    forall k: nat | EndsAt(t, k)
      ensures ScanString(t) == Scan(true, t[k + 1..])
    {
      QuoteFound(t, k);
    }
    if ScanString(t).ok {
      var k := QuoteOf(t);
    }
  }

  lemma {:induction false} QuoteFound(t: string, k: nat)
    requires EndsAt(t, k)
    ensures ScanString(t) == Scan(true, t[k + 1..])
    decreases |t|
  {
    if k > 0 {
      var n := if t[0] == '\\' then 2 else 1;
      assert t[..k][0] == t[0];
      assert t[..k][n..] == t[n..][..k - n] && t[n..][k - n + 1..] == t[k + 1..];
      QuoteFound(t[n..], k - n);
    }
  }

  lemma {:induction false} QuoteOf(t: string) returns (k: nat)
    requires ScanString(t).ok
    ensures EndsAt(t, k)
    decreases |t|
  {
    if t[0] == '"' {
      return 0;
    }
    var n := if t[0] == '\\' then 2 else 1;
    k := QuoteOf(t[n..]);
    k := k + n;
    assert t[..k][n..] == t[n..][..k - n] && t[..k][0] == t[0];
  }

  // ---- Escapes -----------------------------------------------------------------------------------------

  /** The letters behind a backslash, and what they stand for. */
  const LETTERS := "\"\\/bfnrt"
  const MEANINGS := "\"\\/\U{8}\U{c}\n\r\t"

  lemma UnescapeIff(letter: char, c: char)
    ensures Unescape(letter) == Some(c) <==> exists i :: 0 <= i < |LETTERS| && LETTERS[i] == letter && MEANINGS[i] == c
  {
    var l, m := LETTERS, MEANINGS;
    assert l[0] == m[0] == '"' && l[1] == m[1] == '\\' && l[2] == m[2] == '/';
    assert l[3] == 'b' && l[4] == 'f' && l[5] == 'n' && l[6] == 'r' && l[7] == 't';
    assert m[3] == '\U{8}' && m[4] == '\U{c}' && m[5] == '\n' && m[6] == '\r' && m[7] == '\t';
  }

  const LOWER := "0123456789abcdef"
  const UPPER := "0123456789ABCDEF"

  lemma HexIff(c: char, v: nat)
    ensures HexValue(c) == Some(v) <==> v < 16 && (LOWER[v] == c || UPPER[v] == c)
  {
    assert forall i :: 0 <= i < 10 ==> LOWER[i] == UPPER[i] == (i + '0' as int) as char;
    assert forall i :: 10 <= i < 16 ==> LOWER[i] == (i - 10 + 'a' as int) as char;
    assert forall i :: 10 <= i < 16 ==> UPPER[i] == (i - 10 + 'A' as int) as char;
  }
}
