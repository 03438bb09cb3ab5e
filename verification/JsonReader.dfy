/** The JSON reader with its position, error list, node stack and root, updated in place
    (android/jni/jsoncpp/json_reader.cpp:151-813). */
module JsonReader {
  import opened Basics
  import opened JsonValue
  import opened JsonLexer
  import opened JsonGrammar
  import opened JsonSound
  import opened JsonTree

  class Reader {
    const config: Config
    var document: string
    /** `current_`, as an offset. */
    var current: nat
    var errors: Errors
    var root: Value
    /** `nodes_`: the places of the values that are being read, the innermost last. */
    var nodes: seq<Path>

    constructor (config: Config)
      ensures this.config == config && Valid()
    {
      this.config := config;
      document, current, errors, root, nodes := [], 0, [], Null, [[]];
    }

    ghost predicate Valid()
      reads this
    {
      current <= |document| && nodes != [] && Live(root, nodes[|nodes| - 1])
    }

    /** The text that is left. */
    ghost function Left(): string
      requires current <= |document|
      reads this`document, this`current
    {
      document[current..]
    }

    function Top(): Path
      requires nodes != []
      reads this`nodes
    {
      nodes[|nodes| - 1]
    }

    // ---- Tokens ----------------------------------------------------------------------------------------

    /** `getNextChar`: NUL at the end of the text. */
    method NextChar() returns (c: char)
      requires current <= |document|
      modifies this`current
      ensures current <= |document|
      ensures if old(Left()) == [] then c == '\0' && current == old(current)
              else c == old(Left())[0] && Left() == old(Left())[1..]
    {
      if current == |document| {
        return '\0';
      }
      c := document[current];
      current := current + 1;
    }

    /** `*current_`: behind the text stands a NUL. */
    function Peek(): char
      requires current <= |document|
      reads this`document, this`current
    {
      if current == |document| then '\0' else document[current]
    }

    method SkipOverSpaces()
      requires current <= |document|
      modifies this`current
      ensures old(current) <= current <= |document| && Left() == SkipSpaces(old(Left()))
    {
      while current != |document|
        invariant old(current) <= current <= |document|
        invariant SkipSpaces(Left()) == SkipSpaces(old(Left()))
        decreases |document| - current
      {
        var c := document[current];
        assert Left()[1..] == document[current + 1..];
        if c == ' ' || c == '\t' || c == '\r' || c == '\n' {
          current := current + 1;
        } else {
          break;
        }
      }
    }

    /** `match` */
    method Match(pattern: string) returns (ok: bool)
      requires current <= |document|
      modifies this`current
      ensures current <= |document| && Scan(ok, Left()) == ScanWord(old(Left()), pattern)
    {
      if |document| - current < |pattern| {
        return false;
      }
      var index := |pattern|;
      while index > 0
        invariant 0 <= index <= |pattern|
        invariant Left()[index..|pattern|] == pattern[index..]
      {
        index := index - 1;
        if document[current + index] != pattern[index] {
          assert Left()[..|pattern|][index] != pattern[index];
          return false;
        }
      }
      current := current + |pattern|;
      ok := true;
    }

    method SkipOverNumber()
      requires current <= |document|
      modifies this`current
      ensures old(current) <= current <= |document| && Left() == SkipNumber(old(Left()))
    {
      while current != |document|
        invariant old(current) <= current <= |document|
        invariant SkipNumber(Left()) == SkipNumber(old(Left()))
        decreases |document| - current
      {
        var c := document[current];
        assert Left()[1..] == document[current + 1..];
        if !('0' <= c <= '9') && !(c in {'.', 'e', 'E', '+', '-'}) {
          break;
        }
        current := current + 1;
      }
    }

    /** `readString` */
    method ReadString() returns (ok: bool)
      requires current <= |document|
      modifies this`current
      ensures current <= |document| && Scan(ok, Left()) == ScanString(old(Left()))
    {
      var c := '\0';
      while current != |document|
        invariant current <= |document| && c != '"'
        invariant ScanString(Left()) == ScanString(old(Left()))
        decreases |document| - current
      {
        ghost var here := Left();
        c := NextChar();
        if c == '\\' {
          assert here[1..] == Left();
          var hidden := NextChar();
          assert |here| > 1 ==> Left() == here[2..];
        } else if c == '"' {
          break;
        }
      }
      ok := c == '"';
    }

    /** `readCStyleComment` */
    method ReadBlockComment() returns (ok: bool)
      requires current <= |document|
      modifies this`current
      ensures current <= |document| && Scan(ok, Left()) == ScanBlockComment(old(Left()))
    {
      while current != |document|
        invariant current <= |document|
        invariant ScanBlockComment(Left()) == ScanBlockComment(old(Left()))
        decreases |document| - current
      {
        ghost var here := Left();
        var c := NextChar();
        assert Left() == here[1..];
        if c == '*' && Peek() == '/' {
          assert here[2..] == here[1..][1..];
          break;
        }
      }
      var last := NextChar();
      ok := last == '/';
    }

    /** `readCppStyleComment` */
    method ReadLineComment() returns (ok: bool)
      requires current <= |document|
      modifies this`current
      ensures current <= |document| && Scan(ok, Left()) == ScanLineComment(old(Left()))
    {
      ok := true;
      while current != |document|
        invariant current <= |document|
        invariant ScanLineComment(Left()) == ScanLineComment(old(Left()))
        decreases |document| - current
      {
        var c := NextChar();
        if c == '\r' || c == '\n' {
          return;
        }
      }
    }

    /** `readComment` */
    method ReadComment() returns (ok: bool)
      requires current <= |document|
      modifies this`current
      ensures current <= |document| && Scan(ok, Left()) == ScanComment(old(Left()))
    {
      var c := NextChar();
      ok := false;
      if c == '*' {
        ok := ReadBlockComment();
      } else if c == '/' {
        ok := ReadLineComment();
      }
    }

    /** The `switch` of `readToken`. */
    method KindBehind(c: char) returns (kind: Kind)
      requires current <= |document|
      modifies this`current
      ensures current <= |document| && (kind, Left()) == Classify(c, old(Left()))
    {
      hide ScanString, ScanComment, SkipNumber, ScanWord;
      var ok := true;
      match c {
        case '{' => kind := ObjectBegin;
        case '}' => kind := ObjectEnd;
        case '[' => kind := ArrayBegin;
        case ']' => kind := ArrayEnd;
        case '"' =>
          kind := StringToken;
          ok := ReadString();
        case '/' =>
          kind := Comment;
          ok := ReadComment();
        case 't' =>
          kind := True;
          ok := Match("rue");
        case 'f' =>
          kind := False;
          ok := Match("alse");
        case 'n' =>
          kind := NullToken;
          ok := Match("ull");
        case ',' => kind := ArraySeparator;
        case ':' => kind := MemberSeparator;
        case '\0' => kind := EndOfStream;
        case _ =>
          if '0' <= c <= '9' || c == '-' {
            kind := Number;
            SkipOverNumber();
          } else {
            kind := ErrorToken;
            ok := false;
          }
      }
      if !ok {
        kind := ErrorToken;
      }
    }

    /** `readToken` */
    method NextLexed() returns (token: Token)
      requires current <= |document|
      modifies this`current
      ensures old(current) <= current <= |document| && Lexed(token, Left()) == ReadToken(old(Left()))
    {
      hide Classify, SkipSpaces;
      SkipOverSpaces();
      var start := current;
      ghost var s := Left();
      var c := NextChar();
      var kind := KindBehind(c);
      ClassifyEnd();
      token := Token(kind, document[start..current]);
      assert s[..|s| - |Left()|] == document[start..current];
    }

    lemma ClassifyEnd()
      ensures Classify('\0', []) == (EndOfStream, [])
    {
    }

    /** `skipCommentTokens`, or its loop where `readObject` and `readArray` repeat it. */
    method SkipCommentTokens(allowComments: bool) returns (token: Token)
      requires current <= |document|
      modifies this`current
      ensures old(current) <= current <= |document|
      ensures Lexed(token, Left()) == if allowComments then SkipComments(old(Left())) else ReadToken(old(Left()))
    {
      hide ReadToken;
      token := NextLexed();
      if allowComments {
        while token.kind == Comment
          invariant old(current) <= current <= |document|
          invariant (if token.kind == Comment then SkipComments(Left()) else Lexed(token, Left()))
                    == SkipComments(old(Left()))
          decreases |document| - current, token.kind == Comment
        {
          token := NextLexed();
        }
      }
    }

    // ---- Errors ----------------------------------------------------------------------------------------

    /** `addError` */
    method AddError(message: Message) returns (ok: bool)
      modifies this`errors
      ensures !ok && errors == old(errors) + [message]
    {
      errors := errors + [message];
      ok := false;
    }

    /** `recoverFromError`: the errors noted before stay, and the text is skipped. */
    method RecoverFromError(until: Kind) returns (ok: bool)
      requires current <= |document|
      modifies this`current, this`errors
      ensures !ok && old(current) <= current <= |document| && errors == old(errors)
              && Left() == Recover(old(Left()), until)
    {
      hide ReadToken;
      var errorCount := |errors|;
      var skip := NextLexed();
      while skip.kind != until && skip.kind != EndOfStream
        invariant old(current) <= current <= |document| && errors == old(errors)
        invariant (if skip.kind == until || skip.kind == EndOfStream then Left() else Recover(Left(), until))
                  == Recover(old(Left()), until)
        decreases |document| - current, skip.kind != EndOfStream
      {
        skip := NextLexed();
      }
      errors := errors[..errorCount];
      ok := false;
    }

    /** `addErrorAndRecover` */
    method AddErrorAndRecover(message: Message, until: Kind) returns (ok: bool)
      requires current <= |document|
      modifies this`current, this`errors
      ensures !ok && old(current) <= current <= |document| && errors == old(errors) + [message]
              && Left() == Recover(old(Left()), until)
    {
      ok := AddError(message);
      ok := RecoverFromError(until);
    }

    // ---- Strings ---------------------------------------------------------------------------------------

    /** `decodeUnicodeEscapeSequence` on the text from one offset to another. */
    method DecodeHex(text: string, from: nat, end: nat) returns (ok: bool, unicode: nat)
      requires from <= end <= |text|
      modifies this`errors
      ensures match HexEscape(text[from..end])
              case Ok(u) => ok && unicode == u && errors == old(errors)
              case Err(m) => !ok && errors == old(errors) + [m]
    {
      unicode := 0;
      if end - from < 4 {
        ok := AddError(FourDigits);
        return;
      }
      ghost var digits := text[from..end][..4];
      var index := 0;
      while index < 4
        invariant 0 <= index <= 4 && errors == old(errors)
        invariant HexDigits(digits[index..], unicode) == HexDigits(digits, 0)
      {
        var c := text[from + index];
        assert digits[index..][0] == c && digits[index..][1..] == digits[index + 1..];
        unicode := unicode * 16;
        if '0' <= c <= '9' {
          unicode := unicode + (c as int - '0' as int);
        } else if 'a' <= c <= 'f' {
          unicode := unicode + (c as int - 'a' as int + 10);
        } else if 'A' <= c <= 'F' {
          unicode := unicode + (c as int - 'A' as int + 10);
        } else {
          ok := AddError(HexDigit);
          return;
        }
        index := index + 1;
      }
      ok := true;
    }

    /** `decodeUnicodeCodePoint` */
    method DecodeCodePoint(text: string, from: nat, end: nat) returns (ok: bool, unicode: nat, next: nat)
      requires from <= end <= |text|
      modifies this`errors
      ensures match CodePoint(text[from..end])
              case Ok((u, rest)) => ok && unicode == u && from < next <= end && text[next..end] == rest
                  && errors == old(errors)
              case Err(m) => !ok && errors == old(errors) + [m]
    {
      hide HexDigits;
      next := from;
      ok, unicode := DecodeHex(text, from, end);
      if !ok {
        return;
      }
      next := from + 4;
      assert text[from..end][4..] == text[next..end];
      if 0xD800 <= unicode <= 0xDBFF {
        if end - next < 6 {
          ok := AddError(SixCharacters);
          return;
        }
        if text[next] == '\\' && text[next + 1] == 'u' {
          next := next + 2;
          assert text[from..end][4..][2..] == text[next..end];
          var surrogatePair;
          ok, surrogatePair := DecodeHex(text, next, end);
          if ok {
            unicode := 0x1_0000 + unicode % 0x400 * 0x400 + surrogatePair % 0x400;
            next := next + 4;
            assert text[from..end][4..][6..] == text[next..end];
          }
        } else {
          ok := AddError(SecondHalf);
        }
      }
    }

    /** `decodeString` on a token. */
    method DecodeText(text: string) returns (ok: bool, decoded: string)
      requires |text| >= 2
      modifies this`errors
      ensures match DecodeString(text)
              case Ok(s) => ok && decoded == s && errors == old(errors)
              case Err(m) => !ok && errors == old(errors) + [m]
    {
      hide CodePoint, Utf8, Unescape, Decode;
      decoded := [];
      var at, end := 1, |text| - 1;
      PrefixNothing(DecodeString(text));
      while at != end
        invariant 1 <= at <= end == |text| - 1 && errors == old(errors)
        invariant Prefixed(decoded, Decode(text[at..end])) == DecodeString(text)
        decreases end - at
      {
        ghost var here := text[at..end];
        DecodeStep(here, decoded);
        var c := text[at];
        at := at + 1;
        if c == '"' {
          ok := true;
          return;
        } else if c == '\\' {
          if at == end {
            ok := AddError(EmptyEscape);
            return;
          }
          var escape := text[at];
          at := at + 1;
          assert here[2..] == text[at..end];
          if escape == 'u' {
            var unicode;
            ok, unicode, at := DecodeCodePoint(text, at, end);
            if !ok {
              return;
            }
            decoded := decoded + Utf8(unicode);
          } else {
            var plain := UnescapeChar(escape);
            if plain.None? {
              ok := AddError(BadEscape);
              return;
            }
            decoded := decoded + [plain.value];
          }
        } else {
          assert here[1..] == text[at..end];
          decoded := decoded + [c];
        }
      }
      assert text[at..end] == [];
      DecodeNone(decoded);
      ok := true;
    }

    /** The inner `switch` of `decodeString`. */
    method UnescapeChar(escape: char) returns (plain: Option<char>)
      ensures plain == Unescape(escape)
    {
      match escape {
        case '"' => plain := Some('"');
        case '/' => plain := Some('/');
        case '\\' => plain := Some('\\');
        case 'b' => plain := Some('\U{8}');
        case 'f' => plain := Some('\U{c}');
        case 'n' => plain := Some('\n');
        case 'r' => plain := Some('\r');
        case 't' => plain := Some('\t');
        case _ => plain := None;
      }
    }

    // ---- Numbers ---------------------------------------------------------------------------------------

    /** `decodeNumber` up to the assignment. */
    method DecodeNumberText(text: string) returns (ok: bool, value: Value)
      requires text != []
      modifies this`errors
      ensures match DecodeNumber(config.toDouble, text)
              case Ok(v) => ok && value == v && errors == old(errors)
              case Err(m) => !ok && errors == old(errors) + [m]
    {
      hide ReadDigits, LooksDouble;
      value := Null;
      var isDouble := InspectNumber(text);
      if isDouble {
        ok, value := DecodeDoubleText(text);
        return;
      }
      var isNegative := text[0] == '-';
      var threshold := (if isNegative then 0x8000_0000 else 0xFFFF_FFFF) / 10;
      var digits := AccumulateDigits(if isNegative then text[1..] else text, threshold);
      match digits {
        case NoNumber => ok := AddError(NotANumber);
        case TooLarge => ok, value := DecodeDoubleText(text);
        case Whole(n) =>
          ok := true;
          if isNegative {
            value := Int(0 - n);
          } else if n <= 0x7FFF_FFFF {
            value := Int(n);
          } else {
            value := UInt(n);
          }
      }
    }

    method InspectNumber(text: string) returns (isDouble: bool)
      ensures isDouble == LooksDouble(text)
    {
      isDouble := false;
      var i := 0;
      while i != |text|
        invariant 0 <= i <= |text|
        invariant isDouble <==> exists k :: 0 <= k < i && (text[k] in {'.', 'e', 'E', '+'} || (k > 0 && text[k] == '-'))
        decreases |text| - i
      {
        isDouble := isDouble || text[i] in {'.', 'e', 'E', '+'} || (text[i] == '-' && i != 0);
        i := i + 1;
      }
    }

    /** The digit loop. */
    method AccumulateDigits(text: string, threshold: nat) returns (digits: Digits)
      ensures digits == ReadDigits(text, 0, threshold)
    {
      var value, i := 0, 0;
      while i < |text|
        invariant 0 <= i <= |text| && 0 <= value
        invariant ReadDigits(text[i..], value, threshold) == ReadDigits(text, 0, threshold)
      {
        var c := text[i];
        assert text[i..][1..] == text[i + 1..];
        i := i + 1;
        if c < '0' || c > '9' {
          return NoNumber;
        }
        if value >= threshold {
          return TooLarge;
        }
        value := value * 10 + (c as int - '0' as int);
      }
      digits := Whole(value);
    }

    /** `decodeDouble`, with `sscanf` as a function. */
    method DecodeDoubleText(text: string) returns (ok: bool, value: Value)
      modifies this`errors
      ensures match DecodeDouble(config.toDouble, text)
              case Ok(v) => ok && value == v && errors == old(errors)
              case Err(m) => !ok && errors == old(errors) + [m]
    {
      value := Null;
      match config.toDouble(text) {
        case None => ok := AddError(NotANumber);
        case Some(r) =>
          ok := true;
          value := Real(r);
      }
    }

    // ---- Values ----------------------------------------------------------------------------------------

    /** An operation has done what the function says, at the current place and nowhere else. */
    ghost predicate Done(o: Outcome, ok: bool, before: Value)
      reads this
    {
      && Valid() && ok == o.ok && Left() == o.rest && errors == o.errors
      && root == Set(before, Top(), o.value)
    }

    /** `currentValue() = ...` */
    method Assign(value: Value)
      requires Valid()
      modifies this`root
      ensures Valid() && root == Set(old(root), Top(), value) && Get(root, Top()) == value
    {
      SetTwice(root, Top(), value, value);
      root := Set(root, Top(), value);
    }

    /** `readValue` */
    method ReadOneValue() returns (ok: bool)
      requires Valid()
      modifies this`current, this`errors, this`root, this`nodes
      ensures nodes == old(nodes) && Done(ReadValue(config, old(Left()), Get(old(root), Top()), old(errors)), ok,
              old(root))
      decreases |document| - current, 0
    {
      hide ReadMembers, ReadArray, SkipComments, ReadToken, DecodeNumber, DecodeString, Set, Get, Live;
      SetSame(root, Top());
      ghost var t := Left();
      TokenTexts(config, t);
      var token := SkipCommentTokens(config.allowComments);
      match token.kind {
        case ObjectBegin =>
          ok := ReadObject();
        case ArrayBegin =>
          ok := ReadItemList();
        case Number =>
          var value;
          ok, value := DecodeNumberText(token.text);
          if ok {
            Assign(value);
          }
        case StringToken =>
          var decoded;
          ok, decoded := DecodeText(token.text);
          if ok {
            Assign(Str(Some(UpToNul(decoded))));
          }
        case True =>
          Assign(Bool(true));
          ok := true;
        case False =>
          Assign(Bool(false));
          ok := true;
        case NullToken =>
          Assign(Null);
          ok := true;
        case _ => ok := AddError(SyntaxError);
      }
    }

    /** `currentValue()[key]` on the node stack, read, and off the stack again. */
    method ReadChild(key: Key) returns (ok: bool)
      requires Valid() && (Get(root, Top()).Arr? || Get(root, Top()).Obj?)
      modifies this`current, this`errors, this`root, this`nodes
      ensures nodes == old(nodes)
      ensures var c := Get(old(root), Top());
              var child := ReadValue(config, old(Left()), At(Entries(c), key), old(errors));
              && Valid() && ok == child.ok && Left() == child.rest && errors == child.errors
              && root == Set(old(root), Top(), WithChild(c, key, child.value))
              && Get(root, Top()) == WithChild(c, key, child.value)
      decreases |document| - current, 1
    {
      hide ReadValue, At, Put, Set, Get, Live;
      ghost var c, v, child := Get(root, Top()), root,
          ReadValue(config, Left(), At(Entries(Get(root, Top())), key), errors);
      ChildInserted(root, Top(), c, key, child.value);
      SetTwice(root, Top(), WithChild(c, key, child.value), Null);
      root := Set(root, Top(), WithChild(Get(root, Top()), key, At(Entries(Get(root, Top())), key)));
      nodes := nodes + [Top() + [key]];
      ok := ReadOneValue();
      nodes := nodes[..|nodes| - 1];
    }

    /** The current value is this container, and that is all that has changed since `before`. */
    ghost predicate Holds(c: Value, before: Value)
      reads this
    {
      Valid() && Live(before, Top()) && Get(root, Top()) == c && root == Set(before, Top(), c)
    }

    /** `readObject` */
    method ReadObject() returns (ok: bool)
      requires Valid()
      modifies this`current, this`errors, this`root, this`nodes
      ensures nodes == old(nodes) && Done(ReadMembers(config, old(Left()), [], [], old(errors)), ok, old(root))
      decreases |document| - current, 4
    {
      hide ReadMembers, Set, Get, Live;
      ghost var target, before := ReadMembers(config, Left(), [], [], errors), root;
      ghost var members: seq<Entry> := [];
      Assign(Obj([]));
      var name: string := [];
      var more := true;
      ok := true;
      while more
        invariant nodes == old(nodes) && old(current) <= current <= |document|
        invariant more ==> Holds(Obj(members), before) && ReadMembers(config, Left(), members, name, errors) == target
        invariant !more ==> Done(target, ok, before)
        decreases more, |document| - current
      {
        more, ok, name, members := Round(name, members, before);
      }
    }

    /** One round of the loop of `readObject`. */
    method Round(name: string, ghost members: seq<Entry>, ghost before: Value)
      returns (more: bool, ok: bool, newName: string, ghost grown: seq<Entry>)
      requires Holds(Obj(members), before)
      modifies this`current, this`errors, this`root, this`nodes
      ensures nodes == old(nodes) && old(current) <= current <= |document|
      ensures var o := ReadMembers(config, old(Left()), members, name, old(errors));
              if more then
                old(current) < current && Holds(Obj(grown), before)
                    && ReadMembers(config, Left(), grown, newName, errors) == o
              else Done(o, ok, before)
      decreases |document| - current, 3
    {
      hide ReadValue, At, Put, Set, Get, Live, SkipComments, ReadToken, Recover, DecodeString, EndMember, NamedMember;
      CommentsTexts(Left());
      more, ok, newName, grown := false, true, [], members;
      var tokenName := SkipCommentTokens(true);
      if tokenName.kind == ObjectEnd && name == [] {
        return;
      }
      if tokenName.kind != StringToken {
        ok := AddErrorAndRecover(MissingObjectEnd, ObjectEnd);
        return;
      }
      ok, newName := DecodeText(tokenName.text);
      if !ok {
        ok := RecoverFromError(ObjectEnd);
        return;
      }
      more, ok, grown := AfterName(newName, members, before);
    }

    /** The colon, the value and the end of a round. */
    method AfterName(name: string, ghost members: seq<Entry>, ghost before: Value)
      returns (more: bool, ok: bool, ghost grown: seq<Entry>)
      requires Holds(Obj(members), before)
      modifies this`current, this`errors, this`root, this`nodes
      ensures nodes == old(nodes) && old(current) <= current <= |document|
      ensures var o := NamedMember(config, old(Left()), members, name, old(errors));
              if more then
                old(current) < current && Holds(Obj(grown), before)
                    && ReadMembers(config, Left(), grown, name, errors) == o
              else Done(o, ok, before)
      decreases |document| - current, 3
    {
      hide ReadMembers, ReadValue, At, Put, Set, Get, Live, ReadToken, Recover, EndMember;
      more, grown := false, members;
      var colon := NextLexed();
      if colon.kind != MemberSeparator {
        ok := AddErrorAndRecover(MissingColon, ObjectEnd);
        return;
      }
      ghost var child := ReadValue(config, Left(), At(members, Name(UpToNul(name))), errors);
      ok := ReadMember(Name(UpToNul(name)), members, before);
      grown := Put(members, Name(UpToNul(name)), child.value);
      if !ok {
        ok := RecoverFromError(ObjectEnd);
        return;
      }
      more, ok := EndsMember(grown, name, before);
    }

    /** The end of a round: the comma or the end of the object. */
    method EndsMember(ghost members: seq<Entry>, ghost name: string, ghost before: Value) returns (more: bool, ok: bool)
      requires Holds(Obj(members), before)
      modifies this`current, this`errors
      ensures var o := EndMember(config, old(Left()), members, name, old(errors));
              if more then old(current) < current && Holds(Obj(members), before)
                  && ReadMembers(config, Left(), members, name, errors) == o
              else Done(o, ok, before)
    {
      hide ReadMembers, At, Put, Set, Get, Live, SkipComments, ReadToken, Recover;
      more, ok := false, true;
      var comma := NextLexed();
      if comma.kind != ObjectEnd && comma.kind != ArraySeparator && comma.kind != Comment {
        ok := AddErrorAndRecover(MissingMemberEnd, ObjectEnd);
        return;
      }
      if comma.kind == Comment {
        comma := SkipCommentTokens(true);
      }
      more := comma.kind != ObjectEnd;
    }

    /** A child of the container that is being filled. */
    method ReadMember(key: Key, ghost members: seq<Entry>, ghost before: Value) returns (ok: bool)
      requires Holds(Obj(members), before)
      modifies this`current, this`errors, this`root, this`nodes
      ensures nodes == old(nodes)
      ensures var child := ReadValue(config, old(Left()), At(members, key), old(errors));
              && Holds(Obj(Put(members, key, child.value)), before)
              && ok == child.ok && Left() == child.rest && errors == child.errors
      decreases |document| - current, 2
    {
      hide ReadValue, At, Put, Set, Get, Live;
      SetTwice(before, Top(), Obj(members), Obj(Put(members, key,
          ReadValue(config, Left(), At(members, key), errors).value)));
      ok := ReadChild(key);
    }

    /** `readArray`.  The test for a bad separator can never be true: anything that is no `]` goes on. */
    method ReadItemList() returns (ok: bool)
      requires Valid()
      modifies this`current, this`errors, this`root, this`nodes
      ensures nodes == old(nodes) && Done(ReadArray(config, old(Left()), old(errors)), ok, old(root))
      decreases |document| - current, 5
    {
      hide ReadItems, Set, Get, Live, SkipSpaces, ReadToken;
      ghost var before := root;
      Assign(Arr([]));
      SkipOverSpaces();
      if Peek() == ']' {
        SkipTwice(old(Left()));
        EndsAtOnce(Left());
        var endArray := NextLexed();
        return true;
      }
      ok := ReadTheItems(before);
    }

    /** The loop of `readArray`. */
    method ReadTheItems(ghost before: Value) returns (ok: bool)
      requires Holds(Arr([]), before)
      modifies this`current, this`errors, this`root, this`nodes
      ensures nodes == old(nodes) && Done(ReadItems(config, old(Left()), [], old(errors)), ok, before)
      decreases |document| - current, 4
    {
      hide ReadItems, Set, Get, Live, Put;
      ghost var target := ReadItems(config, Left(), [], errors);
      ghost var items: seq<Entry> := [];
      var index, more := 0, true;
      ok := true;
      while more
        invariant nodes == old(nodes) && old(current) <= current <= |document|
        invariant more ==> Holds(Arr(items), before) && index == |items| && Dense(items)
        invariant more ==> ReadItems(config, Left(), items, errors) == target
        invariant !more ==> Done(target, ok, before)
        decreases more, |document| - current
      {
        more, ok, items := ItemRound(index, items, before);
        index := index + 1;
      }
    }

    /** One round of the loop of `readArray`. */
    method ItemRound(index: nat, ghost items: seq<Entry>, ghost before: Value)
        returns (more: bool, ok: bool, ghost grown: seq<Entry>)
      requires Holds(Arr(items), before) && index == |items| && Dense(items)
      modifies this`current, this`errors, this`root, this`nodes
      ensures nodes == old(nodes) && old(current) <= current <= |document|
      ensures var o := ReadItems(config, old(Left()), items, old(errors));
              if more then
                && old(current) < current && Holds(Arr(grown), before) && index + 1 == |grown| && Dense(grown)
                && ReadItems(config, Left(), grown, errors) == o
              else Done(o, ok, before)
      decreases |document| - current, 3
    {
      hide ReadValue, At, Put, Set, Get, Live, SkipComments, Recover, Dense;
      ghost var child := ReadValue(config, Left(), At(items, Index(index)), errors);
      more := false;
      PutKeepsDense(items, child.value);
      ok := ReadItem(Index(index), items, before);
      grown := Put(items, Index(index), child.value);
      if !ok {
        ok := RecoverFromError(ArrayEnd);
        return;
      }
      var token := SkipCommentTokens(true);
      more := token.kind != ArrayEnd;
    }

    method ReadItem(key: Key, ghost items: seq<Entry>, ghost before: Value) returns (ok: bool)
      requires Holds(Arr(items), before)
      modifies this`current, this`errors, this`root, this`nodes
      ensures nodes == old(nodes)
      ensures var child := ReadValue(config, old(Left()), At(items, key), old(errors));
              && Holds(Arr(Put(items, key, child.value)), before)
              && ok == child.ok && Left() == child.rest && errors == child.errors
      decreases |document| - current, 2
    {
      hide ReadValue, At, Put, Set, Get, Live;
      SetTwice(before, Top(), Arr(items), Arr(Put(items, key,
          ReadValue(config, Left(), At(items, key), errors).value)));
      ok := ReadChild(key);
    }

    /** `parse`: the abstract reader on the whole document.  It ends on every text, with the position
        inside of it and one node on the stack. */
    method Parse(doc: string) returns (ok: bool)
      modifies this`document, this`current, this`errors, this`root, this`nodes
      ensures Valid() && document == doc && nodes == [[]]
      ensures Parsed(ok, root, errors) == JsonGrammar.Parse(config, doc, old(root))
      ensures ok <==> errors == []
    {
      hide ReadValue, SkipComments, ReadToken;
      document, current, errors := doc, 0, [];
      nodes := [[]];
      ParseIsHonest(config, doc, root);
      assert Left() == doc;
      ok := ReadOneValue();
      var token := SkipCommentTokens(config.allowComments);
      if config.strictRoot && !root.Null? && !root.Arr? && !root.Obj? {
        ok := AddError(RootNotStructured);
      }
    }
  }

  lemma EndsAtOnce(s: string)
    requires s != [] && s[0] == ']' && SkipSpaces(s) == s
    ensures ReadToken(s) == Lexed(Token(ArrayEnd, "]"), s[1..])
  {
    assert s[..1] == "]";
  }

  lemma PrefixNothing(r: Result<string>)
    ensures Prefixed([], r) == r
  {
    if r.Ok? {
      assert [] + r.value == r.value;
    }
  }

  lemma DecodeNone(decoded: string)
    ensures Prefixed(decoded, Decode([])) == Ok(decoded)
  {
    assert decoded + [] == decoded;
  }

  lemma PrefixTwice(a: string, b: string, r: Result<string>)
    ensures Prefixed(a, Prefixed(b, r)) == Prefixed(a + b, r)
  {
    if r.Ok? {
      assert a + (b + r.value) == a + b + r.value;
    }
  }

  /** `Decode` behind what is decoded already. */
  lemma DecodeStep(t: string, decoded: string)
    requires t != []
    ensures t[0] == '"' ==> Prefixed(decoded, Decode(t)) == Ok(decoded)
    ensures t[0] != '"' && t[0] != '\\' ==> Prefixed(decoded, Decode(t)) == Prefixed(decoded + [t[0]], Decode(t[1..]))
    ensures t[0] == '\\' && |t| == 1 ==> Prefixed(decoded, Decode(t)) == Err(EmptyEscape)
    ensures t[0] == '\\' && |t| > 1 && t[1] != 'u' ==>
              Prefixed(decoded, Decode(t)) == match Unescape(t[1])
                                              case None => Err(BadEscape)
                                              case Some(c) => Prefixed(decoded + [c], Decode(t[2..]))
    ensures t[0] == '\\' && |t| > 1 && t[1] == 'u' ==>
              Prefixed(decoded, Decode(t)) == match CodePoint(t[2..])
                                              case Err(m) => Err(m)
                                              case Ok((cp, rest)) => Prefixed(decoded + Utf8(cp), Decode(rest))
  {
    hide CodePoint, Utf8, Unescape;
    if t[0] == '"' {
      assert decoded + [] == decoded;
    } else if t[0] != '\\' {
      PrefixTwice(decoded, [t[0]], Decode(t[1..]));
    } else if |t| > 1 {
      if t[1] != 'u' {
        if Unescape(t[1]).Some? {
          PrefixTwice(decoded, [Unescape(t[1]).value], Decode(t[2..]));
        }
      } else if CodePoint(t[2..]).Ok? {
        PrefixTwice(decoded, Utf8(CodePoint(t[2..]).value.0), Decode(CodePoint(t[2..]).value.1));
      }
    }
  }
}
