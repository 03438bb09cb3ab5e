/** The language that the reader accepts, over the tokens of a text (android/jni/jsoncpp/json_reader.cpp:194-578). */
module JsonLanguage {
  import opened Basics
  import opened JsonValue
  import opened JsonLexer
  import opened JsonGrammar

  // ---- Tokens and places -------------------------------------------------------------------------------

  lemma TokenMoves(t: string)
    requires SkipSpaces(t) != []
    ensures |ReadToken(t).rest| < |t|
  {
    hide Classify;
  }

  /** All tokens of a text, comments and errors among them. */
  function Lex(t: string): seq<Token>
    decreases |t|
  {
    if SkipSpaces(t) == [] then []
    else
      TokenMoves(t);
      [ReadToken(t).token] + Lex(ReadToken(t).rest)
  }

  /** The text behind the first n tokens. */
  function Behind(t: string, n: nat): string
    decreases n
  {
    if n == 0 then t else Behind(ReadToken(t).rest, n - 1)
  }

  lemma {:induction false} LexBehind(t: string, n: nat)
    requires n <= |Lex(t)|
    ensures Lex(Behind(t, n)) == Lex(t)[n..]
    decreases n
  {
    hide SkipSpaces, ReadToken;
    if n > 0 {
      LexBehind(ReadToken(t).rest, n - 1);
    }
  }

  lemma {:induction false} BehindNext(t: string, n: nat)
    ensures Behind(t, n + 1) == ReadToken(Behind(t, n)).rest
    decreases n
  {
    hide ReadToken;
    if n > 0 {
      BehindNext(ReadToken(t).rest, n - 1);
    }
  }

  /** The token at a place, and the end of the text behind the last one. */
  lemma TokenAt(t: string, n: nat)
    requires n <= |Lex(t)|
    ensures n < |Lex(t)| ==> ReadToken(Behind(t, n)) == Lexed(Lex(t)[n], Behind(t, n + 1))
    ensures n < |Lex(t)| ==> |Behind(t, n + 1)| < |Behind(t, n)|
    ensures n == |Lex(t)| ==> ReadToken(Behind(t, n)) == Lexed(Token(EndOfStream, []), [])
  {
    hide ReadToken;
    LexBehind(t, n);
    BehindNext(t, n);
    var u := Behind(t, n);
    if n < |Lex(t)| {
      assert Lex(u)[0] == Lex(t)[n];
      TokenMoves(u);
    } else {
      NothingLeft(u);
    }
  }

  lemma NothingLeft(t: string)
    requires Lex(t) == []
    ensures ReadToken(t) == Lexed(Token(EndOfStream, []), [])
  {
  }

  /** The first place from a on without a comment. */
  function Past(ts: seq<Token>, a: nat): (b: nat)
    requires a <= |ts|
    ensures a <= b <= |ts| && (b < |ts| ==> ts[b].kind != Comment)
    decreases |ts| - a
  {
    if a < |ts| && ts[a].kind == Comment then Past(ts, a + 1) else a
  }

  lemma {:induction false} CommentsPassed(t: string, a: nat)
    requires a <= |Lex(t)|
    ensures SkipComments(Behind(t, a)) == ReadToken(Behind(t, Past(Lex(t), a)))
    decreases |Lex(t)| - a
  {
    hide ReadToken, Lex, Behind;
    TokenAt(t, a);
    if a < |Lex(t)| && Lex(t)[a].kind == Comment {
      CommentsPassed(t, a + 1);
    }
  }

  // ---- The grammar -------------------------------------------------------------------------------------

  /** Comments in front of a value are passed if they are allowed. */
  function Front(config: Config, ts: seq<Token>, a: nat): (k: nat)
    requires a <= |ts|
    ensures a <= k <= |ts|
  {
    if config.allowComments then Past(ts, a) else a
  }

  predicate Decodes(config: Config, token: Token) {
    match token.kind
    case Number => token.text != [] && DecodeNumber(config.toDouble, token.text).Ok?
    case StringToken => NameOf(token).Some?
    case True => true
    case False => true
    case NullToken => true
    case _ => false
  }

  function NameOf(token: Token): Option<string> {
    if |token.text| < 2 || DecodeString(token.text).Err? then None else Some(DecodeString(token.text).value)
  }

  function Length(a: nat, b: nat): nat {
    if a < b then b - a else 0
  }

  /** The tokens from place a to place b are a value. */
  ghost predicate IsValue(config: Config, ts: seq<Token>, a: nat, b: nat)
    requires a <= |ts|
    decreases Length(a, b), 0
  {
    var k := Front(config, ts, a);
    && k < b <= |ts|
    && match ts[k].kind
       case ArrayBegin => k + 1 < b && if ts[k + 1].kind == ArrayEnd then b == k + 2 else IsItems(config, ts, k + 1, b)
       case ObjectBegin => IsMembers(config, ts, [], k + 1, b)
       case _ => b == k + 1 && Decodes(config, ts[k])
  }

  /** Items and the end of an array: any token but the closing bracket separates two items. */
  ghost predicate IsItems(config: Config, ts: seq<Token>, a: nat, b: nat)
    requires a <= |ts|
    decreases Length(a, b), 1
  {
    exists i :: a < i < b <= |ts| && IsValue(config, ts, a, i) && ItemsFrom(config, ts, i, b)
  }

  ghost predicate ItemsFrom(config: Config, ts: seq<Token>, i: nat, b: nat)
    requires i <= |ts|
    decreases Length(i, b), 0
  {
    var j := Past(ts, i);
    j < b <= |ts| && if ts[j].kind == ArrayEnd then b == j + 1 else IsItems(config, ts, j + 1, b)
  }

  /** Members and the end of an object; the end may come at once, and behind a comma if the name in front of it is
      empty. */
  ghost predicate IsMembers(config: Config, ts: seq<Token>, name: string, a: nat, b: nat)
    requires a <= |ts|
    decreases Length(a, b), 1
  {
    var j := Past(ts, a);
    && j < b <= |ts|
    && if ts[j].kind == ObjectEnd && name == [] then b == j + 1
       else
         && ts[j].kind == StringToken && NameOf(ts[j]).Some? && j + 1 < b && ts[j + 1].kind == MemberSeparator
         && IsNamed(config, ts, NameOf(ts[j]).value, j + 2, b)
  }

  /** The value of a member and what follows it. */
  ghost predicate IsNamed(config: Config, ts: seq<Token>, name: string, a: nat, b: nat)
    requires a <= |ts|
    decreases Length(a, b), 1
  {
    exists i :: a < i < b <= |ts| && IsValue(config, ts, a, i) && MembersFrom(config, ts, name, i, b)
  }

  /** Behind a member: the end, a comma, or a comment with any token behind it. */
  ghost predicate MembersFrom(config: Config, ts: seq<Token>, name: string, i: nat, b: nat)
    requires i <= |ts|
    decreases Length(i, b), 0
  {
    var j := Past(ts, i);
    && j < b <= |ts|
    && if ts[j].kind == ObjectEnd then b == j + 1
       else (j > i || ts[j].kind == ArraySeparator) && IsMembers(config, ts, name, j + 1, b)
  }

  /** A comma in front of the closing brace is right if and only if the name in front of it is empty. */
  lemma TrailingCommaIff(config: Config, ts: seq<Token>, name: string, i: nat, b: nat)
    requires i + 1 < |ts| && ts[i].kind == ArraySeparator && ts[i + 1].kind == ObjectEnd
    ensures MembersFrom(config, ts, name, i, b) <==> name == [] && b == i + 2
  {
    assert Past(ts, i) == i && Past(ts, i + 1) == i + 1;
  }

  // ---- What the reader sees at a place -----------------------------------------------------------------

  lemma FrontToken(config: Config, t: string, a: nat)
    requires a <= |Lex(t)|
    ensures NextToken(config, Behind(t, a)) == ReadToken(Behind(t, Front(config, Lex(t), a)))
  {
    hide ReadToken, Behind, Lex;
    CommentsPassed(t, a);
  }

  /** A scalar, an array or an object begins here. */
  lemma ValueAt(config: Config, t: string, a: nat, previous: Value, errors: Errors)
    requires a <= |Lex(t)|
    ensures var ts, k, o := Lex(t), Front(config, Lex(t), a), ReadValue(config, Behind(t, a), previous, errors);
            if k == |ts| then !o.ok
            else
              var rest := Behind(t, k + 1);
              match ts[k].kind
              case ArrayBegin => o == ReadArray(config, rest, errors)
              case ObjectBegin => o == ReadMembers(config, rest, [], [], errors)
              case _ => (o.ok <==> Decodes(config, ts[k])) && (o.ok ==> o.rest == rest)
  {
    hide ReadToken, Behind, Lex, ReadArray, ReadMembers, DecodeNumber, DecodeString;
    FrontToken(config, t, a);
    TokenAt(t, Front(config, Lex(t), a));
    TokenTexts(config, Behind(t, a));
  }

  /** An array with and without items. */
  lemma ArrayAt(config: Config, t: string, a: nat, errors: Errors)
    requires a <= |Lex(t)|
    ensures ReadArray(config, Behind(t, a), errors)
            == if a < |Lex(t)| && Lex(t)[a].kind == ArrayEnd then Outcome(true, Arr([]), Behind(t, a + 1), errors)
               else ReadItems(config, Behind(t, a), [], errors)
  {
    hide Behind, Lex;
    TokenAt(t, a);
    ClosesNow(Behind(t, a));
    SpacesBefore(config, Behind(t, a), errors);
  }

  lemma ClosesNow(u: string)
    ensures var s := SkipSpaces(u);
            if s != [] && s[0] == ']' then ReadToken(u) == Lexed(Token(ArrayEnd, "]"), s[1..])
            else ReadToken(u).token.kind != ArrayEnd
  {
  }

  lemma SpacesBefore(config: Config, u: string, errors: Errors)
    ensures ReadItems(config, SkipSpaces(u), [], errors) == ReadItems(config, u, [], errors)
  {
    hide SkipSpaces, Classify, ReadMembers, ReadArray;
    SkipTwice(u);
  }

  /** Behind an item. */
  lemma ItemsAt(config: Config, t: string, a: nat, i: nat, items: seq<Entry>, errors: Errors)
    returns (grown: seq<Entry>, noted: Errors)
    requires i <= |Lex(t)|
    ensures var child := ReadValue(config, Behind(t, a), At(items, Index(|items|)), errors);
            var o, ts, j := ReadItems(config, Behind(t, a), items, errors), Lex(t), Past(Lex(t), i);
            if !child.ok then !o.ok
            else if child.rest != Behind(t, i) then true
            else if j == |ts| then !o.ok
            else if ts[j].kind == ArrayEnd then o.ok && o.rest == Behind(t, j + 1)
            else o == ReadItems(config, Behind(t, j + 1), grown, noted)
  {
    hide ReadToken, Behind, Lex, ReadValue, SkipComments, Recover, Put, At;
    CommentsPassed(t, i);
    TokenAt(t, Past(Lex(t), i));
    var child := ReadValue(config, Behind(t, a), At(items, Index(|items|)), errors);
    grown, noted := Put(items, Index(|items|), child.value), child.errors;
    NoValue(config, At(grown, Index(|grown|)), noted);
  }

  lemma NoValue(config: Config, previous: Value, errors: Errors)
    ensures !ReadValue(config, [], previous, errors).ok
  {
  }

  /** At the name of a member or the end. */
  lemma MembersAt(config: Config, t: string, name: string, a: nat, members: seq<Entry>, errors: Errors)
    requires a <= |Lex(t)|
    ensures var o, ts, j := ReadMembers(config, Behind(t, a), members, name, errors), Lex(t), Past(Lex(t), a);
            if j == |ts| then !o.ok
            else if ts[j].kind == ObjectEnd && name == [] then o.ok && o.rest == Behind(t, j + 1)
            else if ts[j].kind == StringToken && NameOf(ts[j]).Some? then
              o == NamedMember(config, Behind(t, j + 1), members, NameOf(ts[j]).value, errors)
            else !o.ok
  {
    hide ReadToken, Behind, Lex, NamedMember, SkipComments, Recover, DecodeString;
    CommentsPassed(t, a);
    TokenAt(t, Past(Lex(t), a));
    CommentsTexts(Behind(t, a));
  }

  /** The colon and the value of a member. */
  lemma NamedAt(config: Config, t: string, name: string, a: nat, members: seq<Entry>, errors: Errors)
    returns (previous: Value, grown: seq<Entry>)
    requires a <= |Lex(t)|
    ensures var o, ts := NamedMember(config, Behind(t, a), members, name, errors), Lex(t);
            if a == |ts| || ts[a].kind != MemberSeparator then !o.ok
            else
              var child := ReadValue(config, Behind(t, a + 1), previous, errors);
              if !child.ok then !o.ok else o == EndMember(config, child.rest, grown, name, child.errors)
  {
    hide ReadToken, Behind, Lex, ReadValue, EndMember, Recover, Put, At, UpToNul;
    TokenAt(t, a);
    var key := Name(UpToNul(name));
    previous := At(members, key);
    grown := Put(members, key, ReadValue(config, ReadToken(Behind(t, a)).rest, previous, errors).value);
  }

  /** Behind a member. */
  lemma EndAt(config: Config, t: string, name: string, i: nat, members: seq<Entry>, errors: Errors)
    requires i <= |Lex(t)|
    ensures var o, ts, j := EndMember(config, Behind(t, i), members, name, errors), Lex(t), Past(Lex(t), i);
            if j == |ts| then !o.ok
            else if ts[j].kind == ObjectEnd then o.ok && o.rest == Behind(t, j + 1)
            else if j > i || ts[j].kind == ArraySeparator then
              o == ReadMembers(config, Behind(t, j + 1), members, name, errors)
            else !o.ok
  {
    hide ReadToken, Behind, Lex, ReadMembers, SkipComments, Recover;
    TokenAt(t, i);
    TokenAt(t, Past(Lex(t), i));
    if i < |Lex(t)| && Lex(t)[i].kind == Comment {
      CommentsPassed(t, i + 1);
    }
    NoMember(config, members, name, errors);
  }

  lemma NoMember(config: Config, members: seq<Entry>, name: string, errors: Errors)
    ensures !ReadMembers(config, [], members, name, errors).ok
  {
  }

  // ---- What is accepted is in the language --------------------------------------------------------------

  lemma {:induction false} ValueIn(config: Config, t: string, a: nat, previous: Value, errors: Errors) returns (b: nat)
    requires a <= |Lex(t)| && ReadValue(config, Behind(t, a), previous, errors).ok
    ensures a < b <= |Lex(t)| && IsValue(config, Lex(t), a, b)
    ensures ReadValue(config, Behind(t, a), previous, errors).rest == Behind(t, b)
    decreases |Lex(t)| - a, 0
  {
    hide Behind, Lex, ReadValue, ReadArray, ReadMembers, IsItems, IsMembers, Decodes, Front, Past, SkipSpaces,
         ReadItems;
    var ts, k := Lex(t), Front(config, Lex(t), a);
    ValueAt(config, t, a, previous, errors);
    b := k + 1;
    if ts[k].kind == ArrayBegin {
      ArrayAt(config, t, k + 1, errors);
      if k + 1 < |ts| && ts[k + 1].kind == ArrayEnd {
        b := k + 2;
      } else {
        b := ItemsIn(config, t, k + 1, [], errors);
      }
    } else if ts[k].kind == ObjectBegin {
      b := MembersIn(config, t, [], k + 1, [], errors);
    }
  }

  lemma {:induction false} ItemsIn(config: Config, t: string, a: nat, items: seq<Entry>, errors: Errors)
      returns (b: nat)
    requires a <= |Lex(t)| && ReadItems(config, Behind(t, a), items, errors).ok
    ensures a < b <= |Lex(t)| && IsItems(config, Lex(t), a, b)
    ensures ReadItems(config, Behind(t, a), items, errors).rest == Behind(t, b)
    decreases |Lex(t)| - a, 1
  {
    hide Behind, Lex, ReadValue, ReadItems, IsValue;
    var previous := At(items, Index(|items|));
    var grown, noted := ItemsAt(config, t, a, a, items, errors);
    var i := ValueIn(config, t, a, previous, errors);
    grown, noted := ItemsAt(config, t, a, i, items, errors);
    var j := Past(Lex(t), i);
    b := j + 1;
    if Lex(t)[j].kind != ArrayEnd {
      b := ItemsIn(config, t, j + 1, grown, noted);
    }
    assert ItemsFrom(config, Lex(t), i, b);
  }

  lemma {:induction false} MembersIn(config: Config, t: string, name: string, a: nat, members: seq<Entry>,
      errors: Errors)
    returns (b: nat)
    requires a <= |Lex(t)| && ReadMembers(config, Behind(t, a), members, name, errors).ok
    ensures a < b <= |Lex(t)| && IsMembers(config, Lex(t), name, a, b)
    ensures ReadMembers(config, Behind(t, a), members, name, errors).rest == Behind(t, b)
    decreases |Lex(t)| - a, 1
  {
    hide Behind, Lex, ReadValue, ReadMembers, NamedMember, EndMember, IsValue, NameOf;
    var ts, j := Lex(t), Past(Lex(t), a);
    MembersAt(config, t, name, a, members, errors);
    b := j + 1;
    if !(ts[j].kind == ObjectEnd && name == []) {
      var named := NameOf(ts[j]).value;
      var previous, grown := NamedAt(config, t, named, j + 1, members, errors);
      var i := ValueIn(config, t, j + 2, previous, errors);
      var noted := ReadValue(config, Behind(t, j + 2), previous, errors).errors;
      EndAt(config, t, named, i, grown, noted);
      var e := Past(ts, i);
      b := e + 1;
      if ts[e].kind != ObjectEnd {
        b := MembersIn(config, t, named, e + 1, grown, noted);
      }
      assert MembersFrom(config, ts, named, i, b);
    }
  }

  // ---- What is in the language is accepted --------------------------------------------------------------

  lemma {:induction false} ValueOf(config: Config, t: string, a: nat, b: nat, previous: Value, errors: Errors)
    requires a <= |Lex(t)| && IsValue(config, Lex(t), a, b)
    ensures var o := ReadValue(config, Behind(t, a), previous, errors); o.ok && o.rest == Behind(t, b)
    decreases Length(a, b), 0
  {
    hide Behind, Lex, ReadValue, ReadArray, ReadMembers, IsItems, IsMembers, Decodes, Front, Past, SkipSpaces,
         ReadItems;
    var ts, k := Lex(t), Front(config, Lex(t), a);
    ValueAt(config, t, a, previous, errors);
    if ts[k].kind == ArrayBegin {
      ArrayAt(config, t, k + 1, errors);
      if ts[k + 1].kind != ArrayEnd {
        ItemsOf(config, t, k + 1, b, [], errors);
      }
    } else if ts[k].kind == ObjectBegin {
      MembersOf(config, t, [], k + 1, b, [], errors);
    }
  }

  lemma {:induction false} ItemsOf(config: Config, t: string, a: nat, b: nat, items: seq<Entry>, errors: Errors)
    requires a <= |Lex(t)| && IsItems(config, Lex(t), a, b)
    ensures var o := ReadItems(config, Behind(t, a), items, errors); o.ok && o.rest == Behind(t, b)
    decreases Length(a, b), 1
  {
    hide Behind, Lex, ReadValue, ReadItems, IsValue;
    var ts := Lex(t);
    var i :| a < i < b <= |ts| && IsValue(config, ts, a, i) && ItemsFrom(config, ts, i, b);
    ValueOf(config, t, a, i, At(items, Index(|items|)), errors);
    var grown, noted := ItemsAt(config, t, a, i, items, errors);
    var j := Past(ts, i);
    if ts[j].kind != ArrayEnd {
      ItemsOf(config, t, j + 1, b, grown, noted);
    }
  }

  lemma {:induction false} MembersOf(config: Config, t: string, name: string, a: nat, b: nat, members: seq<Entry>,
      errors: Errors)
    requires a <= |Lex(t)| && IsMembers(config, Lex(t), name, a, b)
    ensures var o := ReadMembers(config, Behind(t, a), members, name, errors); o.ok && o.rest == Behind(t, b)
    decreases Length(a, b), 1
  {
    hide Behind, Lex, ReadValue, ReadMembers, NamedMember, EndMember, IsValue, NameOf;
    var ts, j := Lex(t), Past(Lex(t), a);
    MembersAt(config, t, name, a, members, errors);
    if !(ts[j].kind == ObjectEnd && name == []) {
      var named := NameOf(ts[j]).value;
      assert IsNamed(config, ts, named, j + 2, b);
      var i :| j + 2 < i < b <= |ts| && IsValue(config, ts, j + 2, i) && MembersFrom(config, ts, named, i, b);
      var previous, grown := NamedAt(config, t, named, j + 1, members, errors);
      ValueOf(config, t, j + 2, i, previous, errors);
      var noted := ReadValue(config, Behind(t, j + 2), previous, errors).errors;
      EndAt(config, t, named, i, grown, noted);
      var e := Past(ts, i);
      if ts[e].kind != ObjectEnd {
        MembersOf(config, t, named, e + 1, b, grown, noted);
      }
    }
  }

  // ---- The whole text ------------------------------------------------------------------------------------

  lemma {:induction false} ItemsMakeArray(config: Config, t: string, items: seq<Entry>, errors: Errors)
    ensures ReadItems(config, t, items, errors).value.Arr?
    decreases |t|
  {
    hide ReadValue, Put, At, Recover;
    var child := ReadValue(config, t, At(items, Index(|items|)), errors);
    if child.ok {
      ItemsMakeArray(config, SkipComments(child.rest).rest, Put(items, Index(|items|), child.value), child.errors);
    }
  }

  lemma {:induction false} MembersMakeObject(config: Config, t: string, members: seq<Entry>, name: string,
      errors: Errors)
    ensures ReadMembers(config, t, members, name, errors).value.Obj?
    decreases |t|, 1
  {
    hide NamedMember, Recover, DecodeString;
    CommentsTexts(t);
    var next := SkipComments(t);
    if next.token.kind == StringToken && DecodeString(next.token.text).Ok? {
      NamedMakesObject(config, next.rest, members, DecodeString(next.token.text).value, errors);
    }
  }

  lemma {:induction false} NamedMakesObject(config: Config, t: string, members: seq<Entry>, name: string,
      errors: Errors)
    ensures NamedMember(config, t, members, name, errors).value.Obj?
    decreases |t|, 1
  {
    hide ReadValue, EndMember, Put, At, Recover, UpToNul;
    var colon, key := ReadToken(t), Name(UpToNul(name));
    var child := ReadValue(config, colon.rest, At(members, key), errors);
    if colon.token.kind == MemberSeparator && child.ok {
      EndMakesObject(config, child.rest, Put(members, key, child.value), name, child.errors);
    }
  }

  lemma {:induction false} EndMakesObject(config: Config, t: string, members: seq<Entry>, name: string, errors: Errors)
    ensures EndMember(config, t, members, name, errors).value.Obj?
    decreases |t|, 2
  {
    hide ReadMembers, Recover;
    var comma := ReadToken(t);
    if comma.token.kind in {ObjectEnd, ArraySeparator, Comment} {
      var last := if comma.token.kind == Comment then SkipComments(comma.rest) else comma;
      MembersMakeObject(config, last.rest, members, name, errors);
    }
  }

  /** What the strict mode sees of a root that has been read. */
  lemma RootKind(config: Config, t: string, root: Value)
    requires ReadValue(config, t, root, []).ok
    ensures var v, ts := ReadValue(config, t, root, []).value, Lex(t);
            var k := Front(config, ts, 0);
            && k < |ts| && (v.Null? || v.Arr? || v.Obj? <==> ts[k].kind in {NullToken, ArrayBegin, ObjectBegin})
  {
    hide Lex, ReadItems, ReadMembers, ReadToken, DecodeNumber, DecodeString, SkipSpaces, UpToNul;
    assert Behind(t, 0) == t;
    ValueAt(config, t, 0, root, []);
    FrontToken(config, t, 0);
    var k := Front(config, Lex(t), 0);
    TokenAt(t, k);
    TokenTexts(config, t);
    ItemsMakeArray(config, SkipSpaces(Behind(t, k + 1)), [], []);
    MembersMakeObject(config, Behind(t, k + 1), [], [], []);
    if k < |Lex(t)| && Lex(t)[k].kind == Number {
      NumberIsNumber(config, Lex(t)[k].text);
    }
  }

  lemma NumberIsNumber(config: Config, text: string)
    requires text != [] && DecodeNumber(config.toDouble, text).Ok?
    ensures var v := DecodeNumber(config.toDouble, text).value; v.Int? || v.UInt? || v.Real?
  {
    hide ReadDigits, LooksDouble;
  }

  /** A text is accepted if and only if its tokens begin with a value of the language, in the strict mode with an array,
      an object or a null.  The old root does not matter, nor does anything behind that value. */
  lemma AcceptedIff(config: Config, t: string, root: Value)
    ensures Parse(config, t, root).ok
       <==> && (exists b :: IsValue(config, Lex(t), 0, b))
            && var k := Front(config, Lex(t), 0);
               config.strictRoot ==> k < |Lex(t)| && Lex(t)[k].kind in {NullToken, ArrayBegin, ObjectBegin}
  {
    hide Lex, ReadValue, IsValue, Front;
    assert Behind(t, 0) == t;
    if ReadValue(config, t, root, []).ok {
      var b := ValueIn(config, t, 0, root, []);
      RootKind(config, t, root);
    }
    if b :| IsValue(config, Lex(t), 0, b) {
      ValueOf(config, t, 0, b, root, []);
    }
  }
}
