/** The first error that is noted for a text (android/jni/jsoncpp/json_reader.cpp:151-242, 464-637). */
module JsonErrors {
  import opened Basics
  import opened JsonValue
  import opened JsonLexer
  import opened JsonGrammar
  import opened JsonLanguage
  import opened JsonSound

  // ---- What is wrong at a place ------------------------------------------------------------------------

  /** A value is expected at place a, and this is the first thing that is wrong with it. */
  ghost predicate BadValue(config: Config, ts: seq<Token>, a: nat, m: Message)
    requires a <= |ts|
    decreases |ts| - a, 0
  {
    var k := Front(config, ts, a);
    if k == |ts| then m == SyntaxError
    else
      match ts[k].kind
      case ArrayBegin => !(k + 1 < |ts| && ts[k + 1].kind == ArrayEnd) && BadItems(config, ts, k + 1, m)
      case ObjectBegin => BadMembers(config, ts, [], k + 1, m)
      case _ => BadScalar(config, ts[k], m)
  }

  predicate BadScalar(config: Config, token: Token, m: Message) {
    match token.kind
    case Number => !Decodes(config, token) && m == NotANumber
    case StringToken => |token.text| >= 2 && DecodeString(token.text) == Err(m)
    case True => false
    case False => false
    case NullToken => false
    case _ => m == SyntaxError
  }

  /** Items are expected: one of them is wrong, or the text ends behind one. */
  ghost predicate BadItems(config: Config, ts: seq<Token>, a: nat, m: Message)
    requires a <= |ts|
    decreases |ts| - a, 1
  {
    BadValue(config, ts, a, m) || exists i :: a < i <= |ts| && IsValue(config, ts, a, i) && BadBehind(config, ts, i, m)
  }

  ghost predicate BadBehind(config: Config, ts: seq<Token>, i: nat, m: Message)
    requires i <= |ts|
    decreases |ts| - i, 2
  {
    var j := Past(ts, i);
    if j == |ts| then m == SyntaxError else ts[j].kind != ArrayEnd && BadItems(config, ts, j + 1, m)
  }

  /** A name or the end of an object is expected. */
  ghost predicate BadMembers(config: Config, ts: seq<Token>, name: string, a: nat, m: Message)
    requires a <= |ts|
    decreases |ts| - a, 1
  {
    var j := Past(ts, a);
    if j == |ts| then m == MissingObjectEnd
    else if ts[j].kind == ObjectEnd && name == [] then false
    else if ts[j].kind != StringToken then m == MissingObjectEnd
    else if NameOf(ts[j]).None? then |ts[j].text| >= 2 && DecodeString(ts[j].text) == Err(m)
    else BadNamed(config, ts, NameOf(ts[j]).value, j + 1, m)
  }

  /** A colon and a value are expected. */
  ghost predicate BadNamed(config: Config, ts: seq<Token>, name: string, a: nat, m: Message)
    requires a <= |ts|
    decreases |ts| - a, 1
  {
    if a == |ts| || ts[a].kind != MemberSeparator then m == MissingColon
    else
      || BadValue(config, ts, a + 1, m)
      || exists i :: a + 1 < i <= |ts| && IsValue(config, ts, a + 1, i) && BadEnd(config, ts, name, i, m)
  }

  /** A comma or the end is expected; behind a comment anything goes. */
  ghost predicate BadEnd(config: Config, ts: seq<Token>, name: string, i: nat, m: Message)
    requires i <= |ts|
    decreases |ts| - i, 2
  {
    var j := Past(ts, i);
    if j == |ts| then m == if j == i then MissingMemberEnd else MissingObjectEnd
    else if ts[j].kind == ObjectEnd then false
    else if j == i && ts[j].kind != ArraySeparator then m == MissingMemberEnd
    else BadMembers(config, ts, name, j + 1, m)
  }

  // ---- What the operations note ------------------------------------------------------------------------

  /** The operation has failed, and this is the first error that it has added. */
  predicate Notes(o: Outcome, errors: Errors, m: Message) {
    !o.ok && |o.errors| > |errors| && o.errors[|errors|] == m
  }

  lemma NumberError(config: Config, text: string)
    requires text != []
    ensures var r := DecodeNumber(config.toDouble, text); r.Err? ==> r == Err(NotANumber)
  {
    hide LooksDouble, ReadDigits;
  }

  lemma TokenNotes(config: Config, u: string, previous: Value, errors: Errors, m: Message)
    requires NextToken(config, u).token.kind !in {ArrayBegin, ObjectBegin}
    ensures Notes(ReadValue(config, u, previous, errors), errors, m)
            <==> BadScalar(config, NextToken(config, u).token, m)
  {
    hide NextToken, ReadArray, ReadMembers, DecodeNumber, DecodeString, UpToNul;
    TokenTexts(config, u);
    if NextToken(config, u).token.kind == Number {
      NumberError(config, NextToken(config, u).token.text);
    }
  }

  lemma ScalarNotes(config: Config, t: string, a: nat, previous: Value, errors: Errors, m: Message)
    requires a <= |Lex(t)|
    requires var k := Front(config, Lex(t), a); k < |Lex(t)| ==> Lex(t)[k].kind !in {ArrayBegin, ObjectBegin}
    ensures Notes(ReadValue(config, Behind(t, a), previous, errors), errors, m) <==> BadValue(config, Lex(t), a, m)
  {
    hide ReadToken, Behind, Lex, ReadValue, NextToken, Front, Decodes;
    FrontToken(config, t, a);
    TokenAt(t, Front(config, Lex(t), a));
    TokenNotes(config, Behind(t, a), previous, errors, m);
  }

  lemma {:induction false} BehindShrinks(t: string, i: nat, j: nat)
    requires i < j <= |Lex(t)|
    ensures |Behind(t, j)| < |Behind(t, i)|
    decreases j
  {
    hide Lex, Behind;
    TokenAt(t, j - 1);
    if i < j - 1 {
      BehindShrinks(t, i, j - 1);
    }
  }

  /** A value that has been read ends at one place. */
  lemma OneEnd(config: Config, t: string, a: nat, i: nat, j: nat)
    requires a <= |Lex(t)| && i <= |Lex(t)| && j <= |Lex(t)|
    requires IsValue(config, Lex(t), a, i) && IsValue(config, Lex(t), a, j)
    ensures i == j
  {
    hide Lex, Behind, IsValue, ReadValue;
    ValueOf(config, t, a, i, Null, []);
    ValueOf(config, t, a, j, Null, []);
    if i < j { BehindShrinks(t, i, j); }
    if j < i { BehindShrinks(t, j, i); }
  }

  lemma ArrayBegins(config: Config, t: string, a: nat, previous: Value, errors: Errors, m: Message)
    requires a <= |Lex(t)|
    requires var k := Front(config, Lex(t), a); k < |Lex(t)| && Lex(t)[k].kind == ArrayBegin
    ensures var ts, k, o := Lex(t), Front(config, Lex(t), a), ReadValue(config, Behind(t, a), previous, errors);
            if k + 1 < |ts| && ts[k + 1].kind == ArrayEnd then o.ok && !BadValue(config, ts, a, m)
            else
              && o == ReadItems(config, Behind(t, k + 1), [], errors)
              && (BadValue(config, ts, a, m) <==> BadItems(config, ts, k + 1, m))
  {
    hide Behind, Lex, ReadValue, ReadArray, ReadItems, BadItems, Front;
    ValueAt(config, t, a, previous, errors);
    ArrayAt(config, t, Front(config, Lex(t), a) + 1, errors);
  }

  lemma ObjectBegins(config: Config, t: string, a: nat, previous: Value, errors: Errors, m: Message)
    requires a <= |Lex(t)|
    requires var k := Front(config, Lex(t), a); k < |Lex(t)| && Lex(t)[k].kind == ObjectBegin
    ensures var ts, k, o := Lex(t), Front(config, Lex(t), a), ReadValue(config, Behind(t, a), previous, errors);
            && o == ReadMembers(config, Behind(t, k + 1), [], [], errors)
            && (BadValue(config, ts, a, m) <==> BadMembers(config, ts, [], k + 1, m))
  {
    hide Behind, Lex, ReadValue, ReadMembers, BadMembers, Front;
    ValueAt(config, t, a, previous, errors);
  }

  lemma {:induction false} ValueNotes(config: Config, t: string, a: nat, previous: Value, errors: Errors, m: Message)
    requires a <= |Lex(t)|
    ensures Notes(ReadValue(config, Behind(t, a), previous, errors), errors, m) <==> BadValue(config, Lex(t), a, m)
    decreases |Lex(t)| - a, 0
  {
    hide Behind, Lex, ReadValue, ReadItems, ReadMembers, BadItems, BadMembers, BadValue, Front;
    var ts, k := Lex(t), Front(config, Lex(t), a);
    if k < |ts| && ts[k].kind == ArrayBegin {
      ArrayBegins(config, t, a, previous, errors, m);
      if !(k + 1 < |ts| && ts[k + 1].kind == ArrayEnd) {
        ItemsNote(config, t, k + 1, [], errors, m);
      }
    } else if k < |ts| && ts[k].kind == ObjectBegin {
      ObjectBegins(config, t, a, previous, errors, m);
      MembersNote(config, t, [], k + 1, [], errors, m);
    } else {
      ScalarNotes(config, t, a, previous, errors, m);
    }
  }

  /** A failing item makes the array fail; at the end of the text there is one. */
  lemma ItemsFail(config: Config, t: string, items: seq<Entry>, errors: Errors)
    ensures var child := ReadValue(config, t, At(items, Index(|items|)), errors);
            !child.ok ==> var o := ReadItems(config, t, items, errors); !o.ok && o.errors == child.errors
    ensures Notes(ReadItems(config, [], items, errors), errors, SyntaxError)
  {
    hide Recover, Put, At;
  }

  lemma {:induction false} ItemsNote(config: Config, t: string, a: nat, items: seq<Entry>, errors: Errors, m: Message)
    requires a <= |Lex(t)|
    ensures Notes(ReadItems(config, Behind(t, a), items, errors), errors, m) <==> BadItems(config, Lex(t), a, m)
    decreases |Lex(t)| - a, 1
  {
    hide Behind, Lex, ReadValue, ReadItems, IsValue, BadValue, At, Put;
    var ts, previous := Lex(t), At(items, Index(|items|));
    var child := ReadValue(config, Behind(t, a), previous, errors);
    ValueNotes(config, t, a, previous, errors, m);
    ValueIsHonest(config, Behind(t, a), previous, errors);
    ItemsFail(config, Behind(t, a), items, errors);
    if !child.ok {
      forall i | a < i <= |ts|
        ensures !IsValue(config, ts, a, i)
      {
        if IsValue(config, ts, a, i) { ValueOf(config, t, a, i, previous, errors); }
      }
    } else {
      var i := ValueIn(config, t, a, previous, errors);
      BehindNotes(config, t, a, i, items, errors, m);
      forall i' | a < i' <= |ts| && IsValue(config, ts, a, i')
        ensures i' == i
      {
        OneEnd(config, t, a, i, i');
      }
    }
  }

  /** Behind an item that has been read. */
  lemma BehindItem(config: Config, t: string, a: nat, i: nat, items: seq<Entry>, errors: Errors)
    requires a <= |Lex(t)| && i <= |Lex(t)|
    requires var child := ReadValue(config, Behind(t, a), At(items, Index(|items|)), errors);
             child.ok && child.rest == Behind(t, i)
    ensures var child := ReadValue(config, Behind(t, a), At(items, Index(|items|)), errors);
            var o, ts, j := ReadItems(config, Behind(t, a), items, errors), Lex(t), Past(Lex(t), i);
            var grown := Put(items, Index(|items|), child.value);
            if j == |ts| then o == ReadItems(config, [], grown, child.errors)
            else if ts[j].kind == ArrayEnd then o.ok
            else o == ReadItems(config, Behind(t, j + 1), grown, child.errors)
  {
    hide ReadToken, Behind, Lex, ReadValue, SkipComments, Recover, Put, At;
    CommentsPassed(t, i);
    TokenAt(t, Past(Lex(t), i));
  }

  lemma {:induction false} BehindNotes(config: Config, t: string, a: nat, i: nat, items: seq<Entry>, errors: Errors,
      m: Message)
    requires a < i <= |Lex(t)|
    requires var child := ReadValue(config, Behind(t, a), At(items, Index(|items|)), errors);
             child.ok && child.rest == Behind(t, i)
    ensures Notes(ReadItems(config, Behind(t, a), items, errors), errors, m) <==> BadBehind(config, Lex(t), i, m)
    decreases |Lex(t)| - i, 2
  {
    hide Behind, Lex, ReadValue, ReadItems, BadItems, At, Put;
    var previous, j := At(items, Index(|items|)), Past(Lex(t), i);
    var child := ReadValue(config, Behind(t, a), previous, errors);
    ValueIsHonest(config, Behind(t, a), previous, errors);
    BehindItem(config, t, a, i, items, errors);
    var grown := Put(items, Index(|items|), child.value);
    if j == |Lex(t)| {
      ItemsFail(config, t, grown, errors);
    } else if Lex(t)[j].kind != ArrayEnd {
      ItemsNote(config, t, j + 1, grown, errors, m);
    }
  }

  /** At the name of a member or the end. */
  lemma MembersFail(config: Config, t: string, name: string, a: nat, members: seq<Entry>, errors: Errors, m: Message)
    requires a <= |Lex(t)|
    requires var ts, j := Lex(t), Past(Lex(t), a);
             j == |ts| || ts[j].kind != StringToken || NameOf(ts[j]).None?
    ensures Notes(ReadMembers(config, Behind(t, a), members, name, errors), errors, m)
            <==> BadMembers(config, Lex(t), name, a, m)
  {
    hide ReadToken, Behind, Lex, NamedMember, SkipComments, Recover, DecodeString;
    CommentsPassed(t, a);
    TokenAt(t, Past(Lex(t), a));
    CommentsTexts(Behind(t, a));
  }

  lemma {:induction false} MembersNote(config: Config, t: string, name: string, a: nat, members: seq<Entry>,
      errors: Errors, m: Message)
    requires a <= |Lex(t)|
    ensures Notes(ReadMembers(config, Behind(t, a), members, name, errors), errors, m)
            <==> BadMembers(config, Lex(t), name, a, m)
    decreases |Lex(t)| - a, 1
  {
    hide Behind, Lex, ReadMembers, NamedMember, NameOf, BadNamed;
    var ts, j := Lex(t), Past(Lex(t), a);
    if j == |ts| || ts[j].kind != StringToken || NameOf(ts[j]).None? {
      MembersFail(config, t, name, a, members, errors, m);
    } else {
      MembersAt(config, t, name, a, members, errors);
      NamedNotes(config, t, NameOf(ts[j]).value, j + 1, members, errors, m);
    }
  }

  /** The colon and the value of a member. */
  lemma NamedGoes(config: Config, t: string, name: string, a: nat, members: seq<Entry>, errors: Errors)
    requires a <= |Lex(t)|
    ensures var o, ts, key := NamedMember(config, Behind(t, a), members, name, errors), Lex(t), Name(UpToNul(name));
            if a == |ts| || ts[a].kind != MemberSeparator then !o.ok && o.errors == errors + [MissingColon]
            else
              var child := ReadValue(config, Behind(t, a + 1), At(members, key), errors);
              if !child.ok then !o.ok && o.errors == child.errors
              else o == EndMember(config, child.rest, Put(members, key, child.value), name, child.errors)
  {
    hide ReadToken, Behind, Lex, ReadValue, EndMember, Recover, Put, At, UpToNul;
    TokenAt(t, a);
  }

  lemma {:induction false} NamedNotes(config: Config, t: string, name: string, a: nat, members: seq<Entry>,
      errors: Errors, m: Message)
    requires a <= |Lex(t)|
    ensures Notes(NamedMember(config, Behind(t, a), members, name, errors), errors, m)
            <==> BadNamed(config, Lex(t), name, a, m)
    decreases |Lex(t)| - a, 1
  {
    hide Behind, Lex, ReadValue, NamedMember, EndMember, IsValue, BadValue, BadEnd, At, Put, UpToNul;
    var ts, key, first := Lex(t), Name(UpToNul(name)), a + 1;
    var previous := At(members, key);
    NamedGoes(config, t, name, a, members, errors);
    if a < |ts| && ts[a].kind == MemberSeparator {
      var child := ReadValue(config, Behind(t, a + 1), previous, errors);
      ValueNotes(config, t, a + 1, previous, errors, m);
      ValueIsHonest(config, Behind(t, a + 1), previous, errors);
      if !child.ok {
        forall i | first < i <= |ts|
          ensures !IsValue(config, ts, first, i)
        {
          if IsValue(config, ts, first, i) { ValueOf(config, t, first, i, previous, errors); }
        }
      } else {
        var i := ValueIn(config, t, a + 1, previous, errors);
        EndNotes(config, t, name, i, Put(members, key, child.value), errors, m);
        forall i' | first < i' <= |ts| && IsValue(config, ts, first, i')
          ensures i' == i
        {
          OneEnd(config, t, first, i, i');
        }
      }
    }
  }

  /** Behind a member at the end of the text, or in front of a wrong token. */
  lemma EndFails(config: Config, t: string, name: string, i: nat, members: seq<Entry>, errors: Errors, m: Message)
    requires i <= |Lex(t)|
    requires var ts, j := Lex(t), Past(Lex(t), i);
             j == |ts| || (j == i && ts[j].kind !in {ObjectEnd, ArraySeparator})
    ensures Notes(EndMember(config, Behind(t, i), members, name, errors), errors, m)
            <==> BadEnd(config, Lex(t), name, i, m)
  {
    hide ReadToken, Behind, Lex, ReadMembers, SkipComments, Recover;
    TokenAt(t, i);
    TokenAt(t, Past(Lex(t), i));
    if i < |Lex(t)| && Lex(t)[i].kind == Comment {
      CommentsPassed(t, i + 1);
    }
    NothingIsNoMember(config, members, name, errors);
  }

  lemma NothingIsNoMember(config: Config, members: seq<Entry>, name: string, errors: Errors)
    ensures Notes(ReadMembers(config, [], members, name, errors), errors, MissingObjectEnd)
  {
  }

  lemma {:induction false} EndNotes(config: Config, t: string, name: string, i: nat, members: seq<Entry>,
      errors: Errors, m: Message)
    requires i <= |Lex(t)|
    ensures Notes(EndMember(config, Behind(t, i), members, name, errors), errors, m)
            <==> BadEnd(config, Lex(t), name, i, m)
    decreases |Lex(t)| - i, 2
  {
    hide Behind, Lex, EndMember, ReadMembers, BadMembers;
    var ts, j := Lex(t), Past(Lex(t), i);
    if j == |ts| || (j == i && ts[j].kind !in {ObjectEnd, ArraySeparator}) {
      EndFails(config, t, name, i, members, errors, m);
    } else {
      EndAt(config, t, name, i, members, errors);
      if ts[j].kind != ObjectEnd {
        MembersNote(config, t, name, j + 1, members, errors, m);
      }
    }
  }

  /** One error is noted for a text that is refused: what is first wrong with its tokens, or, for a value that is right,
      that the strict mode does not take it for a root. */
  lemma ErrorIff(config: Config, t: string, root: Value, m: Message)
    ensures var errors, ts := Parse(config, t, root).errors, Lex(t);
            var k := Front(config, ts, 0);
            errors != [] && errors[0] == m
            <==> BadValue(config, ts, 0, m)
                 || (m == RootNotStructured && config.strictRoot && (exists b :: IsValue(config, ts, 0, b))
                     && k < |ts| && ts[k].kind !in {NullToken, ArrayBegin, ObjectBegin})
    ensures |Parse(config, t, root).errors| <= if config.strictRoot then 2 else 1
  {
    hide Lex, ReadValue, BadValue, IsValue, Front;
    assert Behind(t, 0) == t;
    ValueNotes(config, t, 0, root, [], m);
    ValueIsHonest(config, t, root, []);
    if ReadValue(config, t, root, []).ok {
      var b := ValueIn(config, t, 0, root, []);
      RootKind(config, t, root);
    }
    if b :| IsValue(config, Lex(t), 0, b) {
      ValueOf(config, t, 0, b, root, []);
    }
  }

  /** Strings have errors of their own. */
  lemma {:induction false} DecodeMessages(t: string)
    ensures Decode(t) != Err(MissingArrayEnd)
    decreases |t|
  {
    hide Utf8, HexEscape;
    if t != [] && t[0] != '"' {
      if t[0] != '\\' {
        DecodeMessages(t[1..]);
      } else if |t| > 1 && t[1] == 'u' {
        CodePointMessages(t[2..]);
        if CodePoint(t[2..]).Ok? { DecodeMessages(CodePoint(t[2..]).value.1); }
      } else if |t| > 1 {
        DecodeMessages(t[2..]);
      }
    }
  }

  lemma CodePointMessages(t: string)
    ensures CodePoint(t) != Err(MissingArrayEnd)
  {
    HexMessages(t);
    if |t| >= 10 {
      HexMessages(t[4..][2..]);
    }
  }

  lemma HexMessages(t: string)
    ensures HexEscape(t) != Err(MissingArrayEnd)
  {
    if |t| >= 4 {
      DigitMessages(t[..4], 0);
    }
  }

  lemma {:induction false} DigitMessages(digits: string, before: nat)
    ensures HexDigits(digits, before) != Err(MissingArrayEnd)
  {
    if digits != [] && HexValue(digits[0]).Some? {
      DigitMessages(digits[1..], before * 16 + HexValue(digits[0]).value);
    }
  }

  lemma NameMessages(token: Token)
    requires |token.text| >= 2
    ensures DecodeString(token.text) != Err(MissingArrayEnd)
  {
    DecodeMessages(token.text[1..|token.text| - 1]);
  }

  /** The message about a missing comma or closing bracket in an array is never used. */
  lemma {:induction false} NoMissingArrayEnd(config: Config, ts: seq<Token>, a: nat)
    requires a <= |ts|
    ensures !BadValue(config, ts, a, MissingArrayEnd)
    decreases |ts| - a, 0
  {
    hide IsValue, Decodes, DecodeString;
    var k := Front(config, ts, a);
    if k < |ts| {
      if |ts[k].text| >= 2 { NameMessages(ts[k]); }
      if ts[k].kind == ArrayBegin { NoMissingInItems(config, ts, k + 1); }
      if ts[k].kind == ObjectBegin { NoMissingInMembers(config, ts, [], k + 1); }
    }
  }

  lemma {:induction false} NoMissingInItems(config: Config, ts: seq<Token>, a: nat)
    requires a <= |ts|
    ensures !BadItems(config, ts, a, MissingArrayEnd)
    decreases |ts| - a, 1
  {
    hide IsValue, BadValue;
    NoMissingArrayEnd(config, ts, a);
    forall i | a < i <= |ts|
      ensures !BadBehind(config, ts, i, MissingArrayEnd)
    {
      var j := Past(ts, i);
      if j < |ts| { NoMissingInItems(config, ts, j + 1); }
    }
  }

  lemma {:induction false} NoMissingInMembers(config: Config, ts: seq<Token>, name: string, a: nat)
    requires a <= |ts|
    ensures !BadMembers(config, ts, name, a, MissingArrayEnd)
    decreases |ts| - a, 1
  {
    hide BadNamed, DecodeString;
    var j := Past(ts, a);
    if j < |ts| {
      if |ts[j].text| >= 2 { NameMessages(ts[j]); }
      if NameOf(ts[j]).Some? { NoMissingInNamed(config, ts, NameOf(ts[j]).value, j + 1); }
    }
  }

  lemma {:induction false} NoMissingInNamed(config: Config, ts: seq<Token>, name: string, a: nat)
    requires a <= |ts|
    ensures !BadNamed(config, ts, name, a, MissingArrayEnd)
    decreases |ts| - a, 1
  {
    hide IsValue, BadValue, BadMembers;
    if a < |ts| {
      NoMissingArrayEnd(config, ts, a + 1);
      forall i | a + 1 < i <= |ts|
        ensures !BadEnd(config, ts, name, i, MissingArrayEnd)
      {
        var e := Past(ts, i);
        if e < |ts| { NoMissingInMembers(config, ts, name, e + 1); }
      }
    }
  }

  // ---- What a failed parse leaves ----------------------------------------------------------------------

  /** A token that is no value leaves the place as it was. */
  lemma FailedScalar(config: Config, t: string, previous: Value, errors: Errors)
    requires NextToken(config, t).token.kind !in {ArrayBegin, ObjectBegin} && !ReadValue(config, t, previous, errors).ok
    ensures ReadValue(config, t, previous, errors).value == previous
  {
    hide NextToken, DecodeNumber, DecodeString;
    TokenTexts(config, t);
  }

  /** The items in front of an error stay, and the item with the error is there as far as it was read. */
  lemma {:induction false} ItemsStay(config: Config, t: string, items: seq<Entry>, errors: Errors)
    requires Dense(items)
    ensures var v := ReadItems(config, t, items, errors).value;
            v.Arr? && Dense(v.items) && |v.items| > |items| && v.items[..|items|] == items
    ensures var child := ReadValue(config, t, Null, errors);
            !child.ok ==> ReadItems(config, t, items, errors).value == Arr(items + [Entry(Index(|items|), child.value)])
    decreases |t|
  {
    hide ReadValue, Recover, Put, At, SkipComments, Dense;
    PutAtEnd(items, ReadValue(config, t, Null, errors).value);
    var child := ReadValue(config, t, Null, errors);
    if child.ok && SkipComments(child.rest).token.kind != ArrayEnd {
      ItemsStay(config, SkipComments(child.rest).rest, items + [Entry(Index(|items|), child.value)], child.errors);
    }
  }

  lemma PutAtEnd(items: seq<Entry>, value: Value)
    requires Dense(items)
    ensures At(items, Index(|items|)) == Null
    ensures Put(items, Index(|items|), value) == items + [Entry(Index(|items|), value)]
    ensures Dense(items + [Entry(Index(|items|), value)])
    ensures (items + [Entry(Index(|items|), value)])[..|items|] == items
  {
    IndicesBelow(items, |items|);
  }

  /** The members in front of an error stay, and the member with the error is there as far as it was read. */
  lemma MemberStays(config: Config, t: string, members: seq<Entry>, name: string, errors: Errors)
    requires ReadToken(t).token.kind == MemberSeparator
    ensures var key := Name(UpToNul(name));
            var child := ReadValue(config, ReadToken(t).rest, At(members, key), errors);
            !child.ok ==> NamedMember(config, t, members, name, errors).value == Obj(Put(members, key, child.value))
  {
    hide ReadValue, Recover, EndMember;
  }
}
