/** Comments: where they end, and that they may stand nearly everywhere
    (android/jni/jsoncpp/json_reader.cpp:245-262, 376-449, 464-578). */
module JsonComments {
  import opened Basics
  import opened JsonValue
  import opened JsonLexer
  import opened JsonGrammar
  import opened JsonLanguage

  // ---- Where a comment ends ----------------------------------------------------------------------------

  /** A star and a slash stand at place k. */
  predicate StarSlashAt(t: string, k: nat) {
    k + 1 < |t| && t[k] == '*' && t[k + 1] == '/'
  }

  /** The first star and slash stand at place k. */
  predicate FirstStarSlash(t: string, k: nat) {
    StarSlashAt(t, k) && forall i: nat :: i < k ==> !StarSlashAt(t, i)
  }

  /** A block comment ends behind the first star and slash, and without them it is an error at the end. */
  lemma {:induction false} BlockCommentEnds(t: string)
    ensures forall k: nat :: FirstStarSlash(t, k) ==> ScanBlockComment(t) == Scan(true, t[k + 2..])
    ensures (forall k: nat :: !StarSlashAt(t, k)) ==> ScanBlockComment(t) == Scan(false, [])
    ensures ScanBlockComment(t).ok <==> exists k: nat :: StarSlashAt(t, k)
    decreases |t|
  {
    if StarSlashAt(t, 0) {
      assert forall k: nat :: FirstStarSlash(t, k) ==> k == 0;
    } else if t != [] {
      BlockCommentEnds(t[1..]);
      assert forall k: nat :: k > 0 ==> (StarSlashAt(t, k) <==> StarSlashAt(t[1..], k - 1));
      assert forall k: nat :: StarSlashAt(t[1..], k) ==> StarSlashAt(t, k + 1);
      forall k: nat | FirstStarSlash(t, k)
        ensures ScanBlockComment(t) == Scan(true, t[k + 2..])
      {
        assert FirstStarSlash(t[1..], k - 1) by {
          assert forall i: nat :: StarSlashAt(t[1..], i) ==> StarSlashAt(t, i + 1);
        }
        assert t[1..][k + 1..] == t[k + 2..];
      }
    }
  }

  predicate IsBreak(c: char) {
    c == '\r' || c == '\n'
  }

  /** A line comment ends behind the first line break, or at the end. */
  lemma {:induction false} LineCommentEnds(t: string)
    ensures ScanLineComment(t).ok
    ensures forall k: nat :: k < |t| && IsBreak(t[k]) && (forall i :: 0 <= i < k ==> !IsBreak(t[i]))
              ==> ScanLineComment(t).rest == t[k + 1..]
    ensures (forall c :: c in t ==> !IsBreak(c)) ==> ScanLineComment(t).rest == []
    decreases |t|
  {
    if t != [] && !IsBreak(t[0]) {
      LineCommentEnds(t[1..]);
      forall k: nat | k < |t| && IsBreak(t[k]) && (forall i :: 0 <= i < k ==> !IsBreak(t[i]))
        ensures ScanLineComment(t).rest == t[k + 1..]
      {
        assert t[1..][k - 1] == t[k] && forall i :: 0 <= i < k - 1 ==> t[1..][i] == t[i + 1];
        assert t[1..][k..] == t[k + 1..];
      }
      assert forall c :: c in t[1..] ==> c in t;
    }
  }

  /** The texts of comments: no early end, and a line comment has its line break. */
  predicate IsBlockBody(body: string) {
    forall i: nat :: i < |body| ==> !StarSlashAt(body + "*/", i)
  }

  predicate IsLineBody(body: string) {
    forall c :: c in body ==> !IsBreak(c)
  }

  lemma LexBlockComment(body: string, rest: string)
    requires IsBlockBody(body)
    ensures ReadToken("/*" + body + "*/" + rest) == Lexed(Token(Comment, "/*" + body + "*/"), rest)
  {
    var t := body + "*/" + rest;
    BlockCommentEnds(t);
    assert FirstStarSlash(t, |body|) by {
      assert forall i: nat :: i < |body| ==> (StarSlashAt(t, i) <==> StarSlashAt(body + "*/", i));
    }
    assert t[|body| + 2..] == rest;
    CommentToken("/*" + body + "*/", rest, t);
  }

  lemma LexLineComment(body: string, end: string, rest: string)
    requires IsLineBody(body) && |end| == 1 && IsBreak(end[0])
    ensures ReadToken("//" + body + end + rest) == Lexed(Token(Comment, "//" + body + end), rest)
  {
    var t := body + end + rest;
    LineCommentEnds(t);
    assert t[|body|] == end[0] && forall i :: 0 <= i < |body| ==> t[i] == body[i];
    assert t[|body| + 1..] == rest;
    CommentToken("//" + body + end, rest, t);
  }

  /** What `readComment` finds behind the slash is the token. */
  lemma CommentToken(text: string, rest: string, t: string)
    requires |text| >= 2 && text[0] == '/' && text[2..] + rest == t
    requires text[1] == '*' ==> ScanBlockComment(t) == Scan(true, rest)
    requires text[1] == '/' ==> ScanLineComment(t) == Scan(true, rest)
    requires text[1] in {'*', '/'}
    ensures ReadToken(text + rest) == Lexed(Token(Comment, text), rest)
  {
    hide ScanBlockComment, ScanLineComment, ScanString, SkipNumber;
    var s := text + rest;
    assert s[1..][1..] == t;
    assert s[..|s| - |rest|] == text;
  }

  // ---- Where comments may stand ------------------------------------------------------------------------

  /** Between these two tokens a comment changes nothing: not in front of a colon, and not inside `[]`. */
  predicate MayStand(previous: Kind, ts: seq<Token>) {
    ts == [] || (ts[0].kind != MemberSeparator && !(previous == ArrayBegin && ts[0].kind == ArrayEnd))
  }

  /** The second list is the first one, behind a token of some kind, with comments put in where they may stand. */
  predicate Commented(previous: Kind, ts: seq<Token>, us: seq<Token>)
    decreases |us|
  {
    if us == [] then ts == []
    else
      || (ts != [] && us[0] == ts[0] && Commented(ts[0].kind, ts[1..], us[1..]))
      || (us[0].kind == Comment && MayStand(previous, ts) && Commented(previous, ts, us[1..]))
  }

  lemma LexStep(t: string)
    ensures if SkipSpaces(t) == [] then Lex(t) == [] && ReadToken(t) == Lexed(Token(EndOfStream, []), [])
            else Lex(t) == [ReadToken(t).token] + Lex(ReadToken(t).rest) && |ReadToken(t).rest| < |t|
    ensures Lex([]) == []
  {
    hide ReadToken;
    if SkipSpaces(t) == [] { NothingLeft(t); } else { TokenMoves(t); }
  }

  /** Where no comment may stand both texts go on with the same token. */
  lemma SameToken(previous: Kind, t: string, u: string)
    requires Commented(previous, Lex(t), Lex(u)) && !MayStand(previous, Lex(t))
    ensures ReadToken(u).token == ReadToken(t).token
    ensures Commented(ReadToken(t).token.kind, Lex(ReadToken(t).rest), Lex(ReadToken(u).rest))
  {
    hide ReadToken, Lex, SkipSpaces;
    LexStep(t);
    LexStep(u);
  }

  /** Behind the comments both texts go on with the same token. */
  lemma {:induction false} SameBehindComments(previous: Kind, t: string, u: string)
    requires Commented(previous, Lex(t), Lex(u))
    ensures SkipComments(u).token == SkipComments(t).token
    ensures Commented(SkipComments(t).token.kind, Lex(SkipComments(t).rest), Lex(SkipComments(u).rest))
    decreases |t| + |u|
  {
    hide ReadToken, Lex, SkipSpaces;
    LexStep(t);
    LexStep(u);
    var ts, us := Lex(t), Lex(u);
    if us != [] {
      if ts != [] && us[0] == ts[0] && Commented(ts[0].kind, ts[1..], us[1..]) {
        if us[0].kind == Comment {
          SameBehindComments(Comment, ReadToken(t).rest, ReadToken(u).rest);
        }
      } else {
        SameBehindComments(previous, t, ReadToken(u).rest);
      }
    }
  }

  /** What stands in `u` where `t` has no comment is that token or a comment. */
  lemma NextOfCommented(previous: Kind, t: string, u: string)
    requires Commented(previous, Lex(t), Lex(u))
    ensures ReadToken(u).token.kind == Comment || ReadToken(u).token == ReadToken(t).token
  {
    hide ReadToken, Lex, SkipSpaces;
    LexStep(t);
    LexStep(u);
  }

  /** Both operations have succeeded, with the same value, and go on alike. */
  ghost predicate Alike(o: Outcome, o': Outcome, previous: Kind) {
    && o.ok && o'.ok && o.value == o'.value && o.errors == o'.errors
    && Commented(previous, Lex(o.rest), Lex(o'.rest))
  }

  lemma {:induction false} ValuesAlike(config: Config, before: Kind, t: string, u: string, previous: Value,
      errors: Errors)
    returns (after: Kind)
    requires config.allowComments && Commented(before, Lex(t), Lex(u)) && ReadValue(config, t, previous, errors).ok
    ensures Alike(ReadValue(config, t, previous, errors), ReadValue(config, u, previous, errors), after)
    decreases |t|, 0
  {
    hide SkipComments, Lex, ReadArray, ReadMembers, DecodeNumber, StringValue;
    SameBehindComments(before, t, u);
    TokenTexts(config, t);
    TokenTexts(config, u);
    var next, next' := SkipComments(t), SkipComments(u);
    after := next.token.kind;
    if after == ArrayBegin {
      after := ArraysAlike(config, next.rest, next'.rest, errors);
    } else if after == ObjectBegin {
      after := MembersAlike(config, after, next.rest, next'.rest, [], [], errors);
    }
  }

  lemma {:induction false} ArraysAlike(config: Config, t: string, u: string, errors: Errors) returns (after: Kind)
    requires config.allowComments && Commented(ArrayBegin, Lex(t), Lex(u)) && ReadArray(config, t, errors).ok
    ensures Alike(ReadArray(config, t, errors), ReadArray(config, u, errors), after)
    decreases |t|, 2
  {
    hide Lex, ReadItems, ReadToken, SkipSpaces, Commented;
    ClosesNow(t);
    ClosesNow(u);
    NextOfCommented(ArrayBegin, t, u);
    SpacesBefore(config, t, errors);
    SpacesBefore(config, u, errors);
    after := ArrayEnd;
    if ReadToken(t).token.kind == ArrayEnd {
      LexStep(t);
      SameToken(ArrayBegin, t, u);
    } else {
      after := ItemsAlike(config, ArrayBegin, t, u, [], errors);
    }
  }

  lemma {:induction false} ItemsAlike(config: Config, before: Kind, t: string, u: string, items: seq<Entry>,
      errors: Errors)
    returns (after: Kind)
    requires config.allowComments && Commented(before, Lex(t), Lex(u)) && ReadItems(config, t, items, errors).ok
    ensures Alike(ReadItems(config, t, items, errors), ReadItems(config, u, items, errors), after)
    decreases |t|, 1
  {
    hide Lex, ReadValue, SkipComments, Commented, Put, At, Recover;
    var previous := At(items, Index(|items|));
    after := ValuesAlike(config, before, t, u, previous, errors);
    var child, child' := ReadValue(config, t, previous, errors), ReadValue(config, u, previous, errors);
    SameBehindComments(after, child.rest, child'.rest);
    after := SkipComments(child.rest).token.kind;
    if after != ArrayEnd {
      after := ItemsAlike(config, after, SkipComments(child.rest).rest, SkipComments(child'.rest).rest,
        Put(items, Index(|items|), child.value), child.errors);
    }
  }

  lemma {:induction false} MembersAlike(config: Config, before: Kind, t: string, u: string, members: seq<Entry>,
      name: string, errors: Errors)
    returns (after: Kind)
    requires config.allowComments && Commented(before, Lex(t), Lex(u))
    requires ReadMembers(config, t, members, name, errors).ok
    ensures Alike(ReadMembers(config, t, members, name, errors), ReadMembers(config, u, members, name, errors), after)
    decreases |t|, 1
  {
    hide Lex, SkipComments, Commented, NamedMember, Recover, DecodeString;
    SameBehindComments(before, t, u);
    CommentsTexts(t);
    CommentsTexts(u);
    var next, next' := SkipComments(t), SkipComments(u);
    after := next.token.kind;
    if !(after == ObjectEnd && name == []) {
      var newName := DecodeString(next.token.text).value;
      after := NamedAlike(config, next.rest, next'.rest, members, newName, errors);
    }
  }

  lemma {:induction false} NamedAlike(config: Config, t: string, u: string, members: seq<Entry>, name: string,
      errors: Errors)
    returns (after: Kind)
    requires config.allowComments && Commented(StringToken, Lex(t), Lex(u))
    requires NamedMember(config, t, members, name, errors).ok
    ensures Alike(NamedMember(config, t, members, name, errors), NamedMember(config, u, members, name, errors), after)
    decreases |t|, 1
  {
    hide Lex, ReadToken, SkipSpaces, Commented, ReadValue, EndMember, Put, At, Recover, UpToNul;
    LexStep(t);
    SameToken(StringToken, t, u);
    var colon, colon', key := ReadToken(t), ReadToken(u), Name(UpToNul(name));
    var previous := At(members, key);
    after := ValuesAlike(config, MemberSeparator, colon.rest, colon'.rest, previous, errors);
    var child := ReadValue(config, colon.rest, previous, errors);
    var child' := ReadValue(config, colon'.rest, previous, errors);
    after := EndsAlike(config, after, child.rest, child'.rest, Put(members, key, child.value), name, child.errors);
  }

  lemma {:induction false} EndsAlike(config: Config, before: Kind, t: string, u: string, members: seq<Entry>,
      name: string, errors: Errors)
    returns (after: Kind)
    requires config.allowComments && Commented(before, Lex(t), Lex(u))
    requires EndMember(config, t, members, name, errors).ok
    ensures Alike(EndMember(config, t, members, name, errors), EndMember(config, u, members, name, errors), after)
    decreases |t|, 2
  {
    hide Lex, ReadToken, Commented, ReadMembers, Recover;
    NextOfCommented(before, t, u);
    SameBehindComments(before, t, u);
    var last, last' := SkipComments(t), SkipComments(u);
    after := last.token.kind;
    if after != ObjectEnd {
      after := MembersAlike(config, after, last.rest, last'.rest, members, name, errors);
    }
  }

  /** Comments that are put into an accepted text, nowhere in front of a colon and not inside `[]`, do not change what
      is read. */
  lemma CommentsChangeNothing(config: Config, t: string, u: string, root: Value)
    requires config.allowComments && Commented(EndOfStream, Lex(t), Lex(u)) && Parse(config, t, root).ok
    ensures Parse(config, u, root) == Parse(config, t, root)
  {
    hide Lex, ReadValue, Commented;
    var after := ValuesAlike(config, EndOfStream, t, u, root, []);
  }

  // ---- Where they do change something ------------------------------------------------------------------

  /** A comment between a name and its colon is refused. */
  lemma CommentBeforeColon(config: Config, ts: seq<Token>, name: string, a: nat, b: nat)
    requires a <= |ts| && Past(ts, a) + 1 < |ts|
    requires ts[Past(ts, a)].kind == StringToken && ts[Past(ts, a) + 1].kind == Comment
    ensures !IsMembers(config, ts, name, a, b)
  {
  }

  /** So is a comment between two brackets. */
  lemma CommentInBrackets(config: Config, ts: seq<Token>, a: nat, b: nat)
    requires a <= |ts| && Front(config, ts, a) + 1 < |ts| && ts[Front(config, ts, a)].kind == ArrayBegin
    requires var k := Front(config, ts, a) + 1;
             ts[k].kind == Comment && Past(ts, k) < |ts| && ts[Past(ts, k)].kind == ArrayEnd
    ensures !IsValue(config, ts, a, b)
  {
    NoItems(config, ts, Front(config, ts, a) + 1, b);
  }

  lemma NoItems(config: Config, ts: seq<Token>, a: nat, b: nat)
    requires a < |ts| && ts[a].kind == Comment && Past(ts, a) < |ts| && ts[Past(ts, a)].kind == ArrayEnd
    ensures !IsItems(config, ts, a, b)
  {
    forall i: nat
      ensures !IsValue(config, ts, a, i)
    {
      assert Front(config, ts, a) in {a, Past(ts, a)};
    }
  }

  /** Behind a member, any token behind a comment stands for the comma. */
  lemma CommentHidesComma(config: Config, ts: seq<Token>, name: string, i: nat, b: nat)
    requires i < |ts| && ts[i].kind == Comment && Past(ts, i) < b <= |ts| && ts[Past(ts, i)].kind != ObjectEnd
    ensures MembersFrom(config, ts, name, i, b) <==> IsMembers(config, ts, name, Past(ts, i) + 1, b)
  {
  }

  /** Comments that are switched off are still passed inside an object. */
  lemma UnwantedComment(config: Config, comment: Token)
    requires comment.kind == Comment
    ensures IsValue(config, [Token(ObjectBegin, "{"), comment, Token(ObjectEnd, "}")], 0, 3)
    ensures IsValue(config, [comment, Token(NullToken, "null")], 0, 2) <==> config.allowComments
  {
    var ts := [Token(ObjectBegin, "{"), comment, Token(ObjectEnd, "}")];
    assert Past(ts, 0) == 0 && Past(ts, 1) == Past(ts, 2) == 2;
    var us := [comment, Token(NullToken, "null")];
    assert Past(us, 0) == Past(us, 1) == 1;
  }
}
