/** The recursive descent of the JSON reader as functions of the text that is left, the value that is
    about to be replaced and the errors so far (android/jni/jsoncpp/json_reader.cpp:151-300, 460-600). */
module JsonGrammar {
  import opened Basics
  import opened JsonValue
  import opened JsonLexer

  /** `Features`, and `sscanf` with "%lf" as a function. */
  datatype Config = Config(allowComments: bool, strictRoot: bool, toDouble: string -> Option<real>)

  type Errors = seq<Message>

  /** What a reading operation leaves: its verdict, the current value, the text behind, all errors. */
  datatype Outcome = Outcome(ok: bool, value: Value, rest: string, errors: Errors)

  // ---- Entries of a map ------------------------------------------------------------------------

  /** `lower_bound`: the number of entries with smaller keys, for entries in ascending order. */
  function LowerBound(entries: seq<Entry>, key: Key): (n: nat)
    ensures n <= |entries|
  {
    if entries != [] && KeyLess(entries[0].key, key) then 1 + LowerBound(entries[1..], key) else 0
  }

  /** The value under a key, or null. */
  function At(entries: seq<Entry>, key: Key): Value {
    var n := LowerBound(entries, key);
    if n < |entries| && entries[n].key == key then entries[n].value else Null
  }

  /** The entries with one value replaced or inserted in its place. */
  function Put(entries: seq<Entry>, key: Key, value: Value): seq<Entry> {
    var n := LowerBound(entries, key);
    entries[..n] + [Entry(key, value)] + entries[if n < |entries| && entries[n].key == key then n + 1 else n..]
  }

  // ---- The reader ------------------------------------------------------------------------------

  /** `skipCommentTokens` */
  function NextToken(config: Config, t: string): (r: Lexed)
    ensures |r.rest| <= |t|
    ensures r.token.kind != EndOfStream ==> |r.rest| < |t|
  {
    if config.allowComments then SkipComments(t) else ReadToken(t)
  }

  function Failure(value: Value, rest: string, errors: Errors, message: Message): (o: Outcome)
    ensures |o.rest| == |rest| && !o.ok
  {
    Outcome(false, value, rest, errors + [message])
  }

  /** A scalar token: on an error the current value stays as it is. */
  function Decoded(r: Result<Value>, previous: Value, rest: string, errors: Errors): (o: Outcome)
    ensures o.rest == rest
  {
    match r
    case Ok(value) => Outcome(true, value, rest, errors)
    case Err(message) => Failure(previous, rest, errors, message)
  }

  /** `decodeString` for a value: what is stored ends before its first NUL. */
  function StringValue(text: string): Result<Value>
    requires |text| >= 2
  {
    match DecodeString(text)
    case Ok(s) => Ok(Str(Some(UpToNul(s))))
    case Err(message) => Err(message)
  }

  /** `readValue` */
  function ReadValue(config: Config, t: string, previous: Value, errors: Errors): (o: Outcome)
    ensures |o.rest| <= |t| && (o.ok ==> |o.rest| < |t|)
    decreases |t|, 0
  {
    var next := NextToken(config, t);
    var rest := next.rest;
    match next.token.kind
    case ObjectBegin => ReadMembers(config, rest, [], [], errors)
    case ArrayBegin => ReadArray(config, rest, errors)
    case Number => TokenTexts(config, t); Decoded(DecodeNumber(config.toDouble, next.token.text), previous, rest,
        errors)
    case StringToken => TokenTexts(config, t); Decoded(StringValue(next.token.text), previous, rest, errors)
    case True => Outcome(true, Bool(true), rest, errors)
    case False => Outcome(true, Bool(false), rest, errors)
    case NullToken => Outcome(true, Null, rest, errors)
    case _ => Failure(previous, rest, errors, SyntaxError)
  }

  /** The loop of `readObject`; `name` is the member name read last. */
  function ReadMembers(config: Config, t: string, members: seq<Entry>, name: string, errors: Errors): (o: Outcome)
    ensures |o.rest| <= |t|
    decreases |t|, 1
  {
    var next := SkipComments(t);
    if next.token.kind == ObjectEnd && name == [] then Outcome(true, Obj(members), next.rest, errors)
    else if next.token.kind != StringToken then
      Failure(Obj(members), Recover(next.rest, ObjectEnd), errors, MissingObjectEnd)
    else
      CommentsTexts(t);
      match DecodeString(next.token.text)
      case Err(message) => Failure(Obj(members), Recover(next.rest, ObjectEnd), errors, message)
      case Ok(newName) => NamedMember(config, next.rest, members, newName, errors)
  }

  /** A round of the loop of `readObject` from the colon on. */
  function NamedMember(config: Config, t: string, members: seq<Entry>, name: string, errors: Errors): (o: Outcome)
    ensures |o.rest| <= |t|
    decreases |t|, 1
  {
    var colon := ReadToken(t);
    if colon.token.kind != MemberSeparator then
      Failure(Obj(members), Recover(colon.rest, ObjectEnd), errors, MissingColon)
    else
      var key := Name(UpToNul(name));
      var child := ReadValue(config, colon.rest, At(members, key), errors);
      var grown := Put(members, key, child.value);
      if !child.ok then Outcome(false, Obj(grown), Recover(child.rest, ObjectEnd), child.errors)
      else EndMember(config, child.rest, grown, name, child.errors)
  }

  /** What follows a member: a comma or the end; behind a comment anything but the end counts as a comma. */
  function EndMember(config: Config, t: string, members: seq<Entry>, name: string, errors: Errors): (o: Outcome)
    ensures |o.rest| <= |t|
    decreases |t|, 2
  {
    var comma := ReadToken(t);
    if comma.token.kind !in {ObjectEnd, ArraySeparator, Comment} then
      Failure(Obj(members), Recover(comma.rest, ObjectEnd), errors, MissingMemberEnd)
    else
      var last := if comma.token.kind == Comment then SkipComments(comma.rest) else comma;
      if last.token.kind == ObjectEnd then Outcome(true, Obj(members), last.rest, errors)
      else ReadMembers(config, last.rest, members, name, errors)
  }

  /** `readArray` */
  function ReadArray(config: Config, t: string, errors: Errors): (o: Outcome)
    ensures |o.rest| <= |t|
    decreases |t|, 2
  {
    var s := SkipSpaces(t);
    if s != [] && s[0] == ']' then Outcome(true, Arr([]), s[1..], errors)
    else ReadItems(config, s, [], errors)
  }

  /** The loop of `readArray`: anything that is not the end goes on with the next item. */
  function ReadItems(config: Config, t: string, items: seq<Entry>, errors: Errors): (o: Outcome)
    ensures |o.rest| <= |t|
    decreases |t|, 1
  {
    var child := ReadValue(config, t, At(items, Index(|items|)), errors);
    var grown := Put(items, Index(|items|), child.value);
    if !child.ok then Outcome(false, Arr(grown), Recover(child.rest, ArrayEnd), child.errors)
    else
      var next := SkipComments(child.rest);
      if next.token.kind == ArrayEnd then Outcome(true, Arr(grown), next.rest, child.errors)
      else ReadItems(config, next.rest, grown, child.errors)
  }

  datatype Parsed = Parsed(ok: bool, root: Value, errors: Errors)

  /** `parse` */
  function Parse(config: Config, document: string, root: Value): Parsed {
    var o := ReadValue(config, document, root, []);
    if config.strictRoot && !o.value.Null? && !o.value.Arr? && !o.value.Obj? then
      Parsed(false, o.value, o.errors + [RootNotStructured])
    else Parsed(o.ok, o.value, o.errors)
  }

  // ---- Totality and errors ---------------------------------------------------------------------

  lemma CommentsTexts(t: string)
    ensures SkipComments(t).token.kind == StringToken ==> |SkipComments(t).token.text| >= 2
    ensures SkipComments(t).token.kind == Number ==> SkipComments(t).token.text != []
    decreases |t|
  {
    StringHasQuotes(t);
    var r := ReadToken(t);
    if r.token.kind == Comment {
      CommentsTexts(r.rest);
    }
  }

  lemma TokenTexts(config: Config, t: string)
    ensures NextToken(config, t).token.kind == StringToken ==> |NextToken(config, t).token.text| >= 2
    ensures NextToken(config, t).token.kind == Number ==> NextToken(config, t).token.text != []
  {
    StringHasQuotes(t);
    CommentsTexts(t);
  }

  /** An operation succeeds exactly if it leaves the errors as they were; if not it has added one to them. */
  predicate Honest(o: Outcome, errors: Errors) {
    if o.ok then o.errors == errors else |o.errors| == |errors| + 1 && o.errors[..|errors|] == errors
  }

  lemma {:induction false} ValueIsHonest(config: Config, t: string, previous: Value, errors: Errors)
    ensures Honest(ReadValue(config, t, previous, errors), errors)
    decreases |t|, 0
  {
    hide ReadMembers, ReadArray, DecodeNumber, StringValue;
    TokenTexts(config, t);
    var next := NextToken(config, t);
    match next.token.kind
    case ObjectBegin => MembersAreHonest(config, next.rest, [], [], errors);
    case ArrayBegin => ArrayIsHonest(config, next.rest, errors);
    case _ =>
  }

  lemma {:induction false} MembersAreHonest(config: Config, t: string, members: seq<Entry>, name: string,
      errors: Errors)
    ensures Honest(ReadMembers(config, t, members, name, errors), errors)
    decreases |t|, 1
  {
    hide NamedMember, DecodeString, Recover;
    CommentsTexts(t);
    var next := SkipComments(t);
    if next.token.kind == StringToken && DecodeString(next.token.text).Ok? {
      NamedIsHonest(config, next.rest, members, DecodeString(next.token.text).value, errors);
    }
  }

  lemma {:induction false} NamedIsHonest(config: Config, t: string, members: seq<Entry>, name: string, errors: Errors)
    ensures Honest(NamedMember(config, t, members, name, errors), errors)
    decreases |t|, 1
  {
    hide ReadValue, EndMember, Recover, At, Put;
    var colon := ReadToken(t);
    if colon.token.kind == MemberSeparator {
      var key := Name(UpToNul(name));
      var child := ReadValue(config, colon.rest, At(members, key), errors);
      ValueIsHonest(config, colon.rest, At(members, key), errors);
      if child.ok {
        EndIsHonest(config, child.rest, Put(members, key, child.value), name, child.errors);
      }
    }
  }

  lemma {:induction false} EndIsHonest(config: Config, t: string, members: seq<Entry>, name: string, errors: Errors)
    ensures Honest(EndMember(config, t, members, name, errors), errors)
    decreases |t|, 2
  {
    hide ReadMembers, Recover;
    var comma := ReadToken(t);
    if comma.token.kind in {ObjectEnd, ArraySeparator, Comment} {
      var last := if comma.token.kind == Comment then SkipComments(comma.rest) else comma;
      MembersAreHonest(config, last.rest, members, name, errors);
    }
  }

  lemma {:induction false} ArrayIsHonest(config: Config, t: string, errors: Errors)
    ensures Honest(ReadArray(config, t, errors), errors)
    decreases |t|, 2
  {
    hide ReadItems;
    ItemsAreHonest(config, SkipSpaces(t), [], errors);
  }

  lemma {:induction false} ItemsAreHonest(config: Config, t: string, items: seq<Entry>, errors: Errors)
    ensures Honest(ReadItems(config, t, items, errors), errors)
    decreases |t|, 1
  {
    hide ReadValue, Recover, At, Put;
    var previous := At(items, Index(|items|));
    ValueIsHonest(config, t, previous, errors);
    var child := ReadValue(config, t, previous, errors);
    if child.ok {
      ItemsAreHonest(config, SkipComments(child.rest).rest, Put(items, Index(|items|), child.value), errors);
    }
  }

  /** Reading ends on every text, and it succeeds if and only if no error was noted. */
  lemma ParseIsHonest(config: Config, document: string, root: Value)
    ensures var p := Parse(config, document, root); p.ok <==> p.errors == []
  {
    ValueIsHonest(config, document, root, []);
  }
}
