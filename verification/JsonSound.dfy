/** Whatever the text, what the reader builds is a proper value
    (android/jni/jsoncpp/json_reader.cpp:195-242, 464-617; json_value.cpp:190-231, 1014-1040). */
module JsonSound {
  import opened Basics
  import opened JsonValue
  import opened JsonLexer
  import opened JsonGrammar
  import opened JsonText

  /** Keys 0, 1, 2 and so on. */
  predicate Dense(items: seq<Entry>) {
    forall i :: 0 <= i < |items| ==> items[i].key == Index(i)
  }

  predicate Names(members: seq<Entry>) {
    Ascending(members) && forall e :: e in members ==> e.key.Name? && NulFree(e.key.name)
  }

  /** Integers of the range that is read as integers, unsigned only where signed does not do; C strings;
      no holes; names in order. */
  predicate Sound(v: Value) {
    match v
    case Int(i) => -2147483639 <= i <= 0x7FFF_FFFF
    case UInt(u) => 0x7FFF_FFFF < u <= 4294967289
    case Str(s) => s.Some? && NulFree(s.value)
    case Arr(items) => Dense(items) && forall e :: e in items ==> Sound(e.value)
    case Obj(members) => Names(members) && forall e :: e in members ==> Sound(e.value)
    case _ => true
  }

  predicate SoundEntries(entries: seq<Entry>) {
    forall e :: e in entries ==> Sound(e.value)
  }

  // ---- Maps ------------------------------------------------------------------------------------------

  /** Everything in front of the lower bound is less than the key, nothing behind it is. */
  lemma {:induction false} LowerBoundSplits(entries: seq<Entry>, name: string)
    requires Names(entries)
    ensures var n := LowerBound(entries, Name(name));
            && (forall i :: 0 <= i < n ==> KeyLess(entries[i].key, Name(name)))
            && (n < |entries| ==> !KeyLess(entries[n].key, Name(name)))
  {
    hide NulFree, KeyLess;
    if entries != [] && KeyLess(entries[0].key, Name(name)) {
      assert forall e :: e in entries[1..] ==> e in entries;
      LowerBoundSplits(entries[1..], name);
    }
  }

  /** Replacing or inserting under a name keeps the order. */
  lemma PutKeepsNames(members: seq<Entry>, name: string, value: Value)
    requires Names(members) && NulFree(name)
    ensures Names(Put(members, Name(name), value))
  {
    hide NulFree, KeyLess, LowerBound, Ascending;
    LowerBoundSplits(members, name);
    var key, n := Name(name), LowerBound(members, Name(name));
    var back := if n < |members| && members[n].key == key then n + 1 else n;
    NamesBehind(members, key, n, back);
    Splice(members[..n], Entry(key, value), members[back..]);
  }

  /** Order within a part, and between the key and the entries behind its place. */
  lemma NamesBehind(members: seq<Entry>, key: Key, n: nat, back: nat)
    requires Names(members) && key.Name? && n <= |members| && (n < |members| ==> !KeyLess(members[n].key, key))
    requires back == if n < |members| && members[n].key == key then n + 1 else n
    ensures Ascending(members[..n]) && Ascending(members[back..])
    ensures forall e :: e in members[back..] ==> KeyLess(key, e.key)
  {
    hide KeyLess;
    forall i | back <= i < |members|
      ensures KeyLess(key, members[i].key)
    {
      assert members[i] in members && members[n] in members;
      KeyTrichotomy(members[n].key, key);
      if n < i && members[n].key != key {
        KeyTransitive(key, members[n].key, members[i].key);
      }
    }
  }

  lemma Splice(front: seq<Entry>, e: Entry, back: seq<Entry>)
    requires Ascending(front) && Ascending(back)
    requires forall d :: d in front ==> KeyLess(d.key, e.key)
    requires forall d :: d in back ==> KeyLess(e.key, d.key)
    ensures Ascending(front + [e] + back)
  {
    hide KeyLess;
    forall c, d | c in front && d in back
      ensures KeyLess(c.key, d.key)
    {
      KeyTransitive(c.key, e.key, d.key);
    }
  }

  lemma PutKeepsSound(entries: seq<Entry>, key: Key, value: Value)
    requires SoundEntries(entries) && Sound(value)
    ensures SoundEntries(Put(entries, key, value)) && Sound(At(entries, key))
  {
    hide LowerBound, Sound;
    SoundNull();
  }

  lemma SoundNull()
    ensures Sound(Null)
  {
  }

  lemma {:induction false} IndicesBelow(items: seq<Entry>, index: int)
    requires forall i :: 0 <= i < |items| ==> items[i].key.Index? && items[i].key.index < index
    ensures LowerBound(items, Index(index)) == |items|
  {
    if items != [] {
      IndicesBelow(items[1..], index);
    }
  }

  /** The next index of a dense array is a new one at the end. */
  lemma PutKeepsDense(items: seq<Entry>, value: Value)
    requires Dense(items)
    ensures Dense(Put(items, Index(|items|), value)) && |Put(items, Index(|items|), value)| == |items| + 1
    ensures At(items, Index(|items|)) == Null
  {
    IndicesBelow(items, |items|);
  }

  // ---- Scalars ---------------------------------------------------------------------------------------

  lemma {:induction false} UpToNulIsNulFree(s: string)
    ensures NulFree(UpToNul(s))
  {
    if s != [] && s[0] != '\0' {
      UpToNulIsNulFree(s[1..]);
    }
  }

  lemma {:induction false} DigitsBound(digits: string, value: nat, threshold: nat)
    requires value < threshold * 10
    ensures ReadDigits(digits, value, threshold).Whole? ==> ReadDigits(digits, value, threshold).value < threshold * 10
  {
    if digits != [] && IsDigit(digits[0]) && value < threshold {
      DigitsBound(digits[1..], value * 10 + (digits[0] as int - '0' as int), threshold);
    }
  }

  /** The accumulated number never leaves 32 bits, and its negation is an `Int`. */
  lemma NumberIsSound(toDouble: string -> Option<real>, text: string)
    requires text != []
    ensures DecodeNumber(toDouble, text).Ok? ==> Sound(DecodeNumber(toDouble, text).value)
  {
    hide ReadDigits, LooksDouble;
    var negative := text[0] == '-';
    DigitsBound(if negative then text[1..] else text, 0, (if negative then 0x8000_0000 else 0xFFFF_FFFF) / 10);
  }

  // ---- Values ----------------------------------------------------------------------------------------

  lemma {:induction false} ValueIsSound(config: Config, t: string, previous: Value, errors: Errors)
    ensures Sound(previous) || ReadValue(config, t, previous, errors).ok
            ==> Sound(ReadValue(config, t, previous, errors).value)
    decreases |t|, 0
  {
    hide ReadMembers, ReadArray, DecodeNumber, DecodeString;
    TokenTexts(config, t);
    var next := NextToken(config, t);
    match next.token.kind
    case ObjectBegin => MembersAreSound(config, next.rest, [], [], errors);
    case ArrayBegin => ArrayIsSound(config, next.rest, errors);
    case Number => NumberIsSound(config.toDouble, next.token.text);
    case StringToken =>
      var r := DecodeString(next.token.text);
      UpToNulIsNulFree(if r.Ok? then r.value else []);
    case _ =>
  }

  lemma {:induction false} MembersAreSound(config: Config, t: string, members: seq<Entry>, name: string, errors: Errors)
    requires Names(members) && SoundEntries(members)
    ensures Sound(ReadMembers(config, t, members, name, errors).value)
    decreases |t|, 1
  {
    hide NamedMember, DecodeString, Recover, SkipComments, Names;
    CommentsTexts(t);
    var next := SkipComments(t);
    if next.token.kind == StringToken && DecodeString(next.token.text).Ok? {
      NamedIsSound(config, next.rest, members, DecodeString(next.token.text).value, errors);
    }
  }

  lemma {:induction false} NamedIsSound(config: Config, t: string, members: seq<Entry>, name: string, errors: Errors)
    requires Names(members) && SoundEntries(members)
    ensures Sound(NamedMember(config, t, members, name, errors).value)
    decreases |t|, 1
  {
    hide ReadValue, EndMember, Recover, At, Put, ReadToken, Names;
    var colon := ReadToken(t);
    if colon.token.kind == MemberSeparator {
      var name' := UpToNul(name);
      var previous := At(members, Name(name'));
      UpToNulIsNulFree(name);
      PutKeepsSound(members, Name(name'), Null);
      ValueIsSound(config, colon.rest, previous, errors);
      var child := ReadValue(config, colon.rest, previous, errors);
      PutKeepsSound(members, Name(name'), child.value);
      PutKeepsNames(members, name', child.value);
      if child.ok {
        EndIsSound(config, child.rest, Put(members, Name(name'), child.value), name, child.errors);
      }
    }
  }

  lemma {:induction false} EndIsSound(config: Config, t: string, members: seq<Entry>, name: string, errors: Errors)
    requires Names(members) && SoundEntries(members)
    ensures Sound(EndMember(config, t, members, name, errors).value)
    decreases |t|, 2
  {
    hide ReadMembers, Recover, SkipComments, ReadToken, Names;
    var comma := ReadToken(t);
    if comma.token.kind in {ObjectEnd, ArraySeparator, Comment} {
      var last := if comma.token.kind == Comment then SkipComments(comma.rest) else comma;
      if last.token.kind != ObjectEnd {
        MembersAreSound(config, last.rest, members, name, errors);
      }
    }
  }

  lemma {:induction false} ArrayIsSound(config: Config, t: string, errors: Errors)
    ensures Sound(ReadArray(config, t, errors).value)
    decreases |t|, 2
  {
    hide ReadItems;
    ItemsAreSound(config, SkipSpaces(t), [], errors);
  }

  lemma {:induction false} ItemsAreSound(config: Config, t: string, items: seq<Entry>, errors: Errors)
    requires Dense(items) && SoundEntries(items)
    ensures Sound(ReadItems(config, t, items, errors).value)
    decreases |t|, 1
  {
    hide ReadValue, Recover, At, Put, SkipComments, Dense;
    PutKeepsDense(items, Null);
    SoundNull();
    ValueIsSound(config, t, Null, errors);
    var child := ReadValue(config, t, Null, errors);
    PutKeepsDense(items, child.value);
    PutKeepsSound(items, Index(|items|), child.value);
    if child.ok {
      var next := SkipComments(child.rest);
      if next.token.kind != ArrayEnd {
        ItemsAreSound(config, next.rest, Put(items, Index(|items|), child.value), child.errors);
      }
    }
  }

  /** For every text, also one with errors, a proper root leaves a proper root; a success leaves one whatever
      the root was. */
  lemma ParseIsSound(config: Config, document: string, root: Value)
    ensures Sound(root) || Parse(config, document, root).ok ==> Sound(Parse(config, document, root).root)
  {
    hide Sound;
    ValueIsSound(config, document, root, []);
  }
}
