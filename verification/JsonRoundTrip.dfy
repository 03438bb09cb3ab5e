/** Reading back what the writers write (android/jni/jsoncpp/json_reader.cpp:195-242, 464-617, 658-756;
    json_writer.cpp:30-64, 111-172, 197-480). */
module JsonRoundTrip {
  import opened Basics
  import opened JsonValue
  import opened JsonLexer
  import opened JsonGrammar
  import opened JsonText
  import opened JsonTokens
  import opened JsonSyntax

  // ---- Integers --------------------------------------------------------------------------------------

  lemma {:induction false} ReadDigitsAppend(a: string, b: string, value: nat, threshold: nat)
    ensures ReadDigits(a + b, value, threshold)
         == match ReadDigits(a, value, threshold)
            case Whole(w) => ReadDigits(b, w, threshold)
            case r => r
    decreases |a|
  {
    if a == [] {
      assert a + b == b;
    } else {
      assert (a + b)[1..] == a[1..] + b;
      if IsDigit(a[0]) && value < threshold {
        ReadDigitsAppend(a[1..], b, value * 10 + (a[0] as int - '0' as int), threshold);
      }
    }
  }

  /** The digits of n are read as n unless all but the last make up the threshold. */
  lemma {:induction false} ReadsDecimal(n: nat, threshold: nat)
    requires threshold > 0
    ensures ReadDigits(Decimal(n), 0, threshold) == if n / 10 < threshold then Whole(n) else TooLarge
  {
    if n < 10 {
      OneDigit(n, 0, threshold);
    } else {
      ReadsDecimal(n / 10, threshold);
      ReadDigitsAppend(Decimal(n / 10), [Digit(n % 10)], 0, threshold);
      OneDigit(n % 10, n / 10, threshold);
    }
  }

  lemma OneDigit(d: nat, value: nat, threshold: nat)
    requires d < 10
    ensures ReadDigits([Digit(d)], value, threshold) == if value < threshold then Whole(value * 10 + d) else TooLarge
  {
    assert [Digit(d)][1..] == [];
  }

  /** The numbers that are read as integers. */
  predicate Exact(n: int) {
    -2147483639 <= n <= 4294967289
  }

  lemma NotDouble(n: int)
    ensures !LooksDouble(IntText(n))
  {
    var text := IntText(n);
    DecimalDigits(if n < 0 then -n else n);
    forall i | 0 <= i < |text|
      ensures text[i] !in {'.', 'e', 'E', '+'} && (i > 0 ==> text[i] != '-')
    {
      if n < 0 {
        assert i > 0 ==> text[i] == Decimal(-n)[i - 1] && Decimal(-n)[i - 1] in Decimal(-n);
      } else {
        assert text[i] in text;
      }
    }
  }

  /** An integer comes back as itself if and only if it is exact; the others go to `decodeDouble`. */
  lemma IntIsDecoded(toDouble: string -> Option<real>, n: int)
    ensures IntText(n) != []
    ensures DecodeNumber(toDouble, IntText(n))
         == if Exact(n) then Ok(if n <= 0x7FFF_FFFF then Int(n) else UInt(n)) else DecodeDouble(toDouble, IntText(n))
  {
    hide ReadDigits, DecodeDouble;
    NotDouble(n);
    if n < 0 {
      assert IntText(n)[1..] == Decimal(-n);
      ReadsDecimal(-n, 0x8000_0000 / 10);
    } else {
      NumberStart(n);
      ReadsDecimal(n, 0xFFFF_FFFF / 10);
    }
  }

  lemma IntIsNumberText(i: int)
    ensures IsNumberText(IntText(i))
  {
    DecimalDigits(if i < 0 then -i else i);
    NumberStart(if i < 0 then -i else i);
  }

  // ---- Strings ---------------------------------------------------------------------------------------

  /** The three forms in which a character stands in a literal. */
  predicate ByItself(c: char) {
    Escape(c) == [c] && c != '"' && c != '\\'
  }

  predicate ByLetter(c: char) {
    |Escape(c)| == 2 && Escape(c)[0] == '\\' && Escape(c)[1] != 'u' && Unescape(Escape(c)[1]) == Some(c)
  }

  predicate ByCode(c: char) {
    IsControl(c) && Escape(c) == "\\u" + ControlHex(c)
  }

  function ControlHex(c: char): string
    requires IsControl(c)
  {
    "00" + [HexDigitOf(c as int / 16), HexDigitOf(c as int % 16)]
  }

  lemma EscapeForms(c: char)
    ensures ByItself(c) || ByLetter(c) || ByCode(c)
  {
  }

  /** The piece of a literal that the writers use for a character. */
  function PieceOf(c: char): Piece {
    if Escape(c) == [c] then Plain(c) else if |Escape(c)| == 2 then Short(Escape(c)[1]) else Code(Escape(c)[2..])
  }

  function PiecesOf(s: string): seq<Piece> {
    if s == [] then [] else [PieceOf(s[0])] + PiecesOf(s[1..])
  }

  lemma PieceIs(c: char)
    ensures ValidPiece(PieceOf(c)) && PieceText(PieceOf(c)) == Escape(c) && !IsHigh(PieceOf(c))
    ensures match PieceOf(c)
            case Plain(d) => d == c
            case Short(letter) => Unescape(letter) == Some(c)
            case Code(hex) => Utf8(CodeValue(hex)) == [c]
  {
    hide Escape, HexDigits, CodePoint;
    EscapeForms(c);
    if ByCode(c) {
      assert Escape(c)[2..] == ControlHex(c);
      ControlIs(c);
    }
  }

  lemma ControlIs(c: char)
    requires IsControl(c)
    ensures ValidPiece(Code(ControlHex(c))) && CodeValue(ControlHex(c)) == c as int && Utf8(c as int) == [c]
  {
    hide HexDigits;
    FourDigitValue(ControlHex(c));
    assert ControlHex(c)[..4] == ControlHex(c);
  }

  /** A written literal is a literal of the grammar, and it means the string. */
  lemma {:induction false} PiecesAre(s: string)
    ensures ValidPieces(PiecesOf(s)) && Inside(PiecesOf(s)) == EscapeAll(s) && Literal(Inside(PiecesOf(s))) == Quoted(s)
    ensures Paired(PiecesOf(s)) && StringMeaning(PiecesOf(s)) == s
  {
    hide Escape, PieceOf, ValidPiece, PieceText, CodeValue, Utf8, Unescape;
    if s != [] {
      PieceIs(s[0]);
      PiecesAre(s[1..]);
      var pieces := PiecesOf(s);
      assert pieces[0] == PieceOf(s[0]) && pieces[1..] == PiecesOf(s[1..]);
      assert s == [s[0]] + s[1..];
    }
  }

  lemma {:induction false} NulFreeIsWhole(s: string)
    requires NulFree(s)
    ensures UpToNul(s) == s
  {
    if s != [] {
      assert s[0] in s && forall c :: c in s[1..] ==> c in s;
      NulFreeIsWhole(s[1..]);
    }
  }

  /** Every string without NUL comes back from its literal. */
  lemma QuotedIsDecoded(s: string)
    requires NulFree(s)
    ensures |Quoted(s)| >= 2 && DecodeString(Quoted(s)) == Ok(s) && UpToNul(s) == s
  {
    hide Decode, Inside, EscapeAll;
    PiecesAre(s);
    DecodesIff(PiecesOf(s));
    InsideLiteral(EscapeAll(s));
    NulFreeIsWhole(s);
  }

  // ---- What comes back -------------------------------------------------------------------------------

  /** Every integer that is not exact has a text that `sscanf` reads. */
  predicate Readable(config: Config, v: Value)
    requires Writable(v)
    decreases v
  {
    match v
    case Int(i) => Exact(i) || config.toDouble(IntText(i)).Some?
    case UInt(u) => Exact(u) || config.toDouble(IntText(u)).Some?
    case Arr(items) => forall e :: e in items ==> Readable(config, e.value)
    case Obj(members) => forall e :: e in members ==> Readable(config, e.value)
    case _ => true
  }

  /** The number that comes back for an integer. */
  function CanonInt(config: Config, n: int): Value
    requires Exact(n) || config.toDouble(IntText(n)).Some?
  {
    if !Exact(n) then Real(config.toDouble(IntText(n)).value) else if n <= 0x7FFF_FFFF then Int(n) else UInt(n)
  }

  /** The value that comes back: an unsigned number that fits is signed, and holes in arrays are nulls. */
  function Canon(config: Config, v: Value): Value
    requires Writable(v) && Readable(config, v)
    decreases Size(v), 1, 0
  {
    match v
    case Int(i) => CanonInt(config, i)
    case UInt(u) => CanonInt(config, u)
    case Arr(items) => Arr(CanonItems(config, items, Slots(items)))
    case Obj(members) => Obj(CanonMembers(config, members, |members|))
    case _ => v
  }

  function CanonItems(config: Config, items: seq<Entry>, count: nat): (r: seq<Entry>)
    requires Writable(Arr(items)) && Readable(config, Arr(items)) && count <= Slots(items)
    ensures |r| == count
    decreases 1 + MapSize(items), 0, count
  {
    if count == 0 then []
    else
      SlotIsReadable(config, items, count - 1);
      CanonItems(config, items, count - 1) + [Entry(Index(count - 1), Canon(config, At(items, Index(count - 1))))]
  }

  function CanonMembers(config: Config, members: seq<Entry>, count: nat): (r: seq<Entry>)
    requires Writable(Obj(members)) && Readable(config, Obj(members)) && count <= |members|
    ensures |r| == count
    decreases 1 + MapSize(members), 0, count
  {
    if count == 0 then []
    else
      MemberIsWritable(members, count - 1);
      CanonMembers(config, members, count - 1)
          + [Entry(members[count - 1].key, Canon(config, members[count - 1].value))]
  }

  lemma SlotIsReadable(config: Config, items: seq<Entry>, from: nat)
    requires Writable(Arr(items)) && Readable(config, Arr(items)) && from < Slots(items)
    ensures Writable(At(items, Index(from))) && Size(At(items, Index(from))) <= MapSize(items)
    ensures Readable(config, At(items, Index(from)))
  {
    SlotIsWritable(items, from);
  }

  // ---- Maps ------------------------------------------------------------------------------------------

  lemma {:induction false} MemberKeys(config: Config, members: seq<Entry>, count: nat, key: Key)
    requires Writable(Obj(members)) && Readable(config, Obj(members)) && count <= |members|
    requires forall i :: 0 <= i < count ==> KeyLess(members[i].key, key)
    ensures forall e :: e in CanonMembers(config, members, count) ==> KeyLess(e.key, key)
  {
    hide Canon, KeyLess, Writable, Readable;
    if count > 0 {
      MemberKeys(config, members, count - 1, key);
    }
  }

  lemma CanonMembersStep(config: Config, members: seq<Entry>, from: nat)
    requires Writable(Obj(members)) && Readable(config, Obj(members)) && from < |members|
    ensures Writable(members[from].value) && Readable(config, members[from].value)
    ensures CanonMembers(config, members, from + 1)
         == CanonMembers(config, members, from) + [Entry(members[from].key, Canon(config, members[from].value))]
    ensures forall e :: e in CanonMembers(config, members, from) ==> KeyLess(e.key, members[from].key)
  {
    hide Canon, KeyLess;
    MemberKeys(config, members, from, members[from].key);
  }

  lemma {:induction false} LowerBoundIs(entries: seq<Entry>, i: nat)
    requires Ascending(entries) && i < |entries| && (forall j :: 0 <= j < |entries| ==> entries[j].key.Index?)
    ensures LowerBound(entries, entries[i].key) == i
  {
    if i > 0 {
      LowerBoundIs(entries[1..], i - 1);
    }
  }

  /** The value of an entry is what its key finds. */
  lemma AtEntry(items: seq<Entry>, i: nat)
    requires Writable(Arr(items)) && i < |items|
    ensures items[i].key.Index? && At(items, items[i].key) == items[i].value && Writable(items[i].value)
  {
    hide LowerBound;
    assert items[i] in items;
    forall j | 0 <= j < |items|
      ensures items[j].key.Index?
    {
      assert items[j] in items;
    }
    LowerBoundIs(items, i);
  }

  lemma {:induction false} KeyAtLeast(items: seq<Entry>, i: nat)
    requires Writable(Arr(items)) && i < |items|
    ensures items[i].key.Index? && items[i].key.index >= i
  {
    assert items[i] in items;
    if i > 0 {
      KeyAtLeast(items, i - 1);
      assert KeyLess(items[i - 1].key, items[i].key);
    }
  }

  // ---- A written value as a document -----------------------------------------------------------------

  function DocOf(v: Value): Doc
    requires Writable(v)
    decreases Size(v), 1, 0
  {
    match v
    case Null => NullDoc
    case Int(i) => NumberDoc(IntText(i))
    case UInt(u) => NumberDoc(IntText(u))
    case Str(s) => StringDoc(PiecesOf(s.value))
    case Bool(b) => BoolDoc(b)
    case Arr(items) => ArrayDoc(ItemDocs(items, Slots(items)))
    case Obj(members) => ObjectDoc(MemberDocs(members, |members|))
    case Real(_) => NullDoc
  }

  function ItemDocs(items: seq<Entry>, count: nat): (r: seq<Doc>)
    requires Writable(Arr(items)) && count <= Slots(items)
    ensures |r| == count
    decreases 1 + MapSize(items), 0, count
  {
    if count == 0 then []
    else
      SlotIsWritable(items, count - 1);
      ItemDocs(items, count - 1) + [DocOf(At(items, Index(count - 1)))]
  }

  function MemberDocs(members: seq<Entry>, count: nat): (r: seq<Member>)
    requires Writable(Obj(members)) && count <= |members|
    ensures |r| == count
    decreases 1 + MapSize(members), 0, count
  {
    if count == 0 then []
    else
      MemberIsWritable(members, count - 1);
      MemberDocs(members, count - 1) + [Member(PiecesOf(members[count - 1].key.name), DocOf(members[count - 1].value))]
  }

  lemma {:induction false} ItemDocAt(items: seq<Entry>, count: nat, i: nat)
    requires Writable(Arr(items)) && i < count <= Slots(items)
    ensures Writable(At(items, Index(i))) && Size(At(items, Index(i))) <= MapSize(items)
    ensures ItemDocs(items, count)[i] == DocOf(At(items, Index(i)))
  {
    hide DocOf, At, Writable;
    SlotIsWritable(items, i);
    if i < count - 1 {
      ItemDocAt(items, count - 1, i);
    }
  }

  lemma {:induction false} MemberDocAt(members: seq<Entry>, count: nat, i: nat)
    requires Writable(Obj(members)) && i < count <= |members|
    ensures members[i].key.Name? && NulFree(members[i].key.name)
    ensures Writable(members[i].value) && Size(members[i].value) <= MapSize(members)
    ensures MemberDocs(members, count)[i] == Member(PiecesOf(members[i].key.name), DocOf(members[i].value))
  {
    hide DocOf, PiecesOf;
    MemberIsWritable(members, i);
    if i < count - 1 {
      MemberDocAt(members, count - 1, i);
    }
  }

  lemma {:induction false} DocIsLexical(v: Value)
    requires Writable(v)
    ensures Lexical(DocOf(v))
    decreases Size(v)
  {
    hide IsNumberText, ValidPieces, PiecesOf, ItemDocs, MemberDocs;
    match v
    case Int(i) => IntIsNumberText(i);
    case UInt(u) => IntIsNumberText(u);
    case Str(s) => PiecesAre(s.value);
    case Arr(items) =>
      var docs := ItemDocs(items, Slots(items));
      forall e | e in docs
        ensures Lexical(e)
      {
        var i :| 0 <= i < |docs| && docs[i] == e;
        ItemDocAt(items, Slots(items), i);
        DocIsLexical(At(items, Index(i)));
      }
    case Obj(members) =>
      var docs := MemberDocs(members, |members|);
      forall m | m in docs
        ensures ValidPieces(m.name) && Lexical(m.value)
      {
        var i :| 0 <= i < |docs| && docs[i] == m;
        MemberDocAt(members, |members|, i);
        PiecesAre(members[i].key.name);
        DocIsLexical(members[i].value);
      }
    case _ =>
  }

  /** The tokens of the value are those of its document. */
  lemma {:induction false} TokensOfDoc(v: Value)
    requires Writable(v)
    ensures DocTokens(DocOf(v)) == Tokens(v)
    decreases Size(v), 1, 0
  {
    hide ItemDocs, MemberDocs, ItemTokens, MemberTokens, ItemDocTokens, MemberDocTokens, IntText, Quoted, Literal,
         PiecesOf, Inside;
    match v
    case UInt(u) => UIntIsInt(u);
    case Str(s) => PiecesAre(s.value);
    case Arr(items) => ItemTokensOfDoc(items, 0);
    case Obj(members) => MemberTokensOfDoc(members, 0);
    case _ =>
  }

  lemma UIntIsInt(u: nat)
    ensures IntText(u) == Decimal(u)
  {
  }

  lemma {:induction false} ItemTokensOfDoc(items: seq<Entry>, from: nat)
    requires Writable(Arr(items))
    ensures ItemDocTokens(ArrayDoc(ItemDocs(items, Slots(items))), from) == ItemTokens(items, from)
    decreases 1 + MapSize(items), 0, Slots(items) - from
  {
    hide ItemDocs, Tokens, DocTokens, Writable, Slots, DocOf, At;
    if from < Slots(items) {
      ItemDocAt(items, Slots(items), from);
      TokensOfDoc(At(items, Index(from)));
      ItemTokensOfDoc(items, from + 1);
    }
  }

  lemma {:induction false} MemberTokensOfDoc(members: seq<Entry>, from: nat)
    requires Writable(Obj(members))
    ensures MemberDocTokens(ObjectDoc(MemberDocs(members, |members|)), from) == MemberTokens(members, from)
    decreases 1 + MapSize(members), 0, |members| - from
  {
    hide MemberDocs, Tokens, DocTokens, Writable, DocOf, Quoted, Literal, Inside, PiecesOf;
    if from < |members| {
      MemberDocAt(members, |members|, from);
      PiecesAre(members[from].key.name);
      TokensOfDoc(members[from].value);
      MemberTokensOfDoc(members, from + 1);
    }
  }

  // ---- What the document means -----------------------------------------------------------------------

  lemma {:induction false} MeaningOfDoc(config: Config, v: Value)
    requires Writable(v) && Readable(config, v)
    ensures Lexical(DocOf(v)) && Accepted(config, DocOf(v)) && Meaning(config, DocOf(v)) == Canon(config, v)
    decreases Size(v), 1, 0
  {
    hide ItemDocs, MemberDocs, ItemMeanings, MemberMeanings, CanonItems, CanonMembers, IntText, DecodeNumber,
         PiecesOf, StringMeaning, UpToNul, Paired;
    DocIsLexical(v);
    match v
    case Int(i) => IntIsDecoded(config.toDouble, i);
    case UInt(u) => IntIsDecoded(config.toDouble, u);
    case Str(s) => PiecesAre(s.value); NulFreeIsWhole(s.value);
    case Arr(items) => ItemMeaningsOfDoc(config, items, Slots(items)); AllItemsAccepted(config, DocOf(v));
    case Obj(members) => MemberMeaningsOfDoc(config, members, |members|); AllMembersAccepted(config, DocOf(v));
    case _ =>
  }

  lemma AllItemsAccepted(config: Config, d: Doc)
    requires d.ArrayDoc? && Lexical(d) && forall i :: 0 <= i < |d.items| ==> Accepted(config, d.items[i])
    ensures Accepted(config, d)
  {
  }

  lemma AllMembersAccepted(config: Config, d: Doc)
    requires d.ObjectDoc? && Lexical(d) && forall i :: 0 <= i < |d.members| ==> MemberAccepted(config, d.members[i])
    ensures Accepted(config, d)
  {
    hide ValidPieces, Paired;
    forall m | m in d.members
      ensures Paired(m.name) && Accepted(config, m.value)
    {
      var i :| 0 <= i < |d.members| && d.members[i] == m;
      assert MemberAccepted(config, d.members[i]);
    }
  }

  lemma {:induction false} ItemMeaningsOfDoc(config: Config, items: seq<Entry>, count: nat)
    requires Writable(Arr(items)) && Readable(config, Arr(items)) && count <= Slots(items)
    ensures var d := ArrayDoc(ItemDocs(items, Slots(items)));
            && Lexical(d) && (forall i :: 0 <= i < count ==> Accepted(config, d.items[i]))
            && ItemMeanings(config, d, count) == CanonItems(config, items, count)
    decreases 1 + MapSize(items), 0, count
  {
    hide ItemDocs, Meaning, Canon, Writable, Readable, Slots, DocOf, At, Lexical, Accepted;
    ArrayIsLexical(items);
    if count > 0 {
      ItemMeaningsOfDoc(config, items, count - 1);
      ItemDocAt(items, Slots(items), count - 1);
      SlotIsReadable(config, items, count - 1);
      MeaningOfDoc(config, At(items, Index(count - 1)));
    }
  }

  lemma ArrayIsLexical(items: seq<Entry>)
    requires Writable(Arr(items))
    ensures Lexical(ArrayDoc(ItemDocs(items, Slots(items))))
  {
    hide ItemDocs, Lexical;
    DocIsLexical(Arr(items));
  }

  lemma ObjectIsLexical(members: seq<Entry>)
    requires Writable(Obj(members))
    ensures Lexical(ObjectDoc(MemberDocs(members, |members|)))
  {
    hide MemberDocs, Lexical;
    DocIsLexical(Obj(members));
  }

  lemma MemberIsReadable(config: Config, members: seq<Entry>, i: nat)
    requires Writable(Obj(members)) && Readable(config, Obj(members)) && i < |members|
    ensures Writable(members[i].value) && Readable(config, members[i].value)
  {
    assert members[i] in members;
  }

  lemma MemberMeaningOfDoc(config: Config, members: seq<Entry>, i: nat)
    requires Writable(Obj(members)) && Readable(config, Obj(members)) && i < |members|
    ensures Writable(members[i].value) && Readable(config, members[i].value) && members[i].key.Name?
    ensures var m := MemberDocs(members, |members|)[i];
            && ValidPieces(m.name) && Lexical(m.value) && MemberAccepted(config, m)
            && UpToNul(StringMeaning(m.name)) == members[i].key.name
            && Meaning(config, m.value) == Canon(config, members[i].value)
    decreases 1 + MapSize(members), 0, 0
  {
    hide MemberDocs, Meaning, Canon, Writable, Readable, DocOf, Lexical, Accepted, PiecesOf, StringMeaning, Paired,
         ValidPieces, UpToNul;
    MemberDocAt(members, |members|, i);
    MemberIsReadable(config, members, i);
    PiecesAre(members[i].key.name);
    NulFreeIsWhole(members[i].key.name);
    MeaningOfDoc(config, members[i].value);
  }

  lemma {:induction false} MemberMeaningsOfDoc(config: Config, members: seq<Entry>, count: nat)
    requires Writable(Obj(members)) && Readable(config, Obj(members)) && count <= |members|
    ensures var d := ObjectDoc(MemberDocs(members, |members|));
            && Lexical(d)
            && (forall i :: 0 <= i < count ==>
                  && ValidPieces(d.members[i].name) && Lexical(d.members[i].value)
                  && MemberAccepted(config, d.members[i]))
            && MemberMeanings(config, d, count) == CanonMembers(config, members, count)
    decreases 1 + MapSize(members), 0, 1 + count
  {
    hide MemberDocs, Meaning, Canon, CanonMembers, Writable, Readable, DocOf, Lexical, MemberAccepted, Paired,
         StringMeaning, ValidPieces, Put, UpToNul, KeyLess;
    ObjectIsLexical(members);
    if count > 0 {
      MemberMeaningsOfDoc(config, members, count - 1);
      MemberMeaningOfDoc(config, members, count - 1);
      CanonMembersStep(config, members, count - 1);
      PutLast(CanonMembers(config, members, count - 1), members[count - 1].key,
          Canon(config, members[count - 1].value));
    } else {
      NoCanonMembers(config, members);
    }
  }

  lemma NoCanonMembers(config: Config, members: seq<Entry>)
    requires Writable(Obj(members)) && Readable(config, Obj(members))
    ensures CanonMembers(config, members, 0) == []
  {
    hide Writable, Readable;
  }

  // ---- Reading back ----------------------------------------------------------------------------------

  /** On every text with the tokens of a value, spaced in any way, the reader gives the value back and
      stops behind its last token. */
  lemma ReadsBack(config: Config, t: string, v: Value, tail: seq<string>, previous: Value, errors: Errors)
    requires Writable(v) && Readable(config, v)
    requires Spaced(t, Tokens(v) + tail) && Closes(tail)
    ensures Reads(ReadValue(config, t, previous, errors), Canon(config, v), errors, tail)
  {
    hide Spaced, Tokens, DocTokens, DocOf, Canon, Meaning, Accepted, Lexical, ReadValue, Reads, Writable, Readable;
    TokensOfDoc(v);
    MeaningOfDoc(config, v);
    DocReads(config, t, DocOf(v), tail, previous, errors);
  }

  /** If `sscanf` reads the integers that are not exact, every value is readable; if a number is neither, the
      text is refused. */
  lemma {:induction false} NotReadable(config: Config, v: Value)
    requires Writable(v) && !Readable(config, v)
    ensures Lexical(DocOf(v)) && !Accepted(config, DocOf(v))
    decreases Size(v)
  {
    hide ItemDocs, MemberDocs, IntText, DecodeNumber, PiecesOf, Paired, Slots, At;
    DocIsLexical(v);
    match v
    case Int(i) => IntIsDecoded(config.toDouble, i);
    case UInt(u) => IntIsDecoded(config.toDouble, u);
    case Arr(items) =>
      var k :| 0 <= k < |items| && !Readable(config, items[k].value);
      EntrySlot(items, k);
      var i: nat := items[k].key.index;
      ItemDocAt(items, Slots(items), i);
      NotReadable(config, items[k].value);
      ItemRefused(config, DocOf(v), i);
    case Obj(members) =>
      var k :| 0 <= k < |members| && !Readable(config, members[k].value);
      MemberDocAt(members, |members|, k);
      NotReadable(config, members[k].value);
      MemberRefused(config, DocOf(v), k);
    case _ =>
  }

  /** Every entry of an array stands in one of its slots. */
  lemma EntrySlot(items: seq<Entry>, k: nat)
    requires Writable(Arr(items)) && k < |items|
    ensures items[k].key.Index? && 0 <= items[k].key.index < Slots(items)
    ensures Writable(items[k].value) && Size(items[k].value) <= MapSize(items)
            && At(items, items[k].key) == items[k].value
  {
    hide LowerBound;
    AtEntry(items, k);
    EntryIsSmaller(items, k);
    assert items[k] in items && items[|items| - 1] in items;
    if k < |items| - 1 {
      assert KeyLess(items[k].key, items[|items| - 1].key);
    }
  }

  /** A written value is read back if and only if every integer in it is exact or left to `sscanf`, which
      then has to read it. */
  lemma ReadsBackIff(config: Config, t: string, v: Value, previous: Value, errors: Errors)
    requires Writable(v) && Spaced(t, Tokens(v))
    ensures ReadValue(config, t, previous, errors).ok <==> Readable(config, v)
  {
    hide Spaced, Tokens, DocTokens, DocOf, Canon, Meaning, Accepted, Lexical, ReadValue, Writable, Readable;
    assert Tokens(v) + [] == Tokens(v);
    if Readable(config, v) {
      ReadsBack(config, t, v, [], previous, errors);
    } else {
      TokensOfDoc(v);
      NotReadable(config, v);
      DocReads(config, t, DocOf(v), [], previous, errors);
    }
  }
}
