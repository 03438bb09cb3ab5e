/** The layout pass of the styled writer without its state, and what it means
    (android/jni/jsoncpp/json_writer.cpp:266-480). */
module JsonLayout {
  import opened JsonValue
  import opened JsonLexer
  import opened JsonGrammar
  import opened JsonText

  const RIGHT_MARGIN := 74
  const INDENT: string := "   "

  /** `Value::size` */
  function ValueSize(v: Value): nat {
    match v
    case Arr(items) => Slots(items)
    case Obj(members) => |members|
    case _ => 0
  }

  /** A value written in one piece: a scalar, an empty array or an empty object. */
  predicate Plain(v: Value) {
    ValueSize(v) == 0
  }

  function PlainText(v: Value): string
    requires Writable(v) && Plain(v)
  {
    match v
    case Arr(_) => "[]"
    case Obj(_) => "{}"
    case Null => "null"
    case Int(i) => IntText(i)
    case UInt(u) => Decimal(u)
    case Str(s) => Quoted(s.value)
    case Bool(b) => if b then "true" else "false"
    case Real(_) => []
  }

  /** `writeIndent` */
  function Indented(doc: string, indent: string): string {
    if doc != [] && doc[|doc| - 1] == ' ' then doc
    else if doc != [] && doc[|doc| - 1] != '\n' then doc + "\n" + indent
    else doc + indent
  }

  predicate AllPlain(items: seq<Entry>)
    requires Writable(Arr(items))
  {
    forall i :: 0 <= i < Slots(items) ==> Plain(At(items, Index(i)))
  }

  function PlainTexts(items: seq<Entry>, count: nat): (texts: seq<string>)
    requires Writable(Arr(items)) && AllPlain(items) && count <= Slots(items)
    ensures |texts| == count
  {
    if count == 0 then []
    else
      AtIsSmaller(items, Index(count - 1));
      assert Plain(At(items, Index(count - 1)));
      PlainTexts(items, count - 1) + [PlainText(At(items, Index(count - 1)))]
  }

  function TotalLength(texts: seq<string>): nat {
    if texts == [] then 0 else TotalLength(texts[..|texts| - 1]) + |texts[|texts| - 1]|
  }

  /** `isMultineArray`: many items, an item with items of its own, or a line that is too long. */
  predicate MultiLine(items: seq<Entry>)
    requires Writable(Arr(items)) && Slots(items) > 0
  {
    || Slots(items) * 3 >= RIGHT_MARGIN
    || !AllPlain(items)
    || 4 + (Slots(items) - 1) * 2 + TotalLength(PlainTexts(items, Slots(items))) >= RIGHT_MARGIN
  }

  /** The document after `writeValue` outside of `isMultineArray`. */
  function Layout(doc: string, indent: string, v: Value): string
    requires Writable(v)
    decreases Size(v), 1, 0
  {
    if Plain(v) then doc + PlainText(v)
    else
      match v
      case Arr(items) =>
        if MultiLine(items) then Indented(LayoutItems(Indented(doc, indent) + "[", indent + INDENT, items, 0), indent)
            + "]"
        else doc + "[ " + OneLine(PlainTexts(items, Slots(items)), 0) + " ]"
      case Obj(members) => Indented(LayoutMembers(Indented(doc, indent) + "{", indent + INDENT, members, 0), indent)
          + "}"
      case _ => doc
  }

  function OneLine(texts: seq<string>, from: nat): string
    decreases |texts| - from
  {
    if from >= |texts| then [] else (if from == 0 then "" else ", ") + texts[from] + OneLine(texts, from + 1)
  }

  /** The slots of an array from one on, each on its line. */
  function LayoutItems(doc: string, indent: string, items: seq<Entry>, from: nat): string
    requires Writable(Arr(items))
    decreases 1 + MapSize(items), 0, Slots(items) - from
  {
    if from >= Slots(items) then doc
    else
      AtIsSmaller(items, Index(from));
      var d := Layout(Indented(doc, indent), indent, At(items, Index(from)));
      LayoutItems(if from + 1 < Slots(items) then d + "," else d, indent, items, from + 1)
  }

  function LayoutMembers(doc: string, indent: string, members: seq<Entry>, from: nat): string
    requires Writable(Obj(members))
    decreases 1 + MapSize(members), 0, |members| - from
  {
    if from >= |members| then doc
    else
      EntryIsSmaller(members, from);
      var d := Layout(Indented(doc, indent) + Quoted(members[from].key.name) + " : ", indent, members[from].value);
      LayoutMembers(if from + 1 < |members| then d + "," else d, indent, members, from + 1)
  }

  // ---- Meaning ---------------------------------------------------------------------------------------

  /** The document has grown by these tokens and white space. */
  predicate Writes(doc: string, doc': string, tokens: seq<string>) {
    |doc| <= |doc'| && doc'[..|doc|] == doc && Spaced(doc'[|doc|..], tokens)
  }

  lemma WritesThen(a: string, b: string, c: string, s: seq<string>, t: seq<string>)
    requires Writes(a, b, s) && Writes(b, c, t) && Solid(s)
    ensures Writes(a, c, s + t)
  {
    hide Spaced, Solid;
    SpacedAppend(b[|a|..], s, c[|b|..], t);
    assert c[..|a|] == c[..|b|][..|a|];
    assert c[|a|..] == b[|a|..] + c[|b|..];
  }

  lemma WritesText(doc: string, token: string)
    requires token != [] && !IsSpace(token[0])
    ensures Writes(doc, doc + token, [token])
  {
    SpacedOne(token);
    assert (doc + token)[|doc|..] == token;
  }

  lemma WritesSpace(doc: string, space: string)
    requires AllSpaces(space)
    ensures Writes(doc, doc + space, [])
  {
    SpacesAreNoTokens(space);
    assert (doc + space)[|doc|..] == space;
  }

  lemma IndentedWrites(doc: string, indent: string)
    requires AllSpaces(indent)
    ensures Writes(doc, Indented(doc, indent), [])
  {
    if doc != [] && doc[|doc| - 1] == ' ' {
      assert doc + [] == doc;
      WritesSpace(doc, []);
    } else if doc != [] && doc[|doc| - 1] != '\n' {
      assert doc + "\n" + indent == doc + ("\n" + indent);
      WritesSpace(doc, "\n" + indent);
    } else {
      WritesSpace(doc, indent);
    }
  }

  /** White space, then one token. */
  lemma WritesAfterSpace(doc: string, spaced: string, token: string)
    requires Writes(doc, spaced, []) && token != [] && !IsSpace(token[0])
    ensures Writes(doc, spaced + token, [token])
  {
    WritesText(spaced, token);
    WritesThen(doc, spaced, spaced + token, [], [token]);
    assert [] + [token] == [token];
  }

  lemma PlainWrites(doc: string, v: Value)
    requires Writable(v) && Plain(v)
    ensures Writes(doc, doc + PlainText(v), Tokens(v)) && Solid(Tokens(v))
  {
    match v
    case Arr(items) =>
      assert Tokens(v) == ["[", "]"];
      PairWrites(doc, "[", "]");
    case Obj(members) =>
      assert Tokens(v) == ["{", "}"];
      PairWrites(doc, "{", "}");
    case Int(i) => NumberStart(if i < 0 then -i else i); WritesText(doc, PlainText(v));
    case UInt(u) => NumberStart(u); WritesText(doc, PlainText(v));
    case Real(_) =>
    case _ => WritesText(doc, PlainText(v));
  }

  lemma PairWrites(doc: string, open: string, close: string)
    requires |open| == |close| == 1 && !IsSpace(open[0]) && !IsSpace(close[0])
    ensures Writes(doc, doc + (open + close), [open, close])
  {
    WritesText(doc, open);
    WritesText(doc + open, close);
    WritesThen(doc, doc + open, doc + open + close, [open], [close]);
    assert doc + open + close == doc + (open + close);
    assert [open] + [close] == [open, close];
  }

  /** What the layout pass adds to the document is the tokens of the value, whatever the layout. */
  lemma {:induction false} LayoutWrites(doc: string, indent: string, v: Value)
    requires Writable(v) && AllSpaces(indent)
    ensures Writes(doc, Layout(doc, indent, v), Tokens(v))
    decreases Size(v), 1, 0
  {
    hide Spaced, Solid, LayoutItems, LayoutMembers, MultiLine, Writes, ItemTokens, MemberTokens, Indented, Writable,
         AllSpaces;
    if Plain(v) {
      PlainWrites(doc, v);
    } else {
      match v
      case Arr(items) => if MultiLine(items) { LinesWrite(doc, indent, items); } else { OneLineWrites(doc, items); }
      case Obj(members) => ObjectWrites(doc, indent, members);
    }
  }

  lemma {:induction false} ItemsWrite(doc: string, indent: string, items: seq<Entry>, from: nat)
    requires Writable(Arr(items)) && AllSpaces(indent)
    ensures var d := if 0 < from < Slots(items) then doc + "," else doc;
            Writes(doc, LayoutItems(d, indent, items, from), ItemTokens(items, from))
    decreases 1 + MapSize(items), 0, Slots(items) - from
  {
    hide Spaced, Solid, Layout, Writes, Tokens, Indented, Writable, AllSpaces;
    if from >= Slots(items) {
      NothingWrites(doc);
    } else {
      SlotIsWritable(items, from);
      CommaWrites(doc, from);
      var a := if from > 0 then doc + "," else doc;
      IndentedWrites(a, indent);
      var b := Indented(a, indent);
      var v := At(items, Index(from));
      var c := Layout(b, indent, v);
      LayoutWrites(b, indent, v);
      var e := LayoutItems(if from + 1 < Slots(items) then c + "," else c, indent, items, from + 1);
      ItemsWrite(c, indent, items, from + 1);
      TokensAreSolid(v);
      FourWrite(doc, a, b, c, e, Comma(from), Tokens(v), ItemTokens(items, from + 1));
    }
  }

  lemma NothingWrites(doc: string)
    ensures Writes(doc, doc, [])
  {
    assert doc + [] == doc;
    WritesSpace(doc, []);
  }

  lemma CommaWrites(doc: string, from: nat)
    ensures Writes(doc, if from > 0 then doc + "," else doc, Comma(from)) && Solid(Comma(from))
  {
    if from > 0 {
      WritesText(doc, ",");
    } else {
      NothingWrites(doc);
    }
  }

  /** Four pieces, the second of them white space. */
  lemma FourWrite(a: string, b: string, c: string, d: string, e: string, s: seq<string>, t: seq<string>, u: seq<string>)
    requires Writes(a, b, s) && Writes(b, c, []) && Writes(c, d, t) && Writes(d, e, u) && Solid(s) && Solid(t)
    ensures Writes(a, e, s + t + u)
  {
    hide Writes, Solid;
    EmptySolid();
    WritesThen(a, b, c, s, []);
    assert s + [] == s;
    WritesThen(a, c, d, s, t);
    SolidAppend(s, t);
    WritesThen(a, d, e, s + t, u);
  }

  lemma BracketsWrite(doc: string, begun: string, inner: string, closing: string, open: string, close: string,
      tokens: seq<string>)
    requires Writes(doc, begun, []) && Writes(begun + open, inner, tokens) && Writes(inner, closing, [])
             && Solid(tokens)
    requires |open| == |close| == 1 && !IsSpace(open[0]) && !IsSpace(close[0])
    ensures Writes(doc, closing + close, [open] + tokens + [close])
  {
    hide Writes;
    WritesAfterSpace(doc, begun, open);
    WritesAfterSpace(inner, closing, close);
    NothingWrites(inner);
    FourWrite(doc, begun + open, begun + open, inner, closing + close, [open], tokens, [close]) by {
      NothingWrites(begun + open);
    }
  }

  lemma {:induction false} LinesWrite(doc: string, indent: string, items: seq<Entry>)
    requires Writable(Arr(items)) && AllSpaces(indent)
    ensures Writes(doc, Indented(LayoutItems(Indented(doc, indent) + "[", indent + INDENT, items, 0), indent) + "]",
            Tokens(Arr(items)))
    decreases 1 + MapSize(items), 0, Slots(items) + 1
  {
    hide Spaced, Solid, LayoutItems, Writes, ItemTokens, Indented, Writable, AllSpaces;
    DeeperIsSpaces(indent);
    var begun := Indented(doc, indent);
    var inner := LayoutItems(begun + "[", indent + INDENT, items, 0);
    IndentedWrites(doc, indent);
    ItemsWrite(begun + "[", indent + INDENT, items, 0);
    IndentedWrites(inner, indent);
    ItemsAreSolid(items, 0);
    BracketsWrite(doc, begun, inner, Indented(inner, indent), "[", "]", ItemTokens(items, 0));
  }

  lemma DeeperIsSpaces(indent: string)
    requires AllSpaces(indent)
    ensures AllSpaces(indent + INDENT)
  {
  }

  lemma {:induction false} ObjectWrites(doc: string, indent: string, members: seq<Entry>)
    requires Writable(Obj(members)) && AllSpaces(indent)
    ensures Writes(doc, Indented(LayoutMembers(Indented(doc, indent) + "{", indent + INDENT, members, 0), indent)
            + "}", Tokens(Obj(members)))
    decreases 1 + MapSize(members), 0, |members| + 1
  {
    hide Spaced, Solid, LayoutMembers, Writes, MemberTokens, Indented, Writable, AllSpaces;
    DeeperIsSpaces(indent);
    var begun := Indented(doc, indent);
    var inner := LayoutMembers(begun + "{", indent + INDENT, members, 0);
    IndentedWrites(doc, indent);
    MembersWrite(begun + "{", indent + INDENT, members, 0);
    IndentedWrites(inner, indent);
    MembersAreSolid(members, 0);
    BracketsWrite(doc, begun, inner, Indented(inner, indent), "{", "}", MemberTokens(members, 0));
  }

  lemma {:induction false} MembersWrite(doc: string, indent: string, members: seq<Entry>, from: nat)
    requires Writable(Obj(members)) && AllSpaces(indent)
    ensures var d := if 0 < from < |members| then doc + "," else doc;
            Writes(doc, LayoutMembers(d, indent, members, from), MemberTokens(members, from))
    decreases 1 + MapSize(members), 0, |members| - from
  {
    hide Spaced, Solid, Layout, Writes, Tokens, Indented, Writable, AllSpaces, Quoted;
    if from >= |members| {
      NothingWrites(doc);
    } else {
      MemberIsWritable(members, from);
      var v := members[from].value;
      var key := members[from].key.name;
      CommaWrites(doc, from);
      var a := if from > 0 then doc + "," else doc;
      IndentedWrites(a, indent);
      var b := Indented(a, indent);
      var name := b + Quoted(key) + " : ";
      var c := Layout(name, indent, v);
      LayoutWrites(name, indent, v);
      var e := LayoutMembers(if from + 1 < |members| then c + "," else c, indent, members, from + 1);
      MembersWrite(c, indent, members, from + 1);
      TokensAreSolid(v);
      PairOfNames(b, key, c, Tokens(v));
      var pair := [Quoted(key), ":"] + Tokens(v);
      FourWrite(doc, a, b, c, e, Comma(from), pair, MemberTokens(members, from + 1));
      assert Comma(from) + pair == Comma(from) + [Quoted(key), ":"] + Tokens(v);
    }
  }

  /** A name with its colon, and what its value writes behind them. */
  lemma PairOfNames(doc: string, name: string, after: string, tokens: seq<string>)
    requires Writes(doc + Quoted(name) + " : ", after, tokens) && Solid(tokens)
    ensures Writes(doc, after, [Quoted(name), ":"] + tokens) && Solid([Quoted(name), ":"] + tokens)
  {
    hide Solid, Writes, Quoted;
    NameWrites(doc, name);
    WritesThen(doc, doc + Quoted(name) + " : ", after, [Quoted(name), ":"], tokens);
    SolidAppend([Quoted(name), ":"], tokens);
  }

  lemma NameWrites(doc: string, name: string)
    ensures Writes(doc, doc + Quoted(name) + " : ", [Quoted(name), ":"]) && Solid([Quoted(name), ":"])
  {
    hide Spaced, EscapeAll, Writes;
    var a := doc + Quoted(name);
    assert Quoted(name)[0] == '"';
    WritesText(doc, Quoted(name));
    WritesSpace(a, " ");
    WritesAfterSpace(a, a + " ", ":");
    WritesSpace(a + " " + ":", " ");
    WritesThen(a, a + " " + ":", a + " " + ":" + " ", [":"], []);
    assert [":"] + [] == [":"];
    WritesThen(doc, a, a + " " + ":" + " ", [Quoted(name)], [":"]);
    assert a + " " + ":" + " " == a + " : ";
    assert [Quoted(name)] + [":"] == [Quoted(name), ":"];
  }

  // ---- One line --------------------------------------------------------------------------------------

  lemma {:induction false} PlainTextAt(items: seq<Entry>, count: nat, i: nat)
    requires Writable(Arr(items)) && AllPlain(items) && i < count <= Slots(items)
    ensures Writable(At(items, Index(i))) && Plain(At(items, Index(i)))
    ensures PlainTexts(items, count)[i] == PlainText(At(items, Index(i)))
  {
    hide Tokens, PlainText, Writable;
    SlotIsWritable(items, i);
    if i < count - 1 {
      PlainTextAt(items, count - 1, i);
    }
  }

  lemma OneLineStep(doc: string, texts: seq<string>, from: nat)
    requires from <= |texts|
    ensures doc + OneLine(texts, from)
         == if from == |texts| then doc
            else
              (if from > 0 then doc + "," else doc) + (if from > 0 then " " else "")
              + texts[from] + OneLine(texts, from + 1)
  {
    assert ", " == "," + " ";
  }

  lemma {:induction false} OneLineFrom(doc: string, items: seq<Entry>, from: nat)
    requires Writable(Arr(items)) && AllPlain(items) && from <= Slots(items)
    ensures Writes(doc, doc + OneLine(PlainTexts(items, Slots(items)), from), ItemTokens(items, from))
    decreases Slots(items) - from
  {
    hide Spaced, Solid, Writes, Tokens, PlainText, Writable, AllPlain, OneLine, PlainTexts;
    var texts := PlainTexts(items, Slots(items));
    OneLineStep(doc, texts, from);
    if from == Slots(items) {
      NothingWrites(doc);
    } else {
      PlainTextAt(items, Slots(items), from);
      var v := At(items, Index(from));
      CommaWrites(doc, from);
      var a := if from > 0 then doc + "," else doc;
      var space := if from > 0 then " " else "";
      var b := a + space;
      WritesSpace(a, space);
      var c := b + PlainText(v);
      PlainWrites(b, v);
      OneLineFrom(c, items, from + 1);
      var e := c + OneLine(texts, from + 1);
      FourWrite(doc, a, b, c, e, Comma(from), Tokens(v), ItemTokens(items, from + 1));
    }
  }

  lemma OneLineWrites(doc: string, items: seq<Entry>)
    requires Writable(Arr(items)) && Slots(items) > 0 && !MultiLine(items)
    ensures AllPlain(items)
    ensures Writes(doc, doc + "[ " + OneLine(PlainTexts(items, Slots(items)), 0) + " ]", Tokens(Arr(items)))
  {
    hide Spaced, Solid, Writes, Writable, AllPlain, PlainTexts, OneLine, ItemTokens;
    EmptySolid();
    var line := OneLine(PlainTexts(items, Slots(items)), 0);
    NothingWrites(doc);
    WritesSpace(doc + "[", " ");
    var inner := doc + "[" + " " + line;
    OneLineFrom(doc + "[" + " ", items, 0);
    WritesThen(doc + "[", doc + "[" + " ", inner, [], ItemTokens(items, 0));
    assert [] + ItemTokens(items, 0) == ItemTokens(items, 0);
    WritesSpace(inner, " ");
    ItemsAreSolid(items, 0);
    BracketsWrite(doc, doc, inner, inner + " ", "[", "]", ItemTokens(items, 0));
    assert inner + " " + "]" == doc + "[ " + line + " ]";
  }
}
