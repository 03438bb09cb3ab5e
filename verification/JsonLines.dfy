/** The text of the styled writer line by line (android/jni/jsoncpp/json_writer.cpp:276-457). */
module JsonLines {
  import opened Basics
  import opened JsonValue
  import opened JsonGrammar
  import opened JsonText
  import opened JsonLayout

  // ---- What the lines are ------------------------------------------------------------------------------

  function Spaces(depth: nat): string {
    seq(3 * depth, _ => ' ')
  }

  /** A scalar, or an empty container. */
  predicate NoContent(v: Value) {
    match v
    case Arr(items) => items == []
    case Obj(members) => members == []
    case _ => true
  }

  /** The items of an array from one on, with a comma and a space between them. */
  function Separated(items: seq<Entry>, from: nat): string
    requires Writable(Arr(items))
    decreases Slots(items) - from
  {
    if from >= Slots(items) then ""
    else
      AtIsSmaller(items, Index(from));
      (if from == 0 then "" else ", ") + Joined(Tokens(At(items, Index(from))), ":") + Separated(items, from + 1)
  }

  function ArrayText(items: seq<Entry>): string
    requires Writable(Arr(items))
  {
    "[ " + Separated(items, 0) + " ]"
  }

  /** Few items without content of their own, and a text that fits. */
  predicate OnOneLine(items: seq<Entry>)
    requires Writable(Arr(items))
  {
    && 3 * Slots(items) < 74
    && (forall i :: 0 <= i < Slots(items) ==> NoContent(At(items, Index(i))))
    && |ArrayText(items)| < 74
  }

  /** The first of the lines behind something else. */
  function Opened(prefix: string, lines: seq<string>): (r: seq<string>)
    requires lines != []
    ensures r != []
  {
    [prefix + lines[0]] + lines[1..]
  }

  /** A comma behind the last of the lines. */
  function Closed(lines: seq<string>, comma: bool): (r: seq<string>)
    requires lines != []
    ensures r != []
  {
    if comma then lines[..|lines| - 1] + [lines[|lines| - 1] + ","] else lines
  }

  /** The lines of a value at a depth, the first one without its indentation. */
  function Lines(v: Value, depth: nat): (lines: seq<string>)
    requires Writable(v)
    ensures lines != []
    decreases Size(v), 1, 0
  {
    if NoContent(v) then [Joined(Tokens(v), ":")]
    else
      match v
      case Arr(items) =>
        if OnOneLine(items) then [ArrayText(items)]
        else ["["] + ItemLines(items, depth + 1, 0) + [Spaces(depth) + "]"]
      case Obj(members) => ["{"] + MemberLines(members, depth + 1, 0) + [Spaces(depth) + "}"]
      case _ => [""]
  }

  /** Every item begins a line at its depth. */
  function ItemLines(items: seq<Entry>, depth: nat, from: nat): seq<string>
    requires Writable(Arr(items))
    decreases 1 + MapSize(items), 0, Slots(items) - from
  {
    if from >= Slots(items) then []
    else
      AtIsSmaller(items, Index(from));
      Closed(Opened(Spaces(depth), Lines(At(items, Index(from)), depth)), from + 1 < Slots(items))
          + ItemLines(items, depth, from + 1)
  }

  /** So does every member, with its name. */
  function MemberLines(members: seq<Entry>, depth: nat, from: nat): seq<string>
    requires Writable(Obj(members))
    decreases 1 + MapSize(members), 0, |members| - from
  {
    if from >= |members| then []
    else
      EntryIsSmaller(members, from);
      Closed(Opened(Spaces(depth) + Quoted(members[from].key.name) + " : ", Lines(members[from].value, depth)),
          from + 1 < |members|)
          + MemberLines(members, depth, from + 1)
  }

  /** Cutting a text at its line feeds. */
  function Split(t: string): (lines: seq<string>)
    ensures lines != []
  {
    if t == [] then [[]]
    else if t[0] == '\n' then [[]] + Split(t[1..])
    else Opened([t[0]], Split(t[1..]))
  }

  // ---- Lines and texts ---------------------------------------------------------------------------------

  function Text(lines: seq<string>): string
    requires lines != []
  {
    if |lines| == 1 then lines[0] else lines[0] + "\n" + Text(lines[1..])
  }

  lemma {:induction false} TextAppend(a: seq<string>, b: seq<string>)
    requires a != [] && b != []
    ensures Text(a + b) == Text(a) + "\n" + Text(b)
    decreases |a|
  {
    assert (a + b)[1..] == a[1..] + b;
    if |a| == 1 {
      assert a[1..] + b == b;
    } else {
      TextAppend(a[1..], b);
    }
  }

  lemma TextOpened(prefix: string, lines: seq<string>)
    requires lines != []
    ensures Text(Opened(prefix, lines)) == prefix + Text(lines)
  {
    assert Opened(prefix, lines)[1..] == lines[1..];
  }

  lemma TextClosed(lines: seq<string>, comma: bool)
    requires lines != []
    ensures Text(Closed(lines, comma)) == Text(lines) + (if comma then "," else "")
  {
    var n := |lines| - 1;
    if comma && n > 0 {
      TextAppend(lines[..n], [lines[n] + ","]);
      TextAppend(lines[..n], [lines[n]]);
      assert lines == lines[..n] + [lines[n]];
    } else if comma {
      assert lines[..n] + [lines[n] + ","] == [lines[0] + ","];
    }
  }

  predicate NoBreaks(lines: seq<string>) {
    forall l :: l in lines ==> '\n' !in l
  }

  lemma OpenedNothing(line: string, lines: seq<string>)
    ensures Opened(line, [[]] + lines) == [line] + lines
  {
    assert ([[]] + lines)[1..] == lines;
    assert line + [] == line;
  }

  lemma {:induction false} SplitText(lines: seq<string>)
    requires lines != [] && NoBreaks(lines)
    ensures Split(Text(lines)) == lines
    decreases |lines|
  {
    assert lines[0] in lines;
    if |lines| == 1 {
      SplitLine(lines[0], []);
      assert lines[0] + [] == lines[0];
    } else {
      assert forall l :: l in lines[1..] ==> l in lines;
      SplitText(lines[1..]);
      var rest := "\n" + Text(lines[1..]);
      assert rest[1..] == Text(lines[1..]);
      assert lines[0] + rest == Text(lines);
      SplitLine(lines[0], rest);
      assert Split(rest) == [[]] + lines[1..];
      OpenedNothing(lines[0], lines[1..]);
    }
  }

  lemma {:induction false} SplitLine(l: string, rest: string)
    requires '\n' !in l && (rest != [] ==> rest[0] == '\n')
    ensures Split(l + rest) == Opened(l, Split(rest))
    decreases |l|
  {
    if l == [] {
      assert l + rest == rest;
      assert Split(rest) == Opened([], Split(rest));
    } else {
      assert (l + rest)[1..] == l[1..] + rest;
      SplitLine(l[1..], rest);
      assert [l[0]] + (l[1..] + Split(rest)[0]) == l + Split(rest)[0];
    }
  }

  // ---- The layout writes these lines -------------------------------------------------------------------

  /** Nothing has to be written in front of a value here. */
  predicate Fresh(doc: string, depth: nat) {
    if doc == [] then depth == 0 else doc[|doc| - 1] == ' '
  }

  /** A line feed has to be written in front of a value here. */
  predicate Filled(doc: string) {
    doc != [] && doc[|doc| - 1] != ' ' && doc[|doc| - 1] != '\n'
  }

  lemma FreshLine(doc: string, depth: nat)
    requires Filled(doc)
    ensures Indented(doc, Spaces(depth)) == doc + "\n" + Spaces(depth)
    ensures depth > 0 ==> Fresh(Indented(doc, Spaces(depth)), depth)
  {
  }

  lemma FreshStays(doc: string, depth: nat)
    requires Fresh(doc, depth)
    ensures Indented(doc, Spaces(depth)) == doc
  {
    assert depth == 0 ==> Spaces(depth) == [];
    assert doc + [] == doc;
  }

  lemma Deeper(depth: nat)
    ensures Spaces(depth) + INDENT == Spaces(depth + 1)
  {
  }

  lemma NoContentIsPlain(v: Value)
    requires Writable(v)
    ensures NoContent(v) <==> Plain(v)
    ensures Plain(v) ==> PlainText(v) == Joined(Tokens(v), ":")
  {
    match v
    case Arr(items) => JoinedArray(items, ":"); assert items != [] ==> items[|items| - 1] in items;
    case Obj(members) => JoinedObject(members, ":");
    case Real(_) =>
    case _ => JoinedScalar(v, ":");
  }

  lemma {:induction false} SameLine(items: seq<Entry>, from: nat)
    requires Writable(Arr(items)) && AllPlain(items)
    ensures OneLine(PlainTexts(items, Slots(items)), from) == Separated(items, from)
    decreases Slots(items) - from
  {
    hide Writable, PlainText, Tokens, Joined, AllPlain, PlainTexts;
    if from < Slots(items) {
      PlainTextAt(items, Slots(items), from);
      NoContentIsPlain(At(items, Index(from)));
      SameLine(items, from + 1);
    }
  }

  lemma {:induction false} LengthOfLine(texts: seq<string>, from: nat)
    requires from <= |texts|
    ensures |OneLine(texts, from)| + TotalLength(texts[..from])
            == TotalLength(texts) + 2 * (|texts| - from) - (if from == 0 && texts != [] then 2 else 0)
    decreases |texts| - from
  {
    if from == |texts| {
      assert texts[..from] == texts;
    } else {
      assert texts[..from + 1][..from] == texts[..from] && texts[..from + 1][from] == texts[from];
      LengthOfLine(texts, from + 1);
    }
  }

  /** An array is written on several lines if and only if it does not fit on one. */
  lemma OneLineIff(items: seq<Entry>)
    requires Writable(Arr(items)) && Slots(items) > 0
    ensures MultiLine(items) <==> !OnOneLine(items)
    ensures !MultiLine(items) ==> AllPlain(items) && OneLine(PlainTexts(items, Slots(items)), 0) == Separated(items, 0)
  {
    hide Writable, Separated, OneLine, PlainTexts, TotalLength, NoContent, Plain;
    forall i | 0 <= i < Slots(items)
      ensures Writable(At(items, Index(i))) && (NoContent(At(items, Index(i))) <==> Plain(At(items, Index(i))))
    {
      SlotIsWritable(items, i);
      NoContentIsPlain(At(items, Index(i)));
    }
    if AllPlain(items) {
      var texts := PlainTexts(items, Slots(items));
      SameLine(items, 0);
      LengthOfLine(texts, 0);
      assert TotalLength(texts[..0]) == 0 by { NoLength(); }
    }
  }

  lemma NoLength()
    ensures TotalLength([]) == 0
  {
  }

  // ---- Ends of values ----------------------------------------------------------------------------------

  lemma {:induction false} EscapedHasNoBreak(s: string)
    ensures '\n' !in EscapeAll(s)
  {
    if s != [] {
      EscapedHasNoBreak(s[1..]);
      assert '\n' !in Escape(s[0]);
    }
  }

  lemma QuotedEnds(s: string)
    ensures Filled(Quoted(s)) && '\n' !in Quoted(s)
  {
    hide EscapeAll;
    EscapedHasNoBreak(s);
  }

  lemma NumberEnds(n: nat)
    ensures Filled(Decimal(n)) && '\n' !in Decimal(n)
    ensures Filled("-" + Decimal(n)) && '\n' !in "-" + Decimal(n)
  {
    hide Decimal;
    DecimalDigits(n);
    assert Decimal(n)[|Decimal(n)| - 1] in Decimal(n);
  }

  lemma PlainEnds(v: Value)
    requires Writable(v) && NoContent(v)
    ensures Filled(Joined(Tokens(v), ":")) && '\n' !in Joined(Tokens(v), ":")
  {
    hide Joined, EscapeAll, Decimal, Tokens;
    NoContentIsPlain(v);
    match v
    case Int(i) => NumberEnds(if i < 0 then -i else i);
    case UInt(u) => NumberEnds(u);
    case Str(s) => QuotedEnds(s.value);
    case _ =>
  }

  /** The document behind a value, and the value's lines. */
  predicate Ends(lines: seq<string>) {
    lines != [] && NoBreaks(lines) && Filled(lines[|lines| - 1])
  }

  lemma {:induction false} TextEnds(lines: seq<string>)
    requires Ends(lines)
    ensures Filled(Text(lines))
    decreases |lines|
  {
    if |lines| > 1 {
      assert forall l :: l in lines[1..] ==> l in lines;
      TextEnds(lines[1..]);
    }
  }

  lemma OpenedEnds(prefix: string, lines: seq<string>)
    requires Ends(lines) && '\n' !in prefix
    ensures Ends(Opened(prefix, lines))
  {
    assert lines[0] in lines && forall l :: l in lines[1..] ==> l in lines;
    if |lines| == 1 {
      assert (prefix + lines[0])[|prefix + lines[0]| - 1] == lines[0][|lines[0]| - 1];
    }
  }

  lemma ClosedEnds(lines: seq<string>, comma: bool)
    requires Ends(lines)
    ensures Ends(Closed(lines, comma))
  {
    var n := |lines| - 1;
    assert lines[n] in lines && forall l :: l in lines[..n] ==> l in lines;
  }

  lemma AppendEnds(a: seq<string>, b: seq<string>)
    requires NoBreaks(a) && Ends(b)
    ensures Ends(a + b)
  {
  }

  lemma SpacesHaveNoBreak(depth: nat)
    ensures '\n' !in Spaces(depth)
  {
  }

  lemma {:induction false} SeparatedHasNoBreak(items: seq<Entry>, from: nat)
    requires Writable(Arr(items)) && forall i :: 0 <= i < Slots(items) ==> NoContent(At(items, Index(i)))
    ensures '\n' !in Separated(items, from)
    decreases Slots(items) - from
  {
    hide Writable, Joined, Tokens, NoContent;
    if from < Slots(items) {
      SlotIsWritable(items, from);
      PlainEnds(At(items, Index(from)));
      SeparatedHasNoBreak(items, from + 1);
    }
  }

  /** No line has a line feed in it, and none but the last character of the last line ends the value. */
  lemma {:induction false} LinesEnd(v: Value, depth: nat)
    requires Writable(v)
    ensures Ends(Lines(v, depth))
    decreases Size(v), 1, 0
  {
    hide ItemLines, MemberLines, Separated, Joined, Tokens, Writable;
    if NoContent(v) {
      PlainEnds(v);
    } else {
      SpacesHaveNoBreak(depth);
      match v
      case Arr(items) =>
        if OnOneLine(items) {
          SeparatedHasNoBreak(items, 0);
        } else {
          ItemLinesEnd(items, depth + 1, 0);
          AppendEnds(["["] + ItemLines(items, depth + 1, 0), [Spaces(depth) + "]"]);
        }
      case Obj(members) =>
        MemberLinesEnd(members, depth + 1, 0);
        AppendEnds(["{"] + MemberLines(members, depth + 1, 0), [Spaces(depth) + "}"]);
    }
  }

  lemma {:induction false} ItemLinesEnd(items: seq<Entry>, depth: nat, from: nat)
    requires Writable(Arr(items))
    ensures NoBreaks(ItemLines(items, depth, from))
    decreases 1 + MapSize(items), 0, Slots(items) - from
  {
    hide Lines, Writable, Slots;
    if from < Slots(items) {
      SlotIsWritable(items, from);
      LinesEnd(At(items, Index(from)), depth);
      SpacesHaveNoBreak(depth);
      OpenedEnds(Spaces(depth), Lines(At(items, Index(from)), depth));
      ClosedEnds(Opened(Spaces(depth), Lines(At(items, Index(from)), depth)), from + 1 < Slots(items));
      ItemLinesEnd(items, depth, from + 1);
    }
  }

  lemma {:induction false} MemberLinesEnd(members: seq<Entry>, depth: nat, from: nat)
    requires Writable(Obj(members))
    ensures NoBreaks(MemberLines(members, depth, from))
    decreases 1 + MapSize(members), 0, |members| - from
  {
    hide Lines, Writable, Quoted;
    if from < |members| {
      MemberIsWritable(members, from);
      var v, name := members[from].value, Quoted(members[from].key.name);
      LinesEnd(v, depth);
      SpacesHaveNoBreak(depth);
      QuotedEnds(members[from].key.name);
      OpenedEnds(Spaces(depth) + name + " : ", Lines(v, depth));
      ClosedEnds(Opened(Spaces(depth) + name + " : ", Lines(v, depth)), from + 1 < |members|);
      MemberLinesEnd(members, depth, from + 1);
    }
  }

  // ---- The theorem -------------------------------------------------------------------------------------

  lemma {:induction false} LayoutIsLines(doc: string, depth: nat, v: Value)
    requires Writable(v) && Fresh(doc, depth)
    ensures Layout(doc, Spaces(depth), v) == doc + Text(Lines(v, depth))
    decreases Size(v), 1, 0
  {
    hide LayoutItems, LayoutMembers, ItemLines, MemberLines, MultiLine, OnOneLine, Separated, OneLine, Joined, Tokens,
         Writable, PlainText, Spaces, Fresh, Indented, PlainTexts;
    NoContentIsPlain(v);
    if !Plain(v) {
      FreshStays(doc, depth);
      match v
      case Arr(items) =>
        OneLineIff(items);
        if MultiLine(items) {
          ArrayIsLines(doc, depth, items);
        } else {
          assert doc + "[ " + Separated(items, 0) + " ]" == doc + ArrayText(items);
        }
      case Obj(members) => ObjectIsLines(doc, depth, members);
    }
  }

  lemma Bracketed(doc: string, depth: nat, open: string, lines: seq<string>, close: string)
    requires lines != []
    ensures doc + open + "\n" + Text(lines) + "\n" + Spaces(depth) + close
            == doc + Text([open] + lines + [Spaces(depth) + close])
  {
    TextAppend([open] + lines, [Spaces(depth) + close]);
    TextAppend([open], lines);
  }

  lemma {:induction false} ArrayIsLines(doc: string, depth: nat, items: seq<Entry>)
    requires Writable(Arr(items)) && Slots(items) > 0
    ensures Indented(LayoutItems(doc + "[", Spaces(depth) + INDENT, items, 0), Spaces(depth)) + "]"
            == doc + Text(["["] + ItemLines(items, depth + 1, 0) + [Spaces(depth) + "]"])
    decreases 1 + MapSize(items), 0, Slots(items) + 1
  {
    hide LayoutItems, ItemLines, Writable, Spaces, Indented, Slots, Text;
    Deeper(depth);
    ItemsAreLines(doc + "[", depth + 1, items, 0);
    FreshLine(LayoutItems(doc + "[", Spaces(depth + 1), items, 0), depth);
    Bracketed(doc, depth, "[", ItemLines(items, depth + 1, 0), "]");
  }

  lemma {:induction false} ItemsAreLines(doc: string, depth: nat, items: seq<Entry>, from: nat)
    requires Writable(Arr(items)) && from < Slots(items) && depth > 0 && Filled(doc)
    ensures ItemLines(items, depth, from) != []
    ensures LayoutItems(doc, Spaces(depth), items, from) == doc + "\n" + Text(ItemLines(items, depth, from))
    ensures Filled(LayoutItems(doc, Spaces(depth), items, from))
    decreases 1 + MapSize(items), 0, Slots(items) - from
  {
    hide Layout, Lines, Writable, Spaces, Indented, Slots, Text, Ends, Opened, Closed;
    SlotIsWritable(items, from);
    var v, more := At(items, Index(from)), from + 1 < Slots(items);
    FreshLine(doc, depth);
    var begun := doc + "\n" + Spaces(depth);
    LayoutIsLines(begun, depth, v);
    LinesEnd(v, depth);
    var d := OneMore(doc, Spaces(depth), Lines(v, depth), more, ItemLines(items, depth, from + 1));
    if more {
      ItemsAreLines(d, depth, items, from + 1);
    }
  }

  /** The text behind one more item or member. */
  lemma OneMore(doc: string, prefix: string, lines: seq<string>, more: bool, rest: seq<string>) returns (d: string)
    requires lines != [] && Ends(lines)
    ensures d == doc + "\n" + prefix + Text(lines) + (if more then "," else "") && Filled(d)
    ensures var all := Closed(Opened(prefix, lines), more) + rest;
            if rest == [] then doc + "\n" + Text(all) == d else doc + "\n" + Text(all) == d + "\n" + Text(rest)
  {
    hide Text, Ends, Opened, Closed;
    d := doc + "\n" + prefix + Text(lines) + (if more then "," else "");
    TextEnds(lines);
    var first := Closed(Opened(prefix, lines), more);
    TextOpened(prefix, lines);
    TextClosed(Opened(prefix, lines), more);
    if rest == [] {
      assert first + rest == first;
    } else {
      TextAppend(first, rest);
    }
  }

  lemma {:induction false} ObjectIsLines(doc: string, depth: nat, members: seq<Entry>)
    requires Writable(Obj(members)) && members != []
    ensures Indented(LayoutMembers(doc + "{", Spaces(depth) + INDENT, members, 0), Spaces(depth)) + "}"
            == doc + Text(["{"] + MemberLines(members, depth + 1, 0) + [Spaces(depth) + "}"])
    decreases 1 + MapSize(members), 0, |members| + 1
  {
    hide LayoutMembers, MemberLines, Writable, Spaces, Indented, Text;
    Deeper(depth);
    MembersAreLines(doc + "{", depth + 1, members, 0);
    FreshLine(LayoutMembers(doc + "{", Spaces(depth + 1), members, 0), depth);
    Bracketed(doc, depth, "{", MemberLines(members, depth + 1, 0), "}");
  }

  lemma {:induction false} MembersAreLines(doc: string, depth: nat, members: seq<Entry>, from: nat)
    requires Writable(Obj(members)) && from < |members| && depth > 0 && Filled(doc)
    ensures MemberLines(members, depth, from) != []
    ensures LayoutMembers(doc, Spaces(depth), members, from) == doc + "\n" + Text(MemberLines(members, depth, from))
    ensures Filled(LayoutMembers(doc, Spaces(depth), members, from))
    decreases 1 + MapSize(members), 0, |members| - from
  {
    hide Layout, Lines, Writable, Spaces, Indented, Text, Ends, Opened, Closed, Quoted;
    MemberIsWritable(members, from);
    var v, name, more := members[from].value, Quoted(members[from].key.name), from + 1 < |members|;
    FreshLine(doc, depth);
    var prefix := Spaces(depth) + name + " : ";
    var begun := doc + "\n" + Spaces(depth) + name + " : ";
    assert begun == doc + "\n" + prefix;
    LayoutIsLines(begun, depth, v);
    LinesEnd(v, depth);
    var d := OneMore(doc, prefix, Lines(v, depth), more, MemberLines(members, depth, from + 1));
    if more {
      MembersAreLines(d, depth, members, from + 1);
    }
  }

  /** Cut at its line feeds, the text of the styled writer is these lines. */
  lemma StyledLines(v: Value)
    requires Writable(v)
    ensures Split(Layout([], [], v)) == Lines(v, 0)
    ensures Layout([], [], v) == Text(Lines(v, 0))
  {
    hide Layout, Lines, Text;
    assert Spaces(0) == [];
    LayoutIsLines([], 0, v);
    LinesEnd(v, 0);
    assert [] + Text(Lines(v, 0)) == Text(Lines(v, 0));
    SplitText(Lines(v, 0));
  }
}
