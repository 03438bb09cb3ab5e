/** The styled writer with its document, indentation, saved child texts and mode flag, updated in place
    (android/jni/jsoncpp/json_writer.cpp:266-480).  Values carry no comments here. */
module JsonStyledWriter {
  import opened JsonValue
  import opened JsonGrammar
  import opened JsonText
  import opened JsonWriter
  import opened JsonLayout

  class StyledWriter {
    var document: string
    var indentString: string
    var childValues: seq<string>
    var addChildValues: bool

    constructor ()
    {
      document, indentString, childValues, addChildValues := [], [], [], false;
    }

    /** `write` */
    method Write(root: Value) returns (text: string)
      requires Writable(root)
      modifies this
      ensures text == document == Layout([], [], root) + "\n" && indentString == [] && !addChildValues
    {
      document := "";
      addChildValues := false;
      indentString := "";
      WriteValue(root);
      document := document + "\n";
      text := document;
    }

    method PushValue(value: string)
      modifies this`document, this`childValues
      ensures if addChildValues then document == old(document) && childValues == old(childValues) + [value]
              else document == old(document) + value && childValues == old(childValues)
    {
      if addChildValues {
        childValues := childValues + [value];
      } else {
        document := document + value;
      }
    }

    method WriteIndent()
      modifies this`document
      ensures document == Indented(old(document), indentString)
    {
      if document != [] {
        var last := document[|document| - 1];
        if last == ' ' {
          return;
        }
        if last != '\n' {
          document := document + "\n";
        }
      }
      document := document + indentString;
    }

    method WriteWithIndent(value: string)
      modifies this`document
      ensures document == Indented(old(document), indentString) + value
    {
      WriteIndent();
      document := document + value;
    }

    method Indent()
      modifies this`indentString
      ensures indentString == old(indentString) + INDENT
    {
      indentString := indentString + INDENT;
    }

    /** The source asserts that there is something to take back. */
    method Unindent()
      requires |indentString| >= |INDENT|
      modifies this`indentString
      ensures indentString == old(indentString)[..|old(indentString)| - |INDENT|]
    {
      indentString := indentString[..|indentString| - |INDENT|];
    }

    /** `writeValue`.  While texts are collected, a plain value is one text; otherwise the document grows
        as the layout says, and indentation and flag are what they were. */
    method WriteValue(v: Value)
      requires Writable(v) && (addChildValues ==> Plain(v))
      modifies this
      ensures addChildValues == old(addChildValues) && indentString == old(indentString)
      ensures addChildValues ==> document == old(document) && childValues == old(childValues) + [PlainText(v)]
      ensures !addChildValues ==> document == Layout(old(document), indentString, v)
      decreases Size(v), 2
    {
      hide Decimal, Quoted, LayoutItems, LayoutMembers, OneLine, MultiLine, Indented;
      match v {
        case Null => PushValue("null");
        case Int(i) =>
          var text := IntToString(i);
          PushValue(text);
        case UInt(u) =>
          var text := UIntToString(u);
          PushValue(text);
        case Str(s) =>
          var text := ToQuotedString(s.value);
          PushValue(text);
        case Bool(b) => PushValue(if b then "true" else "false");
        case Arr(items) => WriteArrayValue(items);
        case Obj(members) =>
          if members == [] {
            PushValue("{}");
          } else {
            WriteObject(members);
          }
        case Real(_) =>
      }
    }

    /** The object branch of `writeValue`. */
    method WriteObject(members: seq<Entry>)
      requires Writable(Obj(members)) && members != [] && !addChildValues
      modifies this
      ensures !addChildValues && indentString == old(indentString)
      ensures document == Layout(old(document), indentString, Obj(members))
      decreases 1 + MapSize(members), 1
    {
      hide Layout, LayoutMembers, Indented, Writable, Quoted;
      ObjectLayout(document, indentString, members);
      WriteWithIndent("{");
      Indent();
      var k := 0;
      while true
        invariant k < |members| && !addChildValues && indentString == old(indentString) + INDENT
        invariant LayoutMembers(document, indentString, members, k)
               == LayoutMembers(Indented(old(document), old(indentString)) + "{", indentString, members, 0)
        decreases |members| - k
      {
        MemberLayout(document, indentString, members, k);
        WriteMember(members[k]);
        k := k + 1;
        if k == |members| {
          break;
        }
        document := document + ",";
      }
      MembersLaidOut(document, indentString, members);
      Unindent();
      assert indentString == old(indentString);
      WriteWithIndent("}");
    }

    /** The name and the value of one member. */
    method WriteMember(e: Entry)
      requires e.key.Name? && NulFree(e.key.name) && Writable(e.value) && !addChildValues
      modifies this
      ensures !addChildValues && indentString == old(indentString)
      ensures document == Layout(Indented(old(document), indentString) + Quoted(e.key.name) + " : ", indentString,
              e.value)
      decreases Size(e.value), 3
    {
      hide Layout, Indented, Writable, Quoted;
      var name := ToQuotedString(e.key.name);
      WriteWithIndent(name);
      document := document + " : ";
      WriteValue(e.value);
    }

    /** `writeArrayValue` */
    method WriteArrayValue(items: seq<Entry>)
      requires Writable(Arr(items)) && (addChildValues ==> Slots(items) == 0)
      modifies this
      ensures addChildValues == old(addChildValues) && indentString == old(indentString)
      ensures addChildValues ==> document == old(document) && childValues == old(childValues) + ["[]"]
      ensures !addChildValues ==> document == Layout(old(document), indentString, Arr(items))
      decreases 1 + MapSize(items), 1
    {
      hide LayoutItems, Indented, Writable, OneLine, MultiLine, PlainTexts, AllPlain;
      if Slots(items) == 0 {
        PushValue("[]");
      } else {
        var isArrayMultiLine := IsMultilineArray(items);
        if isArrayMultiLine {
          WriteLines(items);
        } else {
          assert |childValues| == Slots(items);
          document := document + "[ ";
          WriteOnOneLine();
          document := document + " ]";
        }
      }
    }

    /** The loop over the saved texts. */
    method WriteOnOneLine()
      modifies this`document
      ensures document == old(document) + OneLine(childValues, 0)
    {
      var index := 0;
      assert document + [] == document;
      while index < |childValues|
        invariant 0 <= index <= |childValues|
        invariant document + OneLine(childValues, index) == old(document) + OneLine(childValues, 0)
      {
        if index > 0 {
          document := document + ", ";
        }
        document := document + childValues[index];
        index := index + 1;
      }
      assert document + [] == document;
    }

    /** The branch of `writeArrayValue` for several lines; saved texts are used if there are any. */
    method WriteLines(items: seq<Entry>)
      requires Writable(Arr(items)) && Slots(items) > 0 && !addChildValues
      requires childValues == [] || (AllPlain(items) && childValues == PlainTexts(items, Slots(items)))
      modifies this
      ensures !addChildValues && indentString == old(indentString)
      ensures document == Indented(LayoutItems(Indented(old(document), indentString) + "[", indentString + INDENT,
              items, 0), indentString) + "]"
      decreases 1 + MapSize(items), 0
    {
      hide Layout, LayoutItems, Indented, Writable, PlainTexts, AllPlain, Slots;
      WriteWithIndent("[");
      Indent();
      var hasChildValue := childValues != [];
      var index := 0;
      while true
        invariant index < Slots(items) && !addChildValues && indentString == old(indentString) + INDENT
        invariant hasChildValue ==> AllPlain(items) && childValues == PlainTexts(items, Slots(items))
        invariant LayoutItems(document, indentString, items, index)
               == LayoutItems(Indented(old(document), old(indentString)) + "[", indentString, items, 0)
        decreases Slots(items) - index
      {
        ItemLayout(document, indentString, items, index);
        if hasChildValue {
          PlainTextAt(items, Slots(items), index);
          PlainLayout(Indented(document, indentString), indentString, At(items, Index(index)));
          WriteWithIndent(childValues[index]);
        } else {
          WriteIndent();
          WriteValue(At(items, Index(index)));
        }
        index := index + 1;
        if index == Slots(items) {
          break;
        }
        document := document + ",";
      }
      ItemsLaidOut(document, indentString, items);
      Unindent();
      assert indentString == old(indentString);
      WriteWithIndent("]");
    }

    /** `isMultineArray`.  Texts are saved only when all items are plain, and then for all of them. */
    method IsMultilineArray(items: seq<Entry>) returns (isMultiLine: bool)
      requires Writable(Arr(items)) && Slots(items) > 0 && !addChildValues
      modifies this
      ensures !addChildValues && document == old(document) && indentString == old(indentString)
      ensures isMultiLine == MultiLine(items)
      ensures childValues == [] || (AllPlain(items) && childValues == PlainTexts(items, Slots(items)))
      ensures !isMultiLine ==> AllPlain(items) && childValues == PlainTexts(items, Slots(items))
      decreases 1 + MapSize(items), 0
    {
      var size := Slots(items);
      isMultiLine := size * 3 >= RIGHT_MARGIN;
      childValues := [];
      var index := 0;
      while index < size && !isMultiLine
        invariant index <= size
        invariant size * 3 < RIGHT_MARGIN ==>
                    (isMultiLine ==> !AllPlain(items))
                        && (!isMultiLine ==> forall i :: 0 <= i < index ==> Plain(At(items, Index(i))))
        invariant size * 3 >= RIGHT_MARGIN ==> isMultiLine
      {
        var child := At(items, Index(index));
        isMultiLine := (child.Null? || child.Arr? || child.Obj?) && ValueSize(child) > 0;
        index := index + 1;
      }
      if !isMultiLine {
        assert AllPlain(items);
        var length := MeasureLine(items);
        isMultiLine := length >= RIGHT_MARGIN;
      }
    }

    /** The second loop of `isMultineArray`: every item is written into `childValues`. */
    method MeasureLine(items: seq<Entry>) returns (lineLength: int)
      requires Writable(Arr(items)) && Slots(items) > 0 && !addChildValues && childValues == [] && AllPlain(items)
      modifies this
      ensures !addChildValues && document == old(document) && indentString == old(indentString)
      ensures childValues == PlainTexts(items, Slots(items))
      ensures lineLength == 4 + (Slots(items) - 1) * 2 + TotalLength(childValues)
      decreases MapSize(items), 3
    {
      hide Layout, PlainText, Writable, Slots;
      addChildValues := true;
      var size := Slots(items);
      lineLength := 4 + (size - 1) * 2;
      var index := 0;
      while index < size
        invariant 0 <= index <= size && addChildValues && document == old(document) && indentString == old(indentString)
        invariant childValues == PlainTexts(items, index)
        invariant lineLength == 4 + (size - 1) * 2 + TotalLength(childValues)
      {
        SlotIsWritable(items, index);
        WriteValue(At(items, Index(index)));
        lineLength := lineLength + |childValues[index]|;
        index := index + 1;
      }
      addChildValues := false;
    }
  }

  lemma PlainLayout(doc: string, indent: string, v: Value)
    requires Writable(v) && Plain(v)
    ensures Layout(doc, indent, v) == doc + PlainText(v)
  {
  }

  lemma ObjectLayout(doc: string, indent: string, members: seq<Entry>)
    requires Writable(Obj(members)) && members != []
    ensures Layout(doc, indent, Obj(members))
         == Indented(LayoutMembers(Indented(doc, indent) + "{", indent + INDENT, members, 0), indent) + "}"
  {
  }

  lemma MemberLayout(doc: string, indent: string, members: seq<Entry>, from: nat)
    requires Writable(Obj(members)) && from < |members|
    ensures var e := members[from];
            && e.key.Name? && NulFree(e.key.name) && Writable(e.value) && Size(e.value) <= MapSize(members)
            && var d := Layout(Indented(doc, indent) + Quoted(e.key.name) + " : ", indent, e.value);
            LayoutMembers(doc, indent, members, from)
            == LayoutMembers(if from + 1 < |members| then d + "," else d, indent, members, from + 1)
  {
    hide Layout, Indented, Quoted, Writable;
    MemberIsWritable(members, from);
  }

  lemma MembersLaidOut(doc: string, indent: string, members: seq<Entry>)
    requires Writable(Obj(members))
    ensures LayoutMembers(doc, indent, members, |members|) == doc
  {
  }

  lemma ItemLayout(doc: string, indent: string, items: seq<Entry>, from: nat)
    requires Writable(Arr(items)) && from < Slots(items)
    ensures var v := At(items, Index(from));
            && Writable(v) && Size(v) <= MapSize(items)
            && var d := Layout(Indented(doc, indent), indent, v);
            LayoutItems(doc, indent, items, from)
            == LayoutItems(if from + 1 < Slots(items) then d + "," else d, indent, items, from + 1)
  {
    hide Layout, Indented, Writable;
    SlotIsWritable(items, from);
  }

  lemma ItemsLaidOut(doc: string, indent: string, items: seq<Entry>)
    requires Writable(Arr(items))
    ensures LayoutItems(doc, indent, items, Slots(items)) == doc
  {
  }
}
