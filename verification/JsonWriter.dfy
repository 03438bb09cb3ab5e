/** The JSON writers with their buffers and flags, updated in place
    (android/jni/jsoncpp/json_writer.cpp:14-480). */
module JsonWriter {
  import opened Basics
  import opened JsonValue
  import opened JsonGrammar
  import opened JsonText

  // ---- Numbers -------------------------------------------------------------------------------------

  lemma DecimalLength(n: nat)
    requires n <= 0xFFFF_FFFF
    ensures |Decimal(n)| <= 10
  {
    DecimalBound(n, 10);
  }

  lemma {:induction false} DecimalBound(n: nat, k: nat)
    requires 0 < k && n < Pow10(k)
    ensures |Decimal(n)| <= k
    decreases k
  {
    if n >= 10 {
      DecimalBound(n / 10, k - 1);
    }
  }

  /** The digits that are still to be written. */
  function Front(rest: nat): string {
    if rest == 0 then [] else Decimal(rest)
  }

  lemma FrontStep(rest: nat, written: string)
    requires rest != 0
    ensures Front(rest) + written == Front(rest / 10) + ([Digit(rest % 10)] + written) && |Front(rest)| >= 1
  {
  }

  /** `uintToString`: the digits are written backwards, in front of a NUL; `current` moves down to the first. */
  method UintToString(value: nat, buffer: array<char>, end: nat) returns (current: nat)
    requires value <= 0xFFFF_FFFF && 11 <= end <= buffer.Length
    modifies buffer
    ensures end - 11 <= current <= end - 2
    ensures buffer[current..end] == Decimal(value) + ['\0']
  {
    DecimalLength(value);
    current := end - 1;
    buffer[current] := '\0';
    var rest := value;
    current := current - 1;
    buffer[current] := Digit(rest % 10);
    rest := rest / 10;
    while rest != 0
      invariant 0 <= rest && end - 11 <= current <= end - 2
      invariant Front(rest) + buffer[current..end] == Decimal(value) + ['\0']
    {
      ghost var written := buffer[current..end];
      FrontStep(rest, written);
      current := current - 1;
      buffer[current] := Digit(rest % 10);
      assert buffer[current..end] == [Digit(rest % 10)] + written;
      rest := rest / 10;
    }
  }

  lemma {:induction false} NulEndsString(s: string, rest: string)
    requires NulFree(s)
    ensures UpToNul(s + ['\0'] + rest) == s
  {
    if s != [] {
      assert s[0] in s && forall c :: c in s[1..] ==> c in s;
      assert (s + ['\0'] + rest)[1..] == s[1..] + ['\0'] + rest;
      NulEndsString(s[1..], rest);
    }
  }

  lemma {:induction false} DecimalIsNulFree(n: nat)
    ensures NulFree(Decimal(n))
  {
    if n >= 10 {
      DecimalIsNulFree(n / 10);
    }
  }

  /** `valueToString( Int )`.  The negation of the least `Int` wraps to itself, and as a `UInt` that is
      its magnitude. */
  method IntToString(value: int) returns (s: string)
    requires -0x8000_0000 <= value <= 0x7FFF_FFFF
    ensures s == IntText(value)
  {
    var buffer := new char[32];
    var isNegative := value < 0;
    var magnitude := if isNegative then -value else value;
    var current := UintToString(magnitude, buffer, 32);
    DecimalIsNulFree(magnitude);
    if isNegative {
      ghost var written := buffer[current..32];
      current := current - 1;
      buffer[current] := '-';
      assert buffer[current..32] == ['-'] + written;
    }
    assert buffer[current..] == buffer[current..32] == IntText(value) + ['\0'] + [];
    NulEndsString(IntText(value), []);
    s := UpToNul(buffer[current..]);
  }

  /** `valueToString( UInt )` */
  method UIntToString(value: nat) returns (s: string)
    requires value <= 0xFFFF_FFFF
    ensures s == Decimal(value)
  {
    var buffer := new char[32];
    var current := UintToString(value, buffer, 32);
    DecimalIsNulFree(value);
    assert buffer[current..] == buffer[current..32] == Decimal(value) + ['\0'] + [];
    NulEndsString(Decimal(value), []);
    s := UpToNul(buffer[current..]);
  }

  // ---- Strings -------------------------------------------------------------------------------------

  predicate IsSpecial(c: char) {
    c in {'"', '\\', '\U{8}', '\U{c}', '\n', '\r', '\t'} || IsControl(c)
  }

  lemma {:induction false} PlainEscape(s: string)
    requires forall c :: c in s ==> !IsSpecial(c)
    ensures EscapeAll(s) == s
  {
    if s != [] {
      assert s[0] in s && forall c :: c in s[1..] ==> c in s;
      PlainEscape(s[1..]);
    }
  }

  lemma {:induction false} EscapeAllAppend(a: string, b: string)
    ensures EscapeAll(a + b) == EscapeAll(a) + EscapeAll(b)
  {
    if a == [] {
      assert a + b == b;
    } else {
      assert (a + b)[1..] == a[1..] + b;
      EscapeAllAppend(a[1..], b);
    }
  }

  /** `valueToQuotedString`, with its short way for strings without special characters. */
  method ToQuotedString(value: string) returns (result: string)
    requires NulFree(value)
    ensures result == Quoted(value)
  {
    hide Escape;
    if forall c :: c in value ==> !IsSpecial(c) {
      PlainEscape(value);
      return "\"" + value + "\"";
    }
    result := "\"";
    var i := 0;
    while i < |value|
      invariant 0 <= i <= |value|
      invariant result == "\"" + EscapeAll(value[..i])
    {
      assert value[..i + 1] == value[..i] + [value[i]];
      EscapeAllAppend(value[..i], [value[i]]);
      OneEscape(value[i]);
      var piece := EscapeChar(value[i]);
      result := result + piece;
      i := i + 1;
    }
    assert value[..i] == value;
    result := result + "\"";
  }

  /** The `switch` on one character. */
  method EscapeChar(c: char) returns (piece: string)
    ensures piece == Escape(c)
  {
    match c {
      case '"' => piece := "\\\"";
      case '\\' => piece := "\\\\";
      case '\U{8}' => piece := "\\b";
      case '\U{c}' => piece := "\\f";
      case '\n' => piece := "\\n";
      case '\r' => piece := "\\r";
      case '\t' => piece := "\\t";
      case _ =>
        if IsControl(c) {
          piece := "\\u00" + [HexDigitOf(c as int / 16), HexDigitOf(c as int % 16)];
        } else {
          piece := [c];
        }
    }
  }

  lemma OneEscape(c: char)
    ensures EscapeAll([c]) == Escape(c)
  {
    assert [c][1..] == [];
  }

  // ---- FastWriter ----------------------------------------------------------------------------------

  class FastWriter {
    var document: string
    var yamlCompatibility: bool

    constructor ()
      ensures !yamlCompatibility && document == []
    {
      document, yamlCompatibility := [], false;
    }

    method EnableYamlCompatibility()
      modifies this`yamlCompatibility
      ensures yamlCompatibility
    {
      yamlCompatibility := true;
    }

    function Colon(): string
      reads this`yamlCompatibility
    {
      if yamlCompatibility then ": " else ":"
    }

    /** `write` */
    method Write(root: Value) returns (text: string)
      requires Writable(root)
      modifies this`document
      ensures text == document == Joined(Tokens(root), Colon()) + "\n"
    {
      hide Tokens, Joined, Writable;
      document := "";
      WriteValue(root);
      document := document + "\n";
      text := document;
    }

    /** `writeValue`: the tokens of the value go to the end of the document. */
    method WriteValue(v: Value)
      requires Writable(v)
      modifies this`document
      ensures document == old(document) + Joined(Tokens(v), Colon())
      decreases Size(v), 1
    {
      hide Decimal, Quoted, Joined;
      if !v.Arr? && !v.Obj? {
        JoinedScalar(v, Colon());
      }
      match v {
        case Null => document := document + "null";
        case Int(i) =>
          var text := IntToString(i);
          document := document + text;
        case UInt(u) =>
          var text := UIntToString(u);
          document := document + text;
        case Str(s) =>
          var text := ToQuotedString(s.value);
          document := document + text;
        case Bool(b) => document := document + if b then "true" else "false";
        case Arr(items) => WriteItems(items);
        case Obj(members) => WriteMembers(members);
        case Real(_) =>
      }
    }

    method WriteItems(items: seq<Entry>)
      requires Writable(Arr(items))
      modifies this`document
      ensures document == old(document) + Joined(Tokens(Arr(items)), Colon())
      decreases 1 + MapSize(items), 0
    {
      hide Tokens, ItemTokens, Joined, Writable, Slots;
      JoinedArray(items, Colon());
      document := document + "[";
      var index := 0;
      while index < Slots(items)
        invariant index <= Slots(items)
        invariant document + Joined(ItemTokens(items, index), Colon())
                  == old(document) + "[" + Joined(ItemTokens(items, 0), Colon())
      {
        JoinedItem(items, index, Colon());
        if index > 0 {
          document := document + ",";
        }
        WriteValue(At(items, Index(index)));
        index := index + 1;
      }
      assert document + [] == document;
      document := document + "]";
      assert document == old(document) + ("[" + Joined(ItemTokens(items, 0), Colon()) + "]");
    }

    method WriteMember(e: Entry, first: bool)
      requires e.key.Name? && NulFree(e.key.name) && Writable(e.value)
      modifies this`document
      ensures document == old(document) + ((if first then "" else ",") + Quoted(e.key.name) + Colon()
              + Joined(Tokens(e.value), Colon()))
      decreases Size(e.value), 2
    {
      hide Tokens, Joined, Writable, Quoted;
      if !first {
        document := document + ",";
      }
      var name := ToQuotedString(e.key.name);
      document := document + name;
      document := document + if yamlCompatibility then ": " else ":";
      WriteValue(e.value);
    }

    method WriteMembers(members: seq<Entry>)
      requires Writable(Obj(members))
      modifies this`document
      ensures document == old(document) + Joined(Tokens(Obj(members)), Colon())
      decreases 1 + MapSize(members), 0
    {
      hide Tokens, MemberTokens, Joined, Writable, Quoted;
      JoinedObject(members, Colon());
      document := document + "{";
      var k := 0;
      while k < |members|
        invariant 0 <= k <= |members|
        invariant document + Joined(MemberTokens(members, k), Colon())
                  == old(document) + "{" + Joined(MemberTokens(members, 0), Colon())
      {
        JoinedMember(members, k, Colon());
        WriteMember(members[k], k == 0);
        k := k + 1;
      }
      assert document + [] == document;
      document := document + "}";
      assert document == old(document) + ("{" + Joined(MemberTokens(members, 0), Colon()) + "}");
    }
  }
}
