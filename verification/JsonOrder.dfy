/** What the order of JSON values is, without its loops (android/jni/jsoncpp/json_value.cpp:217-223, 565-607). */
module JsonOrder {
  import opened Basics
  import opened JsonValue
  import opened JsonGrammar
  import opened JsonSound
  import opened JsonText

  // ---- Names -------------------------------------------------------------------------------------------

  /** The first place where two byte strings differ is k, and there a ends or has the smaller byte. */
  predicate SmallerAt(a: string, b: string, k: nat) {
    && k <= |a| && k < |b| && a[..k] == b[..k]
    && (k == |a| || a[k] < b[k])
  }

  ghost predicate BytesBefore(a: string, b: string) {
    exists k: nat :: SmallerAt(a, b, k)
  }

  /** `strcmp` puts a prefix first, and otherwise the string with the smaller byte where the two differ first. */
  lemma {:induction false} StringOrderIff(a: string, b: string)
    ensures StringLess(a, b) <==> BytesBefore(a, b)
    decreases |a|
  {
    if a != [] && b != [] && a[0] == b[0] {
      StringOrderIff(a[1..], b[1..]);
      ShiftedPlaces(a, b);
    } else {
      forall k: nat | k > 0
        ensures !SmallerAt(a, b, k)
      {
        if SmallerAt(a, b, k) { SameFirst(a, b, k); }
      }
      assert b != [] && (a == [] || a[0] < b[0]) ==> SmallerAt(a, b, 0);
    }
  }

  lemma SameFirst<T>(a: seq<T>, b: seq<T>, k: nat)
    requires 0 < k <= |a| && k <= |b| && a[..k] == b[..k]
    ensures a[0] == b[0]
  {
    assert a[..k][0] == b[..k][0];
  }

  /** A common first byte moves the place of the difference by one. */
  lemma ShiftedPlaces(a: string, b: string)
    requires a != [] && b != [] && a[0] == b[0]
    ensures BytesBefore(a[1..], b[1..]) <==> BytesBefore(a, b)
  {
    if k: nat :| SmallerAt(a[1..], b[1..], k) {
      assert a[..k + 1] == [a[0]] + a[1..][..k] && b[..k + 1] == [b[0]] + b[1..][..k];
      assert SmallerAt(a, b, k + 1);
    }
    if k: nat :| SmallerAt(a, b, k) {
      assert k > 0;
      assert a[1..][..k - 1] == a[..k][1..] && b[1..][..k - 1] == b[..k][1..];
      assert SmallerAt(a[1..], b[1..], k - 1);
    }
  }

  // ---- Values ------------------------------------------------------------------------------------------

  ghost predicate KeyBefore(a: Key, b: Key) {
    match (a, b)
    case (Name(m), Name(n)) => BytesBefore(m, n)
    case (Index(i), Index(j)) => i < j
    case _ => false
  }

  /** The entries of two maps of one size agree up to k, and there the key or the value under one key is smaller. */
  ghost predicate EntriesSmallerAt(x: seq<Entry>, y: seq<Entry>, k: nat) {
    && k < |x| && k < |y| && x[..k] == y[..k]
    && (KeyBefore(x[k].key, y[k].key) || (x[k].key == y[k].key && Less(x[k].value, y[k].value)))
  }

  /** Size first, then the first entry that differs. */
  ghost predicate MapBefore(x: seq<Entry>, y: seq<Entry>) {
    |x| < |y| || (|x| == |y| && exists k: nat :: EntriesSmallerAt(x, y, k))
  }

  lemma KeyOrderIff(a: Key, b: Key)
    ensures KeyLess(a, b) <==> KeyBefore(a, b)
  {
    if a.Name? && b.Name? {
      StringOrderIff(a.name, b.name);
    }
  }

  lemma {:induction false} MapOrderIff(x: seq<Entry>, y: seq<Entry>)
    requires |x| == |y| && SameKinds(x, y)
    ensures MapLess(x, y) <==> exists k: nat :: EntriesSmallerAt(x, y, k)
    decreases |x|
  {
    hide Kinds, SameKinds, Less, KeyLess, KeyBefore;
    if x != [] {
      SameKindsParts(x, y);
      EntryTrichotomy(x[0], y[0]);
      KeyTrichotomy(x[0].key, y[0].key);
      KeyOrderIff(x[0].key, y[0].key);
      MapOrderIff(x[1..], y[1..]);
      if x[0] == y[0] {
        ShiftedEntries(x, y);
      } else {
        assert EntryLess(x[0], y[0]) ==> EntriesSmallerAt(x, y, 0);
        forall k: nat | k > 0
          ensures !EntriesSmallerAt(x, y, k)
        {
          if EntriesSmallerAt(x, y, k) { SameFirst(x, y, k); }
        }
      }
    }
  }

  lemma ShiftedEntries(x: seq<Entry>, y: seq<Entry>)
    requires |x| == |y| > 0 && x[0] == y[0] && SameKind(x[0], y[0])
    ensures (exists k: nat :: EntriesSmallerAt(x[1..], y[1..], k)) <==> exists k: nat :: EntriesSmallerAt(x, y, k)
  {
    hide Kinds, Less, KeyBefore;
    if k: nat :| EntriesSmallerAt(x[1..], y[1..], k) {
      assert x[..k + 1] == [x[0]] + x[1..][..k] && y[..k + 1] == [y[0]] + y[1..][..k];
      assert EntriesSmallerAt(x, y, k + 1);
    }
    if k: nat :| EntriesSmallerAt(x, y, k) {
      SameEntryIsNotBefore(x[0], y[0]);
      assert x[1..][..k - 1] == x[..k][1..] && y[1..][..k - 1] == y[..k][1..];
      assert EntriesSmallerAt(x[1..], y[1..], k - 1);
    }
  }

  lemma SameEntryIsNotBefore(d: Entry, e: Entry)
    requires d == e && SameKind(d, e)
    ensures !KeyBefore(d.key, e.key) && !Less(d.value, e.value)
  {
    KeyTrichotomy(d.key, e.key);
    KeyOrderIff(d.key, e.key);
    Trichotomy(d.value, e.value);
  }

  /** Types in the order of their numbers, then numbers by size, false before true, no string before a string, strings
      by their first difference, and maps by their size and then by their first difference. */
  ghost predicate Before(a: Value, b: Value) {
    match a
    case Null => !b.Null?
    case Int(i) => (b.Int? && i < b.i) || b.UInt? || b.Real? || b.Str? || b.Bool? || b.Arr? || b.Obj?
    case UInt(i) => (b.UInt? && i < b.u) || b.Real? || b.Str? || b.Bool? || b.Arr? || b.Obj?
    case Real(x) => (b.Real? && x < b.r) || b.Str? || b.Bool? || b.Arr? || b.Obj?
    case Str(None) => (b.Str? && b.chars.Some?) || b.Bool? || b.Arr? || b.Obj?
    case Str(Some(s)) => (b.Str? && b.chars.Some? && BytesBefore(s, b.chars.value)) || b.Bool? || b.Arr? || b.Obj?
    case Bool(p) => b == Bool(true) != a || b.Arr? || b.Obj?
    case Arr(x) => (b.Arr? && MapBefore(x, b.items)) || b.Obj?
    case Obj(x) => b.Obj? && MapBefore(x, b.members)
  }

  /** `operator<` is that order. */
  lemma ValueOrderIff(a: Value, b: Value)
    requires Kinds(a) && Kinds(b)
    ensures Less(a, b) <==> Before(a, b)
  {
    hide MapLess, StringLess;
    match (a, b)
    case (Str(Some(s)), Str(Some(t))) => StringOrderIff(s, t);
    case (Arr(x), Arr(y)) => if |x| == |y| { MapOrderIff(x, y); }
    case (Obj(x), Obj(y)) => if |x| == |y| { MapOrderIff(x, y); }
    case _ =>
  }

  // ---- Parsed values -----------------------------------------------------------------------------------

  predicate IndexBefore(a: Key, b: Key) {
    a.Index? && b.Index? && a.index < b.index
  }

  ghost predicate NameBefore(a: Key, b: Key) {
    a.Name? && b.Name? && BytesBefore(a.name, b.name)
  }

  /** In all objects of a tree the names stand in ascending byte order, and in all arrays the indices ascend. */
  ghost predicate InOrder(v: Value) {
    match v
    case Arr(items) =>
      && (forall i, j :: 0 <= i < j < |items| ==> IndexBefore(items[i].key, items[j].key))
      && forall e :: e in items ==> InOrder(e.value)
    case Obj(members) =>
      && (forall i, j :: 0 <= i < j < |members| ==> NameBefore(members[i].key, members[j].key))
      && forall e :: e in members ==> InOrder(e.value)
    case _ => true
  }

  lemma {:induction false} SoundIsInOrder(v: Value)
    requires Sound(v)
    ensures InOrder(v)
    decreases v
  {
    hide BytesBefore, StringLess;
    match v
    case Arr(items) =>
      forall e | e in items
        ensures InOrder(e.value)
      {
        SoundIsInOrder(e.value);
      }
    case Obj(members) =>
      forall i, j | 0 <= i < j < |members|
        ensures NameBefore(members[i].key, members[j].key)
      {
        assert members[i] in members && members[j] in members;
        KeyOrderIff(members[i].key, members[j].key);
      }
      forall e | e in members
        ensures InOrder(e.value)
      {
        SoundIsInOrder(e.value);
      }
    case _ =>
  }

  /** Whatever text was read, the members of its objects stand in ascending byte order of their names. */
  lemma ParsedIsInOrder(config: Config, document: string, root: Value)
    requires Parse(config, document, root).ok
    ensures InOrder(Parse(config, document, root).root)
  {
    hide ReadValue, Sound;
    ParseIsSound(config, document, root);
    SoundIsInOrder(Parse(config, document, root).root);
  }

  // ---- Maps --------------------------------------------------------------------------------------------

  /** A name stands at its lower bound or not at all. */
  lemma NameStandsAt(members: seq<Entry>, name: string, i: nat)
    requires Names(members) && i < |members| && members[i].key == Name(name)
    ensures i == LowerBound(members, Name(name)) && At(members, Name(name)) == members[i].value
  {
    hide NulFree, KeyLess, LowerBound;
    var n := LowerBound(members, Name(name));
    LowerBoundSplits(members, name);
    KeyTrichotomy(Name(name), Name(name));
  }

  lemma NameIsNowhere(members: seq<Entry>, name: string)
    requires forall e :: e in members ==> e.key != Name(name)
    ensures At(members, Name(name)) == Null
  {
    hide LowerBound;
    var n := LowerBound(members, Name(name));
    assert n < |members| ==> members[n] in members;
  }

  /** Putting a value under a name keeps all entries with other names, and no other one. */
  lemma PutHolds(members: seq<Entry>, name: string, value: Value)
    requires Names(members)
    ensures forall e :: e in Put(members, Name(name), value)
                        <==> e == Entry(Name(name), value) || (e in members && e.key != Name(name))
  {
    hide NulFree, LowerBound, At, Names;
    var n, put := LowerBound(members, Name(name)), Put(members, Name(name), value);
    var back := if n < |members| && members[n].key == Name(name) then n + 1 else n;
    forall e | e in members && e.key != Name(name)
      ensures e in put
    {
      var i :| 0 <= i < |members| && members[i] == e;
      assert if i < n then put[i] == e else put[n + 1 + (i - back)] == e;
    }
    forall i | 0 <= i < |members| && members[i].key == Name(name)
      ensures i == n
    {
      NameStandsAt(members, name, i);
    }
    assert put[n] == Entry(Name(name), value);
    assert forall e :: e in put ==> e in members[..n] || e == Entry(Name(name), value) || e in members[back..];
  }

  /** What is put under a name is found there, in the place of an earlier value if there was one, and the other names
      keep what they had. */
  lemma PutThenAt(members: seq<Entry>, name: string, value: Value, other: string)
    requires Names(members) && NulFree(name)
    ensures At(Put(members, Name(name), value), Name(other))
            == if other == name then value else At(members, Name(other))
  {
    hide NulFree, LowerBound, At, Names, Put;
    var put := Put(members, Name(name), value);
    PutKeepsNames(members, name, value);
    PutHolds(members, name, value);
    if e :| e in put && e.key == Name(other) {
      var i :| 0 <= i < |put| && put[i] == e;
      NameStandsAt(put, other, i);
      if other != name {
        var j :| 0 <= j < |members| && members[j] == e;
        NameStandsAt(members, other, j);
      }
    } else {
      NameIsNowhere(put, other);
      assert Entry(Name(name), value) in put;
      forall e | e in members
        ensures e.key != Name(other)
      {
        assert e.key != Name(name) ==> e in put;
      }
      NameIsNowhere(members, other);
    }
  }
}
