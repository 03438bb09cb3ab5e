/** JSON values and their order (android/jni/jsoncpp/json_value.cpp:190-231, 560-668).
    A `string` holds bytes: one `char` is one byte, and a C string ends before its first NUL. */
module JsonValue {
  import opened Basics

  /** `CZString`: an array index or a member name. */
  datatype Key = Index(index: int) | Name(name: string)

  datatype Entry = Entry(key: Key, value: Value)

  /** `Value`; arrays and objects hold the entries of their `std::map` in order.  `Str(None)` is the
      string value with a null pointer. */
  datatype Value =
    | Null
    | Int(i: int)
    | UInt(u: nat)
    | Real(r: real)
    | Str(chars: Option<string>)
    | Bool(b: bool)
    | Arr(items: seq<Entry>)
    | Obj(members: seq<Entry>)

  /** The numbers of `ValueType`. */
  function Type(v: Value): nat {
    match v
    case Null => 0
    case Int(_) => 1
    case UInt(_) => 2
    case Real(_) => 3
    case Str(_) => 4
    case Bool(_) => 5
    case Arr(_) => 6
    case Obj(_) => 7
  }

  /** The number of values in a tree. */
  function Size(v: Value): (n: nat)
    ensures n > 0
    decreases v
  {
    match v
    case Arr(items) => 1 + MapSize(items)
    case Obj(members) => 1 + MapSize(members)
    case _ => 1
  }

  function MapSize(entries: seq<Entry>): nat
    decreases entries
  {
    if entries == [] then 0 else EntrySize(entries[0]) + MapSize(entries[1..])
  }

  function EntrySize(e: Entry): nat
    decreases e, 1
  {
    Size(e.value)
  }

  /** `strcmp(a, b) < 0` */
  predicate StringLess(a: string, b: string)
    decreases |a|
  {
    b != [] && (a == [] || a[0] < b[0] || (a[0] == b[0] && StringLess(a[1..], b[1..])))
  }

  /** `CZString::operator<`; only keys of one kind are ever compared. */
  predicate KeyLess(a: Key, b: Key) {
    match (a, b)
    case (Name(m), Name(n)) => StringLess(m, n)
    case (Index(i), Index(j)) => i < j
    case _ => false
  }

  predicate TextLess(a: Option<string>, b: Option<string>) {
    (a.None? && b.Some?) || (b.Some? && a.Some? && StringLess(a.value, b.value))
  }

  /** `Value::operator<` */
  predicate Less(a: Value, b: Value)
    decreases Size(a) + Size(b), 0
  {
    if Type(a) != Type(b) then Type(a) < Type(b)
    else
      match (a, b)
      case (Int(i), Int(j)) => i < j
      case (UInt(i), UInt(j)) => i < j
      case (Real(x), Real(y)) => x < y
      case (Bool(p), Bool(q)) => !p && q
      case (Str(s), Str(t)) => TextLess(s, t)
      case (Arr(x), Arr(y)) => if |x| != |y| then |x| < |y| else MapLess(x, y)
      case (Obj(x), Obj(y)) => if |x| != |y| then |x| < |y| else MapLess(x, y)
      case _ => false
  }

  /** `operator<` of a key and value pair. */
  predicate EntryLess(d: Entry, e: Entry)
    decreases EntrySize(d) + EntrySize(e), 1
  {
    KeyLess(d.key, e.key) || (!KeyLess(e.key, d.key) && Less(d.value, e.value))
  }

  /** `operator<` of `std::map`: the lexicographic order of its pairs. */
  predicate MapLess(x: seq<Entry>, y: seq<Entry>)
    decreases MapSize(x) + MapSize(y), 2, |x|
  {
    if y == [] then false
    else if x == [] then true
    else if EntryLess(x[0], y[0]) then true
    else if EntryLess(y[0], x[0]) then false
    else MapLess(x[1..], y[1..])
  }

  /** `Value::operator==` */
  predicate Equal(a: Value, b: Value)
    decreases a
  {
    if Type(a) != Type(b) then false
    else
      match (a, b)
      case (Null, Null) => true
      case (Int(i), Int(j)) => i == j
      case (UInt(i), UInt(j)) => i == j
      case (Real(x), Real(y)) => x == y
      case (Bool(p), Bool(q)) => p == q
      case (Str(s), Str(t)) => s == t
      case (Arr(x), Arr(y)) => |x| == |y| && MapEqual(x, y)
      case (Obj(x), Obj(y)) => |x| == |y| && MapEqual(x, y)
      case _ => false
  }

  predicate MapEqual(x: seq<Entry>, y: seq<Entry>)
    requires |x| == |y|
    decreases x
  {
    x == [] || (EntryEqual(x[0], y[0]) && MapEqual(x[1..], y[1..]))
  }

  predicate EntryEqual(d: Entry, e: Entry)
    decreases d, 1
  {
    d.key == e.key && Equal(d.value, e.value)
  }

  /** Strictly ascending keys of one kind. */
  predicate Ascending(entries: seq<Entry>) {
    forall i, j :: 0 <= i < j < |entries| ==> KeyLess(entries[i].key, entries[j].key)
  }

  /** What the operations of the class keep: arrays have indices as keys and objects have names. */
  predicate Kinds(v: Value) {
    match v
    case Arr(items) => forall e :: e in items ==> e.key.Index? && Kinds(e.value)
    case Obj(members) => forall e :: e in members ==> e.key.Name? && Kinds(e.value)
    case _ => true
  }

  predicate SameKinds(x: seq<Entry>, y: seq<Entry>) {
    || (forall e :: e in x + y ==> e.key.Index? && Kinds(e.value))
    || (forall e :: e in x + y ==> e.key.Name? && Kinds(e.value))
  }

  // ---- Equality is identity --------------------------------------------------------------------

  /** `==` tells all values apart. */
  lemma {:induction false} EqualIsIdentity(a: Value, b: Value)
    ensures Equal(a, b) <==> a == b
    decreases a
  {
    match (a, b)
    case (Arr(x), Arr(y)) => if |x| == |y| { MapEqualIsIdentity(x, y); }
    case (Obj(x), Obj(y)) => if |x| == |y| { MapEqualIsIdentity(x, y); }
    case _ =>
  }

  lemma {:induction false} MapEqualIsIdentity(x: seq<Entry>, y: seq<Entry>)
    requires |x| == |y|
    ensures MapEqual(x, y) <==> x == y
    decreases x
  {
    if x != [] {
      assert x == [x[0]] + x[1..] && y == [y[0]] + y[1..];
      EntryEqualIsIdentity(x[0], y[0]);
      MapEqualIsIdentity(x[1..], y[1..]);
    }
  }

  lemma {:induction false} EntryEqualIsIdentity(d: Entry, e: Entry)
    ensures EntryEqual(d, e) <==> d == e
    decreases d, 1
  {
    EqualIsIdentity(d.value, e.value);
  }

  // ---- Trichotomy ------------------------------------------------------------------------------

  predicate ExactlyOne(p: bool, q: bool, r: bool) {
    (p && !q && !r) || (!p && q && !r) || (!p && !q && r)
  }

  lemma {:induction false} StringTrichotomy(a: string, b: string)
    ensures ExactlyOne(StringLess(a, b), a == b, StringLess(b, a))
    decreases |a|
  {
    if a != [] && b != [] {
      assert a == [a[0]] + a[1..] && b == [b[0]] + b[1..];
      StringTrichotomy(a[1..], b[1..]);
    }
  }

  lemma KeyTrichotomy(a: Key, b: Key)
    requires a.Index? == b.Index?
    ensures ExactlyOne(KeyLess(a, b), a == b, KeyLess(b, a))
  {
    if a.Name? {
      StringTrichotomy(a.name, b.name);
    }
  }

  /** Of `a < b`, `a == b`, `b < a` exactly one holds. */
  lemma {:induction false} Trichotomy(a: Value, b: Value)
    requires Kinds(a) && Kinds(b)
    ensures ExactlyOne(Less(a, b), a == b, Less(b, a))
    decreases a
  {
    match (a, b)
    case (Str(s), Str(t)) => if s.Some? && t.Some? { StringTrichotomy(s.value, t.value); }
    case (Arr(x), Arr(y)) => if |x| == |y| { MapTrichotomy(x, y); }
    case (Obj(x), Obj(y)) => if |x| == |y| { MapTrichotomy(x, y); }
    case _ =>
  }

  lemma {:induction false} EntryTrichotomy(d: Entry, e: Entry)
    requires d.key.Index? == e.key.Index? && Kinds(d.value) && Kinds(e.value)
    ensures ExactlyOne(EntryLess(d, e), d == e, EntryLess(e, d))
    decreases d, 1
  {
    KeyTrichotomy(d.key, e.key);
    Trichotomy(d.value, e.value);
  }

  predicate SameKind(d: Entry, e: Entry) {
    d.key.Index? == e.key.Index? && Kinds(d.value) && Kinds(e.value)
  }

  lemma SameKindsParts(x: seq<Entry>, y: seq<Entry>)
    requires |x| == |y| > 0 && SameKinds(x, y)
    ensures SameKind(x[0], y[0]) && SameKinds(x[1..], y[1..])
    ensures x == [x[0]] + x[1..] && y == [y[0]] + y[1..]
  {
    hide Kinds;
    assert x[0] in x + y && y[0] in x + y;
    assert forall e :: e in x[1..] + y[1..] ==> e in x + y;
  }

  lemma {:induction false} MapTrichotomy(x: seq<Entry>, y: seq<Entry>)
    requires |x| == |y| && SameKinds(x, y)
    ensures ExactlyOne(MapLess(x, y), x == y, MapLess(y, x))
    decreases x
  {
    hide Kinds, SameKinds, EntryLess;
    if x != [] {
      SameKindsParts(x, y);
      EntryTrichotomy(x[0], y[0]);
      MapTrichotomy(x[1..], y[1..]);
    }
  }

  // ---- Transitivity ----------------------------------------------------------------------------

  lemma {:induction false} StringTransitive(a: string, b: string, c: string)
    requires StringLess(a, b) && StringLess(b, c)
    ensures StringLess(a, c)
    decreases |a|
  {
    if a != [] && a[0] == b[0] && b[0] == c[0] {
      StringTransitive(a[1..], b[1..], c[1..]);
    }
  }

  lemma KeyTransitive(a: Key, b: Key, c: Key)
    requires KeyLess(a, b) && KeyLess(b, c)
    ensures KeyLess(a, c)
  {
    if a.Name? {
      StringTransitive(a.name, b.name, c.name);
    }
  }

  /** `<` is transitive. */
  lemma {:induction false} Transitive(a: Value, b: Value, c: Value)
    requires Kinds(a) && Kinds(b) && Kinds(c)
    requires Less(a, b) && Less(b, c)
    ensures Less(a, c)
    decreases a
  {
    if Type(a) == Type(b) == Type(c) {
      match (a, b, c)
      case (Str(s), Str(t), Str(u)) => if s.Some? { StringTransitive(s.value, t.value, u.value); }
      case (Arr(x), Arr(y), Arr(z)) => if |x| == |y| == |z| { MapTransitive(x, y, z); }
      case (Obj(x), Obj(y), Obj(z)) => if |x| == |y| == |z| { MapTransitive(x, y, z); }
      case _ =>
    }
  }

  lemma {:induction false} EntryTransitive(d: Entry, e: Entry, f: Entry)
    requires SameKind(d, e) && SameKind(e, f)
    requires EntryLess(d, e) && EntryLess(e, f)
    ensures EntryLess(d, f)
    decreases d, 1
  {
    hide Kinds, KeyLess, Less;
    KeyTrichotomy(d.key, e.key);
    KeyTrichotomy(e.key, f.key);
    KeyTrichotomy(d.key, f.key);
    if KeyLess(d.key, e.key) && KeyLess(e.key, f.key) {
      KeyTransitive(d.key, e.key, f.key);
    } else if d.key == e.key == f.key {
      Transitive(d.value, e.value, f.value);
    }
  }

  lemma {:induction false} MapTransitive(x: seq<Entry>, y: seq<Entry>, z: seq<Entry>)
    requires |x| == |y| == |z| && SameKinds(x, y) && SameKinds(y, z)
    requires MapLess(x, y) && MapLess(y, z)
    ensures MapLess(x, z)
    decreases x
  {
    hide Kinds, SameKinds, EntryLess;
    SameKindsParts(x, y);
    SameKindsParts(y, z);
    EntryTrichotomy(x[0], y[0]);
    EntryTrichotomy(y[0], z[0]);
    EntryTrichotomy(x[0], z[0]);
    if EntryLess(x[0], y[0]) && EntryLess(y[0], z[0]) {
      EntryTransitive(x[0], y[0], z[0]);
    } else if x[0] == y[0] == z[0] {
      MapTransitive(x[1..], y[1..], z[1..]);
    }
  }

  /** A value is not less than itself, and `==` is what neither way less is. */
  lemma StrictOrder(a: Value, b: Value)
    requires Kinds(a) && Kinds(b)
    ensures !Less(a, a)
    ensures Equal(a, b) <==> !Less(a, b) && !Less(b, a)
  {
    Trichotomy(a, a);
    Trichotomy(a, b);
    EqualIsIdentity(a, b);
  }
}
