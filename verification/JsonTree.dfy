/** Places in a value: what a `Value` pointer on the node stack of the reader stands for
    (android/jni/jsoncpp/json_reader.cpp:182-183, 484-487, 555-558; json_value.cpp:1014-1040). */
module JsonTree {
  import opened JsonValue
  import opened JsonGrammar

  /** The keys from the root down to a node. */
  type Path = seq<Key>

  function Entries(v: Value): seq<Entry> {
    match v
    case Arr(items) => items
    case Obj(members) => members
    case _ => []
  }

  function WithEntries(v: Value, entries: seq<Entry>): Value {
    match v
    case Arr(_) => Arr(entries)
    case Obj(_) => Obj(entries)
    case _ => v
  }

  predicate Has(entries: seq<Entry>, key: Key) {
    var n := LowerBound(entries, key); n < |entries| && entries[n].key == key
  }

  /** There is a value at this place. */
  predicate Live(v: Value, path: Path)
    decreases |path|
  {
    path == [] || ((v.Arr? || v.Obj?) && Has(Entries(v), path[0]) && Live(At(Entries(v), path[0]), path[1..]))
  }

  function Get(v: Value, path: Path): Value
    decreases |path|
  {
    if path == [] then v else Get(At(Entries(v), path[0]), path[1..])
  }

  /** The tree with the value at one place replaced. */
  function Set(v: Value, path: Path, w: Value): Value
    decreases |path|
  {
    if path == [] then w
    else WithEntries(v, Put(Entries(v), path[0], Set(At(Entries(v), path[0]), path[1..], w)))
  }

  /** A container with one child replaced or inserted. */
  function WithChild(c: Value, key: Key, w: Value): Value {
    WithEntries(c, Put(Entries(c), key, w))
  }

  lemma {:induction false} NotLessThanItself(s: string)
    ensures !StringLess(s, s)
  {
    if s != [] {
      NotLessThanItself(s[1..]);
    }
  }

  lemma {:induction false} LowerBoundAfterPut(entries: seq<Entry>, key: Key, w: Value)
    ensures LowerBound(Put(entries, key, w), key) == LowerBound(entries, key)
  {
    var put := Put(entries, key, w);
    if entries != [] && KeyLess(entries[0].key, key) {
      LowerBoundAfterPut(entries[1..], key, w);
      assert put[0] == entries[0] && put[1..] == Put(entries[1..], key, w);
    } else {
      assert put[0] == Entry(key, w);
      if key.Name? {
        NotLessThanItself(key.name);
      }
    }
  }

  lemma AtAfterPut(entries: seq<Entry>, key: Key, w: Value, x: Value)
    ensures At(Put(entries, key, w), key) == w && Has(Put(entries, key, w), key)
    ensures Put(Put(entries, key, w), key, x) == Put(entries, key, x)
  {
    hide LowerBound;
    LowerBoundAfterPut(entries, key, w);
  }

  /** Replacing at a place and then a child there is replacing at the place the container with that
      child. */
  lemma {:induction false} ChildSet(v: Value, path: Path, c: Value, key: Key, w: Value)
    requires Live(v, path) && (c.Arr? || c.Obj?) && Has(Entries(c), key)
    ensures Live(Set(v, path, c), path + [key]) && Get(Set(v, path, c), path + [key]) == At(Entries(c), key)
    ensures Set(Set(v, path, c), path + [key], w) == Set(v, path, WithChild(c, key, w))
    decreases |path|
  {
    hide Put, At, Has;
    if path == [] {
      assert (path + [key])[1..] == [];
    } else {
      var inner := At(Entries(v), path[0]);
      ChildSet(inner, path[1..], c, key, w);
      assert (path + [key])[1..] == path[1..] + [key];
      AtAfterPut(Entries(v), path[0], Set(inner, path[1..], c), Set(inner, path[1..], WithChild(c, key, w)));
    }
  }

  lemma {:induction false} SetTwice(v: Value, path: Path, w: Value, x: Value)
    requires Live(v, path)
    ensures Set(Set(v, path, w), path, x) == Set(v, path, x) && Live(Set(v, path, w), path)
            && Get(Set(v, path, w), path) == w
    decreases |path|
  {
    hide Put, At, Has;
    if path != [] {
      var inner := At(Entries(v), path[0]);
      SetTwice(inner, path[1..], w, x);
      AtAfterPut(Entries(v), path[0], Set(inner, path[1..], w), Set(inner, path[1..], x));
    }
  }

  lemma PutSame(entries: seq<Entry>, key: Key)
    requires Has(entries, key)
    ensures Put(entries, key, At(entries, key)) == entries
  {
  }

  /** Writing back what is there changes nothing. */
  lemma {:induction false} SetSame(v: Value, path: Path)
    requires Live(v, path)
    ensures Set(v, path, Get(v, path)) == v
    decreases |path|
  {
    hide Put, At, Has;
    if path != [] {
      SetSame(At(Entries(v), path[0]), path[1..]);
      PutSame(Entries(v), path[0]);
    }
  }

  /** `operator[]`, then replacing the child: all that happens is that the container gets the child. */
  lemma ChildInserted(v: Value, path: Path, c: Value, key: Key, w: Value)
    requires Live(v, path) && (c.Arr? || c.Obj?)
    ensures var d := Set(v, path, WithChild(c, key, At(Entries(c), key)));
            && Live(d, path + [key]) && Get(d, path + [key]) == At(Entries(c), key)
            && Set(d, path + [key], w) == Set(v, path, WithChild(c, key, w))
  {
    hide Put, At, Has, Set, Get, Live;
    var child := At(Entries(c), key);
    AtAfterPut(Entries(c), key, child, w);
    ChildSet(v, path, WithChild(c, key, child), key, w);
  }
}
