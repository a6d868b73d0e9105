/**
 * utils.go: the flattener (`flatten`), the unflattener (`nested`,
 * `makeNested`) and the two key builders (`makeFlattenKey`, `makeKey`).
 */
module Utils {
  import opened Wrappers
  import opened GoStrings
  import opened Values

  /** The two ways flatten fails. */
  datatype FlattenError =
    | NotValidInput   // the root is neither a map nor a slice or array
    | KeyNotString    // a map to flatten has keys that are not strings

  // ---------------------------------------------------------------------
  // Keys
  // ---------------------------------------------------------------------

  /** makeFlattenKey: the key of a child, given the key of its parent. */
  function MakeFlattenKey(key: string, subKey: string, delimiter: string): (r: string)
    ensures |r| == if key == [] then |subKey| else |key| + |delimiter| + |subKey|
    ensures key == [] ==> r == subKey
    ensures key != [] ==> key + delimiter <= r && r[|key| + |delimiter|..] == subKey
  {
    if key == [] then subKey else key + delimiter + subKey
  }

  /** makeKey: a key with a namespace in front, joined by a hard-coded ".". */
  function MakeKey(prefix: string, key: string): (r: string)
    ensures |prefix| > 0 ==> prefix + "." <= r && r[|prefix| + 1..] == key
    ensures |prefix| == 0 ==> r == key
  {
    if |prefix| > 0 then prefix + "." + key else key
  }

  /**
   * The key shape makeFlattenKey produces: with a one-character delimiter,
   * the child's key splits into the parent key's segments followed by the
   * segments of the sub-key, and an empty parent adds no segment at all.
   */
  lemma FlattenKeySegments(key: string, subKey: string, c: char)
    ensures Split(MakeFlattenKey(key, subKey, [c]), [c])
         == if key == [] then Split(subKey, [c]) else Split(key, [c]) + Split(subKey, [c])
  {
    if key != [] {
      SplitConcat(key, subKey, c);
    }
  }

  /**
   * makeKey is injective for a fixed namespace, so prefixing the keys of a
   * store with its namespace never merges two keys.
   */
  lemma MakeKeyInjective(prefix: string, k1: string, k2: string)
    requires MakeKey(prefix, k1) == MakeKey(prefix, k2)
    ensures k1 == k2
  {
    if |prefix| > 0 {
      var n := |prefix| + 1;
      assert k1 == MakeKey(prefix, k1)[n..];
      assert k2 == MakeKey(prefix, k2)[n..];
    }
  }

  // ---------------------------------------------------------------------
  // flatten
  // ---------------------------------------------------------------------

  /**
   * Inputs on which flatten does not panic: no nil element inside (the
   * source calls Interface() on the zero reflect.Value it gets for one).
   * A nil root is not a panic: it is rejected as NotValidInput.
   */
  ghost predicate NilFree(v: Value)
    decreases v
  {
    match v
    case Obj(m) => forall k :: k in m ==> m[k] != Nil && NilFree(m[k])
    case Arr(s) => forall i :: 0 <= i < |s| ==> s[i] != Nil && NilFree(s[i])
    case _ => true
  }

  /** Some map below (or at) v has a non-string key and at least one entry. */
  ghost predicate HasNonStringKey(v: Value)
    decreases v
  {
    match v
    case Obj(m) => exists k :: k in m && HasNonStringKey(m[k])
    case Arr(s) => exists i :: 0 <= i < |s| && HasNonStringKey(s[i])
    case IntKeyed(m) => m != map[]
    case _ => false
  }

  /** The error flatten reports on v, if any. */
  ghost function FlattenOutcome(v: Value): Option<FlattenError> {
    if !IsContainer(v) then Some(NotValidInput)
    else if HasNonStringKey(v) then Some(KeyNotString)
    else None
  }

  /** The (key, leaf) pairs flatten writes for the value v found under key. */
  ghost function Leaves(v: Value, key: string, d: string): set<(string, Value)>
    decreases v
  {
    match v
    case Leaf(_) => {(key, v)}
    case Obj(m) => set k, e | k in m && e in Leaves(m[k], MakeFlattenKey(key, k, d), d) :: e
    case Arr(s) => set i, e | 0 <= i < |s| && e in Leaves(s[i], MakeFlattenKey(key, Itoa(i), d), d) :: e
    case _ => {}
  }

  /** The pairs written for the fields of m named in done. */
  ghost function FieldLeaves(m: map<string, Value>, done: set<string>, key: string, d: string): set<(string, Value)> {
    set k, e | k in done && k in m && e in Leaves(m[k], MakeFlattenKey(key, k, d), d) :: e
  }

  /** The pairs written for the first n elements of s. */
  ghost function ItemLeaves(s: seq<Value>, n: int, key: string, d: string): set<(string, Value)> {
    set i, e | 0 <= i < n && i < |s| && e in Leaves(s[i], MakeFlattenKey(key, Itoa(i), d), d) :: e
  }

  lemma FieldLeavesAdd(m: map<string, Value>, done: set<string>, k: string, key: string, d: string)
    requires k in m
    ensures FieldLeaves(m, done + {k}, key, d) == FieldLeaves(m, done, key, d) + Leaves(m[k], MakeFlattenKey(key, k, d), d)
  {
  }

  lemma FieldLeavesAll(m: map<string, Value>, key: string, d: string)
    ensures FieldLeaves(m, m.Keys, key, d) == Leaves(Obj(m), key, d)
  {
  }

  lemma ItemLeavesAdd(s: seq<Value>, i: int, key: string, d: string)
    requires 0 <= i < |s|
    ensures ItemLeaves(s, i + 1, key, d) == ItemLeaves(s, i, key, d) + Leaves(s[i], MakeFlattenKey(key, Itoa(i), d), d)
  {
  }

  lemma ItemLeavesAll(s: seq<Value>, key: string, d: string)
    ensures ItemLeaves(s, |s|, key, d) == Leaves(Arr(s), key, d)
  {
  }

  /** The pairs of a map are those of one field and those of the others. */
  lemma LeavesField(m: map<string, Value>, k: string, key: string, d: string)
    requires k in m
    ensures Leaves(Obj(m), key, d) == Leaves(Obj(m - {k}), key, d) + Leaves(m[k], MakeFlattenKey(key, k, d), d)
  {
    var rest := m - {k};
    forall e | e in Leaves(Obj(m), key, d)
      ensures e in Leaves(Obj(rest), key, d) + Leaves(m[k], MakeFlattenKey(key, k, d), d)
    {
      var k' :| k' in m && e in Leaves(m[k'], MakeFlattenKey(key, k', d), d);
      if k' != k {
        assert k' in rest && rest[k'] == m[k'];
      }
    }
    forall e | e in Leaves(Obj(rest), key, d)
      ensures e in Leaves(Obj(m), key, d)
    {
      var k' :| k' in rest && e in Leaves(rest[k'], MakeFlattenKey(key, k', d), d);
      assert k' in m && rest[k'] == m[k'];
    }
  }

  /** flatten writes only scalars: a map or slice is walked into, never stored itself. */
  lemma {:induction false} LeavesAreScalars(v: Value, key: string, d: string, e: (string, Value))
    requires e in Leaves(v, key, d)
    ensures e.1.Leaf?
    decreases v
  {
    match v
    case Leaf(_) =>
    case Obj(m) =>
      var k :| k in m && e in Leaves(m[k], MakeFlattenKey(key, k, d), d);
      LeavesAreScalars(m[k], MakeFlattenKey(key, k, d), d, e);
    case Arr(s) =>
      var i :| 0 <= i < |s| && e in Leaves(s[i], MakeFlattenKey(key, Itoa(i), d), d);
      LeavesAreScalars(s[i], MakeFlattenKey(key, Itoa(i), d), d, e);
  }

  /** Flattening a map of scalars at the root gives its own pairs: each key is kept as it is. */
  lemma ReflattenFlat(c: map<string, Value>, d: string)
    requires forall k :: k in c ==> c[k].Leaf?
    ensures Leaves(Obj(c), "", d) == set k | k in c :: (k, c[k])
  {
    forall k | k in c
      ensures Leaves(c[k], MakeFlattenKey("", k, d), d) == {(k, c[k])}
    {
    }
  }

  /** A map absorbs its own pairs into the empty map. */
  lemma AbsorbsOwnPairs(c: map<string, Value>)
    ensures Absorbs(map[], c, set k | k in c :: (k, c[k]))
  {
    var L := set k | k in c :: (k, c[k]);
    forall k | k in c
      ensures k in KeysOf(L)
    {
      assert (k, c[k]) in L;
    }
  }

  /** A map of scalars neither holds nil nor makes flatten fail. */
  lemma ScalarsFlatten(c: map<string, Value>)
    requires forall k :: k in c ==> c[k].Leaf?
    ensures NilFree(Obj(c)) && FlattenOutcome(Obj(c)) == None
  {
    assert !HasNonStringKey(Obj(c)) by {
      forall k | k in c
        ensures !HasNonStringKey(c[k])
      {
      }
    }
  }

  /**
   * flatten is idempotent: its output, flattened again as a map at the
   * root, succeeds and writes exactly the same pairs.
   */
  lemma FlattenIdempotent(t: Value, c: map<string, Value>, d: string)
    requires Absorbs(map[], c, Leaves(t, "", d))
    ensures NilFree(Obj(c)) && FlattenOutcome(Obj(c)) == None
    ensures Absorbs(map[], c, Leaves(Obj(c), "", d))
  {
    assert forall k :: k in c ==> c[k].Leaf? by {
      forall k | k in c
        ensures c[k].Leaf?
      {
        LeavesAreScalars(t, "", d, (k, c[k]));
      }
    }
    ScalarsFlatten(c);
    ReflattenFlat(c, d);
    AbsorbsOwnPairs(c);
  }

  /** No element among the first n of s makes flatten fail. */
  ghost predicate ItemsClean(s: seq<Value>, n: int) {
    forall j :: 0 <= j < n && j < |s| ==> !HasNonStringKey(s[j])
  }

  /** No field of m named in done makes flatten fail. */
  ghost predicate FieldsClean(m: map<string, Value>, done: set<string>) {
    forall k :: k in done && k in m ==> !HasNonStringKey(m[k])
  }

  lemma ItemsCleanStep(s: seq<Value>, i: int)
    requires 0 <= i < |s| && ItemsClean(s, i) && !HasNonStringKey(s[i])
    ensures ItemsClean(s, i + 1)
  {
  }

  ghost function KeysOf(entries: set<(string, Value)>): set<string> {
    set e | e in entries :: e.0
  }

  /**
   * after is before with the pairs of entries written into it, in some order:
   * it has the keys of both, a written key holds one of the values written
   * for it, and every other key keeps its value. When no key is written
   * twice this pins after down completely (AbsorbsUnique).
   */
  ghost predicate Absorbs(before: map<string, Value>, after: map<string, Value>, entries: set<(string, Value)>) {
    && after.Keys == before.Keys + KeysOf(entries)
    && (forall k :: k in after && k in KeysOf(entries) ==> (k, after[k]) in entries)
    && (forall k :: k in after && k !in KeysOf(entries) ==> after[k] == before[k])
  }

  /** No key is written with two different values. */
  ghost predicate Functional(entries: set<(string, Value)>) {
    forall a, b :: a in entries && b in entries && a.0 == b.0 ==> a == b
  }

  /** When no key is written twice, the order of the writes does not matter. */
  lemma AbsorbsUnique(before: map<string, Value>, a1: map<string, Value>, a2: map<string, Value>,
                      entries: set<(string, Value)>)
    requires Functional(entries)
    requires Absorbs(before, a1, entries) && Absorbs(before, a2, entries)
    ensures a1 == a2
  {
    forall k | k in a1
      ensures a1[k] == a2[k]
    {
      if k in KeysOf(entries) {
        assert (k, a1[k]) in entries && (k, a2[k]) in entries;
      }
    }
  }

  lemma AbsorbsTrans(a: map<string, Value>, b: map<string, Value>, c: map<string, Value>,
                     l1: set<(string, Value)>, l2: set<(string, Value)>)
    requires Absorbs(a, b, l1) && Absorbs(b, c, l2)
    ensures Absorbs(a, c, l1 + l2)
  {
    assert KeysOf(l1 + l2) == KeysOf(l1) + KeysOf(l2);
  }

  /**
   * flatten: writes every scalar leaf of nested into flatMap under its
   * joined key and returns the map, or reports why it cannot. The source
   * mutates the caller's map; here the map goes in and comes out again.
   * Map entries are visited in an unspecified order, as Go's range does.
   */
  method FlattenInto(flatMap: map<string, Value>, nested: Value, key: string, delimiter: string)
    returns (out: map<string, Value>, err: Option<FlattenError>)
    requires NilFree(nested)
    ensures err == FlattenOutcome(nested)
    ensures err.None? ==> Absorbs(flatMap, out, Leaves(nested, key, delimiter))
    ensures !IsContainer(nested) ==> out == flatMap
    decreases nested, 1
  {
    match nested {
      case Obj(m) =>
        out, err := FlattenFields(flatMap, m, key, delimiter);
      case Arr(s) =>
        out, err := FlattenItems(flatMap, s, key, delimiter);
      case IntKeyed(m) =>
        // The key kind is checked inside the range loop: an empty map passes.
        out := flatMap;
        err := if m != map[] then Some(KeyNotString) else None;
      case _ =>
        out := flatMap;
        err := Some(NotValidInput);
    }
  }

  /** One more field written: its pairs join those of the fields before it. */
  lemma FieldStep(flatMap: map<string, Value>, out: map<string, Value>, next: map<string, Value>,
                  m: map<string, Value>, done: set<string>, k: string, key: string, d: string)
    requires k in m && FieldsClean(m, done) && !HasNonStringKey(m[k])
    requires Absorbs(flatMap, out, FieldLeaves(m, done, key, d))
    requires Absorbs(out, next, Leaves(m[k], MakeFlattenKey(key, k, d), d))
    ensures FieldsClean(m, done + {k})
    ensures Absorbs(flatMap, next, FieldLeaves(m, done + {k}, key, d))
  {
    AbsorbsTrans(flatMap, out, next, FieldLeaves(m, done, key, d), Leaves(m[k], MakeFlattenKey(key, k, d), d));
    FieldLeavesAdd(m, done, k, key, d);
  }

  /** The map case of flatten: every field, in Go's unspecified range order. */
  method FlattenFields(flatMap: map<string, Value>, m: map<string, Value>, key: string, delimiter: string)
    returns (out: map<string, Value>, err: Option<FlattenError>)
    requires NilFree(Obj(m))
    ensures err == FlattenOutcome(Obj(m))
    ensures err.None? ==> Absorbs(flatMap, out, Leaves(Obj(m), key, delimiter))
    decreases Obj(m), 0
  {
    out := flatMap;
    var rest := m.Keys;
    ghost var done: set<string> := {};
    while rest != {}
      invariant done + rest == m.Keys && done !! rest
      invariant FieldsClean(m, done)
      invariant Absorbs(flatMap, out, FieldLeaves(m, done, key, delimiter))
      decreases rest
    {
      var k :| k in rest;
      var newKey := MakeFlattenKey(key, k, delimiter);
      var next, e := Assign(out, newKey, m[k], delimiter);
      if e.Some? {
        assert HasNonStringKey(m[k]);
        return next, e;
      }
      FieldStep(flatMap, out, next, m, done, k, key, delimiter);
      out := next;
      rest := rest - {k};
      done := done + {k};
    }
    assert done == m.Keys;
    FieldLeavesAll(m, key, delimiter);
    err := None;
  }

  /** The slice case of flatten: every element, by position. */
  method FlattenItems(flatMap: map<string, Value>, s: seq<Value>, key: string, delimiter: string)
    returns (out: map<string, Value>, err: Option<FlattenError>)
    requires NilFree(Arr(s))
    ensures err == FlattenOutcome(Arr(s))
    ensures err.None? ==> Absorbs(flatMap, out, Leaves(Arr(s), key, delimiter))
    decreases Arr(s), 0
  {
    out := flatMap;
    var i := 0;
    while i < |s|
      invariant 0 <= i <= |s|
      invariant ItemsClean(s, i)
      invariant Absorbs(flatMap, out, ItemLeaves(s, i, key, delimiter))
    {
      var newKey := MakeFlattenKey(key, Itoa(i), delimiter);
      var next, e := Assign(out, newKey, s[i], delimiter);
      if e.Some? {
        assert HasNonStringKey(s[i]);
        return next, e;
      }
      ItemsCleanStep(s, i);
      AbsorbsTrans(flatMap, out, next, ItemLeaves(s, i, key, delimiter), Leaves(s[i], newKey, delimiter));
      ItemLeavesAdd(s, i, key, delimiter);
      out := next;
      i := i + 1;
    }
    ItemLeavesAll(s, key, delimiter);
    err := None;
  }

  /**
   * The `assign` closure of flatten: a container value is flattened under
   * newKey, anything else is stored at newKey.
   */
  method Assign(flatMap: map<string, Value>, newKey: string, value: Value, delimiter: string)
    returns (out: map<string, Value>, err: Option<FlattenError>)
    requires value != Nil && NilFree(value)
    ensures err == if HasNonStringKey(value) then Some(KeyNotString) else None
    ensures err.None? ==> Absorbs(flatMap, out, Leaves(value, newKey, delimiter))
    decreases value, 2
  {
    if IsContainer(value) {
      out, err := FlattenInto(flatMap, value, newKey, delimiter);
    } else {
      out, err := flatMap[newKey := value], None;
      assert KeysOf({(newKey, value)}) == {newKey};
    }
  }
}
