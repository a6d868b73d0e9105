/**
 * The nested values the flattener walks and rebuilds.
 *
 * The source works on Go's `interface{}` and dispatches on the reflected
 * kind of each value; here the kinds it tells apart are the constructors of
 * one datatype.
 */
module Values {
  import opened GoStrings

  /**
   * A scalar leaf. The source stores every value that is not a map, slice or
   * array as it is, without looking inside; strings, integers and booleans
   * stand for all of them.
   */
  datatype Scalar = Str(s: string) | Int(i: int) | Bool(b: bool)

  datatype Value =
    | Nil                                  // the nil interface, also an unfilled slice slot
    | Leaf(scalar: Scalar)                 // any non-container value
    | Arr(items: seq<Value>)               // []interface{} (and any slice or array)
    | Obj(fields: map<string, Value>)      // map[string]interface{}
    | IntKeyed(entries: map<int, Value>)   // a map whose key type is not string

  /** The kinds flatten descends into: maps, slices and arrays. */
  predicate IsContainer(v: Value) {
    v.Arr? || v.Obj? || v.IntKeyed?
  }

  /** A scalar leaf together with the key segments that lead to it. */
  type Entry = (seq<string>, Value)

  /**
   * The leaves of v with their paths: a map contributes its keys, a slice
   * the decimal form of each position, as flatten writes them.
   */
  ghost function Entries(v: Value): set<Entry>
    decreases v
  {
    match v
    case Leaf(_) => {([], v)}
    case Obj(m) => set k, e | k in m && e in Entries(m[k]) :: ([k] + e.0, e.1)
    case Arr(s) => set i, e | 0 <= i < |s| && e in Entries(s[i]) :: ([Itoa(i)] + e.0, e.1)
    case _ => {}
  }

  /** Only a scalar has a leaf at the empty path, and that leaf is itself. */
  lemma EntriesAtRoot(v: Value, e: Entry)
    requires e in Entries(v) && e.0 == []
    ensures v.Leaf? && e.1 == v
  {
  }

  /** Every leaf is a scalar. */
  lemma {:induction false} EntriesAreScalars(v: Value, e: Entry)
    requires e in Entries(v)
    ensures e.1.Leaf?
    decreases v
  {
    match v
    case Leaf(_) =>
    case Obj(m) =>
      var k, f :| k in m && f in Entries(m[k]) && e == ([k] + f.0, f.1);
      EntriesAreScalars(m[k], f);
    case Arr(s) =>
      var i, f :| 0 <= i < |s| && f in Entries(s[i]) && e == ([Itoa(i)] + f.0, f.1);
      EntriesAreScalars(s[i], f);
  }
}
