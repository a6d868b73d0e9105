/**
 * utils.go, second half: the unflattener. `nested` splits every flat key at
 * the delimiter and hands the segments to `makeNested`, which walks down
 * from the root, creating maps for text segments and slices for numeric
 * ones, and stores the value at the end of the walk.
 */
module Nesting {
  import opened Wrappers
  import opened GoStrings
  import opened Values
  import opened Utils

  // ---------------------------------------------------------------------
  // makeNested
  // ---------------------------------------------------------------------

  /**
   * The slice position makeNested uses for a segment: the number it parses
   * to, and position 0 for a segment that is not a number (the source leaves
   * indexArray at its zero value).
   */
  function SegmentIndex(seg: string): int {
    var n := Atoi(seg);
    if n.Some? then n.value else 0
  }

  /**
   * makeNested does not panic: it is given a segment to start from, and on
   * the way down every numeric segment that meets a nil or a slice is a
   * position from 0 to MaxInt64 - 1 (a negative one is out of range for
   * make or for indexing, and MaxInt64 + 1 wraps around to a negative length).
   */
  predicate NestSafe(nested: Value, subKeys: seq<string>)
    decreases |subKeys|
  {
    |subKeys| > 0 &&
    var n := Atoi(subKeys[0]);
    var rest := subKeys[1..];
    match nested
    case Nil =>
      (n.Some? ==> 0 <= n.value < MaxInt64) && (|rest| > 0 ==> NestSafe(Nil, rest))
    case Arr(s) =>
      (n.Some? ==> 0 <= n.value < MaxInt64) &&
      var i := SegmentIndex(subKeys[0]);
      (|rest| > 0 ==> NestSafe(if i < |s| then s[i] else Nil, rest))
    case Obj(m) =>
      |rest| > 0 ==> NestSafe(if subKeys[0] in m then m[subKeys[0]] else Nil, rest)
    case _ => true
  }

  /** A segment that does not make makeNested panic whatever it meets. */
  predicate SafeSegment(seg: string) {
    Atoi(seg).Some? ==> 0 <= Atoi(seg).value < MaxInt64
  }

  /** A key whose segments are safe everywhere. */
  predicate SafeSegments(subKeys: seq<string>) {
    |subKeys| > 0 && forall i :: 0 <= i < |subKeys| ==> SafeSegment(subKeys[i])
  }

  /** n nil slots, as make([]interface{}, n) allocates them. */
  function Nils(n: nat): (r: seq<Value>)
    ensures |r| == n && forall i :: 0 <= i < n ==> r[i] == Nil
  {
    seq(n, _ => Nil)
  }

  /** The node r holds v under the single segment seg, as makeNested writes it. */
  predicate Holds(r: Value, seg: string, v: Value) {
    || (r.Obj? && seg in r.fields && r.fields[seg] == v)
    || (r.Arr? && 0 <= SegmentIndex(seg) < |r.items| && r.items[SegmentIndex(seg)] == v)
  }

  /**
   * makeNested: stores value under the path subKeys inside nested and
   * returns the new root. A nil node becomes a slice (numeric segment, just
   * long enough) or a map; a slice too short for the position grows, padded
   * with nils; a scalar met on the way is left as it is and the value is
   * dropped. The source updates maps and slices in place; here the changed
   * tree is returned.
   */
  function MakeNested(nested: Value, subKeys: seq<string>, value: Value): (r: Value)
    requires NestSafe(nested, subKeys)
    ensures nested.Nil? && Atoi(subKeys[0]).Some? ==>
              && r.Arr? && |r.items| == SegmentIndex(subKeys[0]) + 1
              && forall j :: 0 <= j < |r.items| && j != SegmentIndex(subKeys[0]) ==> r.items[j] == Nil
    ensures nested.Nil? && Atoi(subKeys[0]).None? ==> r.Obj? && r.fields.Keys == {subKeys[0]}
    ensures nested.Obj? ==>
              && r.Obj? && r.fields.Keys == nested.fields.Keys + {subKeys[0]}
              && forall k :: k in nested.fields && k != subKeys[0] ==> r.fields[k] == nested.fields[k]
    ensures nested.Arr? ==>
              var i := SegmentIndex(subKeys[0]);
              && r.Arr? && |r.items| == (if i < |nested.items| then |nested.items| else i + 1)
              && forall j :: 0 <= j < |r.items| && j != i ==>
                   r.items[j] == if j < |nested.items| then nested.items[j] else Nil
    ensures |subKeys| == 1 && (nested.Nil? || nested.Obj? || nested.Arr?) ==> Holds(r, subKeys[0], value)
    ensures !(nested.Nil? || nested.Obj? || nested.Arr?) ==> r == nested
    decreases |subKeys|
  {
    var isLast := |subKeys| == 1;
    var isArray := Atoi(subKeys[0]).Some?;
    var index := SegmentIndex(subKeys[0]);
    var grown :=
      if nested.Nil? && isArray then Arr(Nils(index + 1))
      else if nested.Nil? then Obj(map[])
      else if nested.Arr? && index + 1 > |nested.items| then
        Arr(nested.items + Nils(index + 1 - |nested.items|))
      else nested;
    match grown
    case Arr(s) =>
      Arr(s[index := if isLast then value else MakeNested(s[index], subKeys[1..], value)])
    case Obj(m) =>
      var seg := subKeys[0];
      Obj(m[seg := if isLast then value else MakeNested(if seg in m then m[seg] else Nil, subKeys[1..], value)])
    case _ => grown
  }

  /** Segments that are safe on their own are safe below any node. */
  lemma {:induction false} SafeEverywhere(nested: Value, subKeys: seq<string>)
    requires SafeSegments(subKeys)
    ensures NestSafe(nested, subKeys)
    decreases |subKeys|
  {
    assert SafeSegment(subKeys[0]);
    var rest := subKeys[1..];
    if |rest| > 0 {
      assert forall i :: 0 <= i < |rest| ==> rest[i] == subKeys[i + 1];
      assert SafeSegments(rest);
      match nested
      case Nil => SafeEverywhere(Nil, rest);
      case Arr(s) =>
        var i := SegmentIndex(subKeys[0]);
        SafeEverywhere(if i < |s| then s[i] else Nil, rest);
      case Obj(m) =>
        SafeEverywhere(if subKeys[0] in m then m[subKeys[0]] else Nil, rest);
      case _ =>
    }
  }

  // ---------------------------------------------------------------------
  // The trees that come back unchanged
  // ---------------------------------------------------------------------

  /**
   * A tree that nested rebuilds exactly from its flattened form, for the
   * delimiter character c: every map is non-empty, and its keys are
   * non-empty, free of c and not numbers (a numeric key would come back as
   * a slice position); every slice is non-empty (an empty one leaves no key
   * behind) and no longer than an int64 position can reach; there is no nil
   * and no map with non-string keys.
   */
  ghost predicate WellFormed(v: Value, c: char)
    decreases v
  {
    match v
    case Leaf(_) => true
    case Obj(m) =>
      && m != map[]
      && forall k :: k in m ==> k != [] && c !in k && Atoi(k).None? && WellFormed(m[k], c)
    case Arr(s) =>
      && 0 < |s| <= MaxInt64
      && forall i :: 0 <= i < |s| ==> WellFormed(s[i], c)
    case _ => false
  }

  /** A map or slice at the root, a one-character delimiter that is not a digit, and a well-formed tree. */
  ghost predicate RoundTrippable(t: Value, d: string) {
    |d| == 1 && !IsDigit(d[0]) && (t.Obj? || t.Arr?) && WellFormed(t, d[0])
  }

  /** flat is what flatten writes for t into an empty map. */
  ghost predicate FlattensTo(t: Value, flat: map<string, Value>, d: string) {
    RoundTrippable(t, d) && Absorbs(map[], flat, Leaves(t, "", d))
  }

  /** Non-empty segments, free of c, that makeNested accepts anywhere. */
  ghost predicate GoodPath(p: seq<string>, c: char) {
    forall i :: 0 <= i < |p| ==> p[i] != [] && c !in p[i] && SafeSegment(p[i])
  }

  lemma GoodPathCons(seg: string, p: seq<string>, c: char)
    requires seg != [] && c !in seg && SafeSegment(seg) && GoodPath(p, c)
    ensures GoodPath([seg] + p, c)
  {
    assert forall i :: 1 <= i < |[seg] + p| ==> ([seg] + p)[i] == p[i - 1];
  }

  /** The decimal form of a position is a good segment for any delimiter that is not a digit. */
  lemma GoodIndexSegment(i: nat, c: char)
    requires i < MaxInt64 && !IsDigit(c)
    ensures Itoa(i) != [] && c !in Itoa(i) && SafeSegment(Itoa(i))
  {
    AtoiItoa(i);
    var digits := Itoa(i);
    assert forall j :: 0 <= j < |digits| ==> digits[j] != c;
  }

  /** The leaves of a well-formed tree sit at good paths. */
  lemma {:induction false} EntryPaths(v: Value, c: char, e: Entry)
    requires WellFormed(v, c) && !IsDigit(c) && e in Entries(v)
    ensures GoodPath(e.0, c)
    decreases v
  {
    match v
    case Leaf(_) =>
    case Obj(m) =>
      var k, f :| k in m && f in Entries(m[k]) && e == ([k] + f.0, f.1);
      EntryPaths(m[k], c, f);
      GoodPathCons(k, f.0, c);
    case Arr(s) =>
      var i, f :| 0 <= i < |s| && f in Entries(s[i]) && e == ([Itoa(i)] + f.0, f.1);
      EntryPaths(s[i], c, f);
      GoodIndexSegment(i, c);
      GoodPathCons(Itoa(i), f.0, c);
  }

  /** A path leads to at most one leaf. */
  lemma {:induction false} EntriesFunctional(v: Value, e1: Entry, e2: Entry)
    requires e1 in Entries(v) && e2 in Entries(v) && e1.0 == e2.0
    ensures e1 == e2
    decreases v
  {
    match v
    case Leaf(_) =>
    case Obj(m) =>
      var k1, f1 :| k1 in m && f1 in Entries(m[k1]) && e1 == ([k1] + f1.0, f1.1);
      var k2, f2 :| k2 in m && f2 in Entries(m[k2]) && e2 == ([k2] + f2.0, f2.1);
      assert e1.0[0] == k1 && e2.0[0] == k2;
      assert e1.0[1..] == f1.0 && e2.0[1..] == f2.0;
      EntriesFunctional(m[k1], f1, f2);
    case Arr(s) =>
      var i1, f1 :| 0 <= i1 < |s| && f1 in Entries(s[i1]) && e1 == ([Itoa(i1)] + f1.0, f1.1);
      var i2, f2 :| 0 <= i2 < |s| && f2 in Entries(s[i2]) && e2 == ([Itoa(i2)] + f2.0, f2.1);
      assert e1.0[0] == Itoa(i1) && e2.0[0] == Itoa(i2);
      assert e1.0[1..] == f1.0 && e2.0[1..] == f2.0;
      ItoaInjective(i1, i2);
      EntriesFunctional(s[i1], f1, f2);
  }

  /** A well-formed tree has at least one leaf. */
  lemma {:induction false} EntriesNonEmpty(v: Value, c: char)
    requires WellFormed(v, c)
    ensures Entries(v) != {}
    decreases v
  {
    match v
    case Leaf(_) =>
    case Obj(m) =>
      var k :| k in m;
      EntriesNonEmpty(m[k], c);
      var f :| f in Entries(m[k]);
      assert ([k] + f.0, f.1) in Entries(v);
    case Arr(s) =>
      EntriesNonEmpty(s[0], c);
      var f :| f in Entries(s[0]);
      assert ([Itoa(0)] + f.0, f.1) in Entries(v);
  }

  // ---------------------------------------------------------------------
  // Partial trees
  // ---------------------------------------------------------------------

  /** The entries of E below the segment seg, with seg taken off their paths. */
  ghost function Sub(E: set<Entry>, seg: string): set<Entry> {
    set e | e in E && |e.0| > 0 && e.0[0] == seg :: (e.0[1..], e.1)
  }

  lemma SubOfObj(m: map<string, Value>, k: string)
    requires k in m
    ensures Sub(Entries(Obj(m)), k) == Entries(m[k])
  {
    forall f | f in Entries(m[k])
      ensures f in Sub(Entries(Obj(m)), k)
    {
      var e := ([k] + f.0, f.1);
      assert e in Entries(Obj(m));
      assert e.0[1..] == f.0;
    }
  }

  lemma SubOfArr(s: seq<Value>, i: nat)
    requires i < |s|
    ensures Sub(Entries(Arr(s)), Itoa(i)) == Entries(s[i])
  {
    forall f | f in Entries(s[i])
      ensures f in Sub(Entries(Arr(s)), Itoa(i))
    {
      var e := ([Itoa(i)] + f.0, f.1);
      assert e in Entries(Arr(s));
      assert e.0[1..] == f.0;
    }
    forall f | f in Sub(Entries(Arr(s)), Itoa(i))
      ensures f in Entries(s[i])
    {
      var e :| e in Entries(Arr(s)) && |e.0| > 0 && e.0[0] == Itoa(i) && f == (e.0[1..], e.1);
      var j, g :| 0 <= j < |s| && g in Entries(s[j]) && e == ([Itoa(j)] + g.0, g.1);
      ItoaInjective(i, j);
      assert e.0[1..] == g.0;
    }
  }

  /** One slot past the last slice position that has an entry of E below it (0 if none). */
  ghost function Span(E: set<Entry>, n: nat): (r: nat)
    ensures r <= n
    ensures r > 0 ==> Sub(E, Itoa(r - 1)) != {}
    ensures forall j: nat :: r <= j < n ==> Sub(E, Itoa(j)) == {}
    decreases n
  {
    if n == 0 then 0
    else if Sub(E, Itoa(n - 1)) != {} then n
    else Span(E, n - 1)
  }

  /**
   * The part of t that holds the leaves E: what nested has built of t once
   * it has stored the keys of those leaves, in whatever order.
   */
  ghost function Prune(t: Value, E: set<Entry>): Value
    decreases t
  {
    if E == {} then Nil
    else match t
      case Obj(m) => Obj(map k | k in m && Sub(E, k) != {} :: Prune(m[k], Sub(E, k)))
      case Arr(s) =>
        var n := Span(E, |s|);
        Arr(seq(n, i requires 0 <= i < n => Prune(s[i], Sub(E, Itoa(i)))))
      case _ => t
  }

  /** All leaves stored: the tree is back. */
  lemma PruneComplete(t: Value, c: char)
    requires WellFormed(t, c)
    ensures Prune(t, Entries(t)) == t
    decreases t, 1
  {
    match t
    case Leaf(_) =>
    case Obj(m) => PruneCompleteObj(m, c);
    case Arr(s) => PruneCompleteArr(s, c);
  }

  lemma PruneCompleteObj(m: map<string, Value>, c: char)
    requires WellFormed(Obj(m), c)
    ensures Prune(Obj(m), Entries(Obj(m))) == Obj(m)
    decreases Obj(m), 0
  {
    var t := Obj(m);
    var E := Entries(t);
    EntriesNonEmpty(t, c);
    forall k | k in m
      ensures Sub(E, k) != {} && m[k] == Prune(m[k], Sub(E, k))
    {
      SubOfObj(m, k);
      EntriesNonEmpty(m[k], c);
      PruneComplete(m[k], c);
    }
    PruneObjEq(m, E, m);
  }

  lemma PruneCompleteArr(s: seq<Value>, c: char)
    requires WellFormed(Arr(s), c)
    ensures Prune(Arr(s), Entries(Arr(s))) == Arr(s)
    decreases Arr(s), 0
  {
    var t := Arr(s);
    var E := Entries(t);
    EntriesNonEmpty(t, c);
    assert Span(E, |s|) == |s| by {
      SubOfArr(s, |s| - 1);
      EntriesNonEmpty(s[|s| - 1], c);
    }
    forall i | 0 <= i < |s|
      ensures s[i] == Prune(s[i], Sub(E, Itoa(i)))
    {
      SubOfArr(s, i);
      PruneComplete(s[i], c);
    }
    PruneArrEq(s, E, s);
  }

  lemma SubAdd(E: set<Entry>, e: Entry, seg: string)
    ensures Sub(E + {e}, seg) == Sub(E, seg) + (if |e.0| > 0 && e.0[0] == seg then {(e.0[1..], e.1)} else {})
  {
  }

  /** Adding a leaf below position i stretches the span to cover i. */
  lemma {:induction false} SpanAdd(E: set<Entry>, e: Entry, i: nat, n: nat)
    requires i < n && |e.0| > 0 && e.0[0] == Itoa(i)
    ensures Span(E + {e}, n) == if i < Span(E, n) then Span(E, n) else i + 1
    decreases n
  {
    SubAdd(E, e, Itoa(n - 1));
    if n - 1 != i {
      if Itoa(n - 1) == Itoa(i) {
        ItoaInjective(n - 1, i);
      }
      if Sub(E, Itoa(n - 1)) == {} {
        SpanAdd(E, e, i, n - 1);
      }
    }
  }

  /**
   * The heart of the round trip: storing one more leaf of t with makeNested
   * turns the part of t built so far into the part that also holds that
   * leaf, whatever leaves were stored before.
   */
  lemma Insert(t: Value, c: char, E: set<Entry>, e: Entry)
    requires WellFormed(t, c) && !IsDigit(c)
    requires E <= Entries(t) && e in Entries(t) && e !in E && |e.0| > 0
    ensures NestSafe(Prune(t, E), e.0)
    ensures MakeNested(Prune(t, E), e.0, e.1) == Prune(t, E + {e})
    decreases t, 2
  {
    match t
    case Obj(m) => InsertObj(m, c, E, e);
    case Arr(s) => InsertArr(s, c, E, e);
  }

  /** The leaf a one-segment walk stores is the whole subtree. */
  lemma InsertLeaf(v: Value, E: set<Entry>, f: Entry)
    requires E <= Entries(v) && f in Entries(v) && f !in E && f.0 == []
    ensures E == {} && Prune(v, E + {f}) == f.1
  {
    EntriesAtRoot(v, f);
    assert Entries(v) == {f};
  }

  /** The map node of a non-empty partial tree: its keys and children. */
  lemma PruneObjShape(m: map<string, Value>, E: set<Entry>)
    requires E != {}
    ensures Prune(Obj(m), E).Obj?
    ensures forall k :: k in Prune(Obj(m), E).fields <==> k in m && Sub(E, k) != {}
    ensures forall k :: k in Prune(Obj(m), E).fields ==> Prune(Obj(m), E).fields[k] == Prune(m[k], Sub(E, k))
  {
  }

  /** The slice node of a non-empty partial tree: its length and slots. */
  lemma PruneArrShape(s: seq<Value>, E: set<Entry>)
    requires E != {}
    ensures Prune(Arr(s), E).Arr? && |Prune(Arr(s), E).items| == Span(E, |s|)
    ensures forall j :: 0 <= j < Span(E, |s|) ==> Prune(Arr(s), E).items[j] == Prune(s[j], Sub(E, Itoa(j)))
  {
  }

  /** A map node of a partial tree, from its keys and children. */
  lemma PruneObjEq(m: map<string, Value>, E: set<Entry>, fields: map<string, Value>)
    requires E != {}
    requires forall k :: k in fields <==> k in m && Sub(E, k) != {}
    requires forall k :: k in fields ==> fields[k] == Prune(m[k], Sub(E, k))
    ensures Prune(Obj(m), E) == Obj(fields)
  {
    assert Prune(Obj(m), E).fields == fields;
  }

  /** A slice node of a partial tree, from its slots. */
  lemma PruneArrEq(s: seq<Value>, E: set<Entry>, items: seq<Value>)
    requires E != {}
    requires |items| == Span(E, |s|)
    requires forall j :: 0 <= j < |items| ==> items[j] == Prune(s[j], Sub(E, Itoa(j)))
    ensures Prune(Arr(s), E) == Arr(items)
  {
    assert Prune(Arr(s), E).items == items;
  }

  /** makeNested on a map node (or on nil, which becomes an empty map) with a text segment. */
  lemma MakeNestedOnObj(r: Value, subKeys: seq<string>, v: Value, fields: map<string, Value>)
    requires NestSafe(r, subKeys) && Atoi(subKeys[0]).None?
    requires (r.Nil? && fields == map[]) || (r.Obj? && fields == r.fields)
    ensures MakeNested(r, subKeys, v)
         == Obj(fields[subKeys[0] := if |subKeys| == 1 then v
                                     else MakeNested(if subKeys[0] in fields then fields[subKeys[0]] else Nil, subKeys[1..], v)])
  {
  }

  /** makeNested on a slice node (or on nil, which becomes an empty slice) with position i. */
  lemma MakeNestedOnArr(r: Value, subKeys: seq<string>, v: Value, items: seq<Value>, i: nat)
    requires NestSafe(r, subKeys) && Atoi(subKeys[0]) == Some(i)
    requires (r.Nil? && items == []) || (r.Arr? && items == r.items)
    ensures (var grown := if i + 1 > |items| then items + Nils(i + 1 - |items|) else items;
             MakeNested(r, subKeys, v)
             == Arr(grown[i := if |subKeys| == 1 then v
                               else MakeNested(if i < |items| then items[i] else Nil, subKeys[1..], v)]))
  {
    if r.Nil? {
      assert items + Nils(i + 1) == Nils(i + 1);
    }
  }

  lemma SubAddOther(E: set<Entry>, e: Entry, seg: string)
    requires |e.0| > 0 && e.0[0] != seg
    ensures Sub(E + {e}, seg) == Sub(E, seg)
  {
  }

  lemma SubAddSame(E: set<Entry>, e: Entry)
    requires |e.0| > 0
    ensures Sub(E + {e}, e.0[0]) == Sub(E, e.0[0]) + {(e.0[1..], e.1)}
  {
  }

  /** A leaf not yet in E is not yet below its first segment either. */
  lemma SubFresh(E: set<Entry>, e: Entry)
    requires |e.0| > 0 && e !in E
    ensures (e.0[1..], e.1) !in Sub(E, e.0[0])
  {
    forall g | g in E && |g.0| > 0 && g.0[0] == e.0[0]
      ensures (g.0[1..], g.1) != (e.0[1..], e.1)
    {
      if g.0[1..] == e.0[1..] {
        assert g.0 == [g.0[0]] + g.0[1..];
        assert e.0 == [e.0[0]] + e.0[1..];
      }
    }
  }

  /** The map node after one more leaf below key k: only the child at k changes. */
  lemma ObjStep(m: map<string, Value>, E: set<Entry>, e: Entry, fields: map<string, Value>, x: Value)
    requires |e.0| > 0 && e.0[0] in m
    requires forall k :: k in fields <==> k in m && Sub(E, k) != {}
    requires forall k :: k in fields ==> fields[k] == Prune(m[k], Sub(E, k))
    requires x == Prune(m[e.0[0]], Sub(E + {e}, e.0[0]))
    ensures Prune(Obj(m), E + {e}) == Obj(fields[e.0[0] := x])
  {
    var k := e.0[0];
    var fields' := fields[k := x];
    SubAddSame(E, e);
    forall k' | k' != k
      ensures k' in fields' <==> k' in m && Sub(E + {e}, k') != {}
      ensures k' in fields' ==> fields'[k'] == Prune(m[k'], Sub(E + {e}, k'))
    {
      SubAddOther(E, e, k');
    }
    PruneObjEq(m, E + {e}, fields');
  }

  /** The slice node after one more leaf below position i: it grows to cover i and only slot i changes. */
  lemma ArrStep(s: seq<Value>, E: set<Entry>, e: Entry, i: nat, items: seq<Value>, x: Value)
    requires i < |s| && |e.0| > 0 && e.0[0] == Itoa(i)
    requires |items| == Span(E, |s|)
    requires forall j :: 0 <= j < |items| ==> items[j] == Prune(s[j], Sub(E, Itoa(j)))
    requires x == Prune(s[i], Sub(E + {e}, Itoa(i)))
    ensures var grown := if i + 1 > |items| then items + Nils(i + 1 - |items|) else items;
            Prune(Arr(s), E + {e}) == Arr(grown[i := x])
  {
    var grown := if i + 1 > |items| then items + Nils(i + 1 - |items|) else items;
    SpanAdd(E, e, i, |s|);
    var n' := Span(E + {e}, |s|);
    assert |grown[i := x]| == n';
    forall j | 0 <= j < n'
      ensures grown[i := x][j] == Prune(s[j], Sub(E + {e}, Itoa(j)))
    {
      if j != i {
        if Itoa(j) == Itoa(i) {
          ItoaInjective(j, i);
        }
        SubAddOther(E, e, Itoa(j));
        if j >= |items| {
          assert grown[j] == Nil;
        }
      }
    }
    PruneArrEq(s, E + {e}, grown[i := x]);
  }

  lemma InsertObj(m: map<string, Value>, c: char, E: set<Entry>, e: Entry)
    requires WellFormed(Obj(m), c) && !IsDigit(c)
    requires E <= Entries(Obj(m)) && e in Entries(Obj(m)) && e !in E
    ensures NestSafe(Prune(Obj(m), E), e.0)
    ensures MakeNested(Prune(Obj(m), E), e.0, e.1) == Prune(Obj(m), E + {e})
    decreases Obj(m), 1
  {
    var t := Obj(m);
    var k, f :| k in m && f in Entries(m[k]) && e == ([k] + f.0, f.1);
    assert e.0[0] == k && e.0[1..] == f.0;
    EntryPaths(t, c, e);
    var r := Prune(t, E);
    SafeEverywhere(r, e.0);
    SubOfObj(m, k);
    var below := Sub(E, k);
    assert below <= Entries(m[k]);
    SubFresh(E, e);
    if E != {} {
      PruneObjShape(m, E);
    }
    var fields: map<string, Value> := if E == {} then map[] else r.fields;
    var slot := if k in fields then fields[k] else Nil;
    assert slot == Prune(m[k], below);
    var x := if |e.0| == 1 then e.1 else MakeNested(slot, e.0[1..], e.1);
    if f.0 == [] {
      InsertLeaf(m[k], below, f);
    } else {
      Insert(m[k], c, below, f);
    }
    SubAddSame(E, e);
    MakeNestedOnObj(r, e.0, e.1, fields);
    ObjStep(m, E, e, fields, x);
  }

  lemma InsertArr(s: seq<Value>, c: char, E: set<Entry>, e: Entry)
    requires WellFormed(Arr(s), c) && !IsDigit(c)
    requires E <= Entries(Arr(s)) && e in Entries(Arr(s)) && e !in E
    ensures NestSafe(Prune(Arr(s), E), e.0)
    ensures MakeNested(Prune(Arr(s), E), e.0, e.1) == Prune(Arr(s), E + {e})
    decreases Arr(s), 1
  {
    var t := Arr(s);
    var i, f :| 0 <= i < |s| && f in Entries(s[i]) && e == ([Itoa(i)] + f.0, f.1);
    assert e.0[0] == Itoa(i) && e.0[1..] == f.0;
    var r := Prune(t, E);
    assert NestSafe(r, e.0) && Atoi(e.0[0]) == Some(i) by {
      AtoiItoa(i);
      EntryPaths(t, c, e);
      SafeEverywhere(r, e.0);
    }
    var items := PruneArrItems(s, E);
    InsertItem(s, c, E, e, i, f, items);
    MakeNestedOnArr(r, e.0, e.1, items, i);
    var slot := if i < |items| then items[i] else Nil;
    var x := if |e.0| == 1 then e.1 else MakeNested(slot, e.0[1..], e.1);
    ArrStep(s, E, e, i, items, x);
  }

  /** The items of the slice node built so far: none while no leaf is stored. */
  lemma PruneArrItems(s: seq<Value>, E: set<Entry>) returns (items: seq<Value>)
    ensures (Prune(Arr(s), E).Nil? && items == []) || (Prune(Arr(s), E).Arr? && items == Prune(Arr(s), E).items)
    ensures |items| == Span(E, |s|)
    ensures forall j :: 0 <= j < |items| ==> items[j] == Prune(s[j], Sub(E, Itoa(j)))
  {
    if E == {} {
      items := [];
    } else {
      PruneArrShape(s, E);
      items := Prune(Arr(s), E).items;
    }
  }

  /** Storing the leaf below position i turns slot i into the part of s[i] that also holds it. */
  lemma InsertItem(s: seq<Value>, c: char, E: set<Entry>, e: Entry, i: nat, f: Entry, items: seq<Value>)
    requires WellFormed(Arr(s), c) && !IsDigit(c)
    requires E <= Entries(Arr(s)) && e !in E
    requires i < |s| && f in Entries(s[i]) && e == ([Itoa(i)] + f.0, f.1)
    requires |items| == Span(E, |s|)
    requires forall j :: 0 <= j < |items| ==> items[j] == Prune(s[j], Sub(E, Itoa(j)))
    ensures |f.0| > 0 ==> NestSafe(if i < |items| then items[i] else Nil, f.0)
    ensures (if f.0 == [] then f.1 else MakeNested(if i < |items| then items[i] else Nil, f.0, f.1))
            == Prune(s[i], Sub(E + {e}, Itoa(i)))
    decreases Arr(s), 0
  {
    assert e.0[0] == Itoa(i) && e.0[1..] == f.0;
    SubOfArr(s, i);
    var below := Sub(E, Itoa(i));
    assert below <= Entries(s[i]);
    SubFresh(E, e);
    var slot := if i < |items| then items[i] else Nil;
    assert slot == Prune(s[i], below);
    if f.0 == [] {
      InsertLeaf(s[i], below, f);
    } else {
      Insert(s[i], c, below, f);
    }
    SubAddSame(E, e);
  }

  // ---------------------------------------------------------------------
  // Flat keys and tree paths
  // ---------------------------------------------------------------------

  /** The key flatten writes for the leaf at path p below a value found under key. */
  function KeyFold(key: string, p: seq<string>, d: string): string
    decreases |p|
  {
    if p == [] then key else KeyFold(MakeFlattenKey(key, p[0], d), p[1..], d)
  }

  /** flatten's leaves are the entries of the tree, each under the key of its path. */
  lemma {:induction false} LeavesEntries(v: Value, key: string, d: string)
    ensures Leaves(v, key, d) == set e | e in Entries(v) :: (KeyFold(key, e.0, d), e.1)
    decreases v
  {
    match v
    case Leaf(_) =>
      assert Entries(v) == {([], v)};
      assert KeyFold(key, [], d) == key;
      assert (set e | e in {([], v)} :: (KeyFold(key, e.0, d), e.1)) == {(key, v)};
    case Obj(m) =>
      forall k | k in m
        ensures Leaves(m[k], MakeFlattenKey(key, k, d), d)
             == set f | f in Entries(m[k]) :: (KeyFold(MakeFlattenKey(key, k, d), f.0, d), f.1)
      {
        LeavesEntries(m[k], MakeFlattenKey(key, k, d), d);
      }
      LeavesEntriesObj(m, key, d);
    case Arr(s) =>
      forall i | 0 <= i < |s|
        ensures Leaves(s[i], MakeFlattenKey(key, Itoa(i), d), d)
             == set f | f in Entries(s[i]) :: (KeyFold(MakeFlattenKey(key, Itoa(i), d), f.0, d), f.1)
      {
        LeavesEntries(s[i], MakeFlattenKey(key, Itoa(i), d), d);
      }
      LeavesEntriesArr(s, key, d);
    case _ =>
  }

  /** The map case of LeavesEntries, given the entries of every field. */
  lemma LeavesEntriesObj(m: map<string, Value>, key: string, d: string)
    requires forall k | k in m ::
      Leaves(m[k], MakeFlattenKey(key, k, d), d)
      == set f | f in Entries(m[k]) :: (KeyFold(MakeFlattenKey(key, k, d), f.0, d), f.1)
    ensures Leaves(Obj(m), key, d) == set e | e in Entries(Obj(m)) :: (KeyFold(key, e.0, d), e.1)
  {
    var v := Obj(m);
    forall e | e in Entries(v)
      ensures (KeyFold(key, e.0, d), e.1) in Leaves(v, key, d)
    {
      var k, f :| k in m && f in Entries(m[k]) && e == ([k] + f.0, f.1);
      assert e.0[0] == k && e.0[1..] == f.0;
      var x := (KeyFold(MakeFlattenKey(key, k, d), f.0, d), f.1);
      assert x == (KeyFold(key, e.0, d), e.1);
      assert x in Leaves(m[k], MakeFlattenKey(key, k, d), d);
    }
    forall x | x in Leaves(v, key, d)
      ensures exists e :: e in Entries(v) && x == (KeyFold(key, e.0, d), e.1)
    {
      var k :| k in m && x in Leaves(m[k], MakeFlattenKey(key, k, d), d);
      var f :| f in Entries(m[k]) && x == (KeyFold(MakeFlattenKey(key, k, d), f.0, d), f.1);
      var e := ([k] + f.0, f.1);
      assert e.0[0] == k && e.0[1..] == f.0;
      assert e in Entries(v);
    }
  }

  /** The slice case of LeavesEntries, given the entries of every element. */
  lemma LeavesEntriesArr(s: seq<Value>, key: string, d: string)
    requires forall i | 0 <= i < |s| ::
      Leaves(s[i], MakeFlattenKey(key, Itoa(i), d), d)
      == set f | f in Entries(s[i]) :: (KeyFold(MakeFlattenKey(key, Itoa(i), d), f.0, d), f.1)
    ensures Leaves(Arr(s), key, d) == set e | e in Entries(Arr(s)) :: (KeyFold(key, e.0, d), e.1)
  {
    var v := Arr(s);
    forall e | e in Entries(v)
      ensures (KeyFold(key, e.0, d), e.1) in Leaves(v, key, d)
    {
      var i, f :| 0 <= i < |s| && f in Entries(s[i]) && e == ([Itoa(i)] + f.0, f.1);
      assert e.0[0] == Itoa(i) && e.0[1..] == f.0;
      var x := (KeyFold(MakeFlattenKey(key, Itoa(i), d), f.0, d), f.1);
      assert x == (KeyFold(key, e.0, d), e.1);
      assert x in Leaves(s[i], MakeFlattenKey(key, Itoa(i), d), d);
    }
    forall x | x in Leaves(v, key, d)
      ensures exists e :: e in Entries(v) && x == (KeyFold(key, e.0, d), e.1)
    {
      var i :| 0 <= i < |s| && x in Leaves(s[i], MakeFlattenKey(key, Itoa(i), d), d);
      var f :| f in Entries(s[i]) && x == (KeyFold(MakeFlattenKey(key, Itoa(i), d), f.0, d), f.1);
      var e := ([Itoa(i)] + f.0, f.1);
      assert e.0[0] == Itoa(i) && e.0[1..] == f.0;
      assert e in Entries(v);
    }
  }

  /** Below a non-empty key, the key of a path is the key and the segments joined. */
  lemma {:induction false} KeyFoldJoin(key: string, p: seq<string>, d: string)
    requires key != []
    ensures KeyFold(key, p, d) == Join([key] + p, d)
    decreases |p|
  {
    if p != [] {
      var key' := key + d + p[0];
      KeyFoldJoin(key', p[1..], d);
      if |p| == 1 {
        assert [key] + p == [key, p[0]];
      } else {
        assert ([key] + p)[1..] == p;
        assert ([key'] + p[1..])[1..] == p[1..];
      }
    }
  }

  /** From the root, the key of a path whose first segment is non-empty is the segments joined. */
  lemma RootKey(p: seq<string>, d: string)
    requires |p| > 0 && p[0] != []
    ensures KeyFold("", p, d) == Join(p, d)
  {
    KeyFoldJoin(p[0], p[1..], d);
    assert [p[0]] + p[1..] == p;
  }

  /** The leaves of a map or slice sit below at least one segment. */
  lemma EntryBelowRoot(t: Value, e: Entry)
    requires (t.Obj? || t.Arr?) && e in Entries(t)
    ensures |e.0| > 0
  {
    if e.0 == [] {
      EntriesAtRoot(t, e);
    }
  }

  /** The flat key of a leaf of a round-trippable tree, and the path that splitting it gives back. */
  lemma LeafKey(t: Value, d: string, e: Entry)
    requires RoundTrippable(t, d) && e in Entries(t)
    ensures |e.0| > 0 && GoodPath(e.0, d[0]) && SafeSegments(e.0)
    ensures KeyFold("", e.0, d) == Join(e.0, d)
    ensures Split(Join(e.0, d), d) == e.0
  {
    EntryBelowRoot(t, e);
    EntryPaths(t, d[0], e);
    RootKey(e.0, d);
    assert d == [d[0]];
    SplitJoin(e.0, d[0]);
  }

  /** The leaves of t whose flat keys are among K. */
  ghost function EntriesOfKeys(t: Value, K: set<string>, d: string): set<Entry> {
    set e | e in Entries(t) && Join(e.0, d) in K
  }

  /**
   * In the flat form of a round-trippable tree every key names exactly one
   * leaf, the one whose path the key splits into, and holds its value.
   */
  lemma FlatEntry(t: Value, flat: map<string, Value>, d: string, key: string) returns (e: Entry)
    requires FlattensTo(t, flat, d) && key in flat
    ensures e in Entries(t) && Join(e.0, d) == key && Split(key, d) == e.0 && flat[key] == e.1
    ensures SafeSegments(Split(key, d))
    ensures forall e' :: e' in Entries(t) && Join(e'.0, d) == key ==> e' == e
  {
    LeavesEntries(t, "", d);
    var x := (key, flat[key]);
    assert key in KeysOf(Leaves(t, "", d));
    assert x in Leaves(t, "", d);
    e :| e in Entries(t) && x == (KeyFold("", e.0, d), e.1);
    LeafKey(t, d, e);
    forall e' | e' in Entries(t) && Join(e'.0, d) == key
      ensures e' == e
    {
      LeafKey(t, d, e');
      EntriesFunctional(t, e', e);
    }
  }

  /** Every leaf of a round-trippable tree has its key in the flat form. */
  lemma FlatKeyOf(t: Value, flat: map<string, Value>, d: string, e: Entry)
    requires FlattensTo(t, flat, d) && e in Entries(t)
    ensures Join(e.0, d) in flat
  {
    LeavesEntries(t, "", d);
    LeafKey(t, d, e);
    assert (Join(e.0, d), e.1) in Leaves(t, "", d);
  }

  /** One iteration of nested, on the flat form of a round-trippable tree. */
  lemma NestedStep(t: Value, flat: map<string, Value>, d: string, done: set<string>, key: string)
    requires FlattensTo(t, flat, d) && key in flat && key !in done
    ensures NestSafe(Prune(t, EntriesOfKeys(t, done, d)), Split(key, d))
    ensures MakeNested(Prune(t, EntriesOfKeys(t, done, d)), Split(key, d), flat[key])
         == Prune(t, EntriesOfKeys(t, done + {key}, d))
  {
    var e := FlatEntry(t, flat, d, key);
    var E := EntriesOfKeys(t, done, d);
    EntriesOfKeysAdd(t, d, done, key, e);
    Insert(t, d[0], E, e);
  }

  lemma EntriesOfKeysAdd(t: Value, d: string, done: set<string>, key: string, e: Entry)
    requires e in Entries(t) && Join(e.0, d) == key && key !in done
    requires forall e' :: e' in Entries(t) && Join(e'.0, d) == key ==> e' == e
    ensures EntriesOfKeys(t, done + {key}, d) == EntriesOfKeys(t, done, d) + {e}
    ensures e !in EntriesOfKeys(t, done, d)
  {
  }

  /** Once every key is stored, nested has rebuilt t. */
  lemma NestedDone(t: Value, flat: map<string, Value>, d: string)
    requires FlattensTo(t, flat, d)
    ensures Prune(t, EntriesOfKeys(t, flat.Keys, d)) == t
  {
    forall e | e in Entries(t)
      ensures Join(e.0, d) in flat
    {
      FlatKeyOf(t, flat, d, e);
    }
    assert EntriesOfKeys(t, flat.Keys, d) == Entries(t);
    PruneComplete(t, d[0]);
  }

  // ---------------------------------------------------------------------
  // nested
  // ---------------------------------------------------------------------

  /**
   * nested: rebuilds a tree from a flat map, storing the keys one by one
   * with makeNested in Go's unspecified map order. An empty map gives nil.
   * Whatever the order, the flat form of a round-trippable tree gives that
   * tree back.
   */
  method Nested(flat: map<string, Value>, delimiter: string) returns (result: Value)
    requires forall k :: k in flat ==> SafeSegments(Split(k, delimiter))
    ensures result == Nil <==> flat == map[]
    ensures result.Nil? || result.Obj? || result.Arr?
    ensures forall t :: FlattensTo(t, flat, delimiter) ==> result == t
  {
    result := Nil;
    var rest := flat.Keys;
    while rest != {}
      invariant rest <= flat.Keys
      invariant result == Nil <==> rest == flat.Keys
      invariant result.Nil? || result.Obj? || result.Arr?
      invariant forall t :: FlattensTo(t, flat, delimiter) ==>
                  result == Prune(t, EntriesOfKeys(t, flat.Keys - rest, delimiter))
      decreases rest
    {
      var key :| key in rest;
      var subKeys := Split(key, delimiter);
      SafeEverywhere(result, subKeys);
      var next := MakeNested(result, subKeys, flat[key]);
      forall t | FlattensTo(t, flat, delimiter)
        ensures next == Prune(t, EntriesOfKeys(t, (flat.Keys - rest) + {key}, delimiter))
      {
        NestedStep(t, flat, delimiter, flat.Keys - rest, key);
      }
      assert flat.Keys - (rest - {key}) == (flat.Keys - rest) + {key};
      result := next;
      rest := rest - {key};
    }
    assert flat.Keys - rest == flat.Keys;
    forall t | FlattensTo(t, flat, delimiter)
      ensures result == t
    {
      NestedDone(t, flat, delimiter);
    }
  }

  // ---------------------------------------------------------------------
  // The round trip
  // ---------------------------------------------------------------------

  /** flatten neither panics nor fails on a well-formed tree. */
  lemma {:induction false} WellFormedFlattens(v: Value, c: char)
    requires WellFormed(v, c)
    ensures NilFree(v) && !HasNonStringKey(v)
    decreases v
  {
    match v
    case Leaf(_) =>
    case Obj(m) =>
      forall k | k in m
        ensures m[k] != Nil && NilFree(m[k]) && !HasNonStringKey(m[k])
      {
        WellFormedFlattens(m[k], c);
      }
    case Arr(s) =>
      forall i | 0 <= i < |s|
        ensures s[i] != Nil && NilFree(s[i]) && !HasNonStringKey(s[i])
      {
        WellFormedFlattens(s[i], c);
      }
  }

  /** In the flat form of a round-trippable tree no key is written twice. */
  lemma LeavesFunctional(t: Value, d: string)
    requires RoundTrippable(t, d)
    ensures Functional(Leaves(t, "", d))
  {
    LeavesEntries(t, "", d);
    forall a, b | a in Leaves(t, "", d) && b in Leaves(t, "", d) && a.0 == b.0
      ensures a == b
    {
      var ea :| ea in Entries(t) && a == (KeyFold("", ea.0, d), ea.1);
      var eb :| eb in Entries(t) && b == (KeyFold("", eb.0, d), eb.1);
      LeafKey(t, d, ea);
      LeafKey(t, d, eb);
      EntriesFunctional(t, ea, eb);
    }
  }

  /** Flattening a round-trippable tree and nesting the result gives the tree back. */
  method FlattenThenNest(t: Value, d: string) returns (r: Value)
    requires RoundTrippable(t, d)
    ensures r == t
  {
    WellFormedFlattens(t, d[0]);
    var flat, err := FlattenInto(map[], t, "", d);
    assert FlattensTo(t, flat, d);
    forall k | k in flat
      ensures SafeSegments(Split(k, d))
    {
      var _ := FlatEntry(t, flat, d, k);
    }
    r := Nested(flat, d);
  }

  /** Nesting the flat form of a round-trippable tree and flattening it again gives the flat form back. */
  method NestThenFlatten(flat: map<string, Value>, d: string, ghost t: Value) returns (r: map<string, Value>)
    requires FlattensTo(t, flat, d)
    ensures r == flat
  {
    forall k | k in flat
      ensures SafeSegments(Split(k, d))
    {
      var _ := FlatEntry(t, flat, d, k);
    }
    var tree := Nested(flat, d);
    WellFormedFlattens(t, d[0]);
    var err;
    r, err := FlattenInto(map[], tree, "", d);
    LeavesFunctional(t, d);
    AbsorbsUnique(map[], r, flat, Leaves(t, "", d));
  }
}
