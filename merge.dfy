/**
 * merge.go: merging stores. A Merge holds a list of stores; Compile copies
 * their pairs, with each store's namespace in front, into one new store,
 * a later store overwriting an earlier one on a shared key.
 */
module Merging {
  import opened Values
  import opened Store

  // ---------------------------------------------------------------------
  // Merged maps
  // ---------------------------------------------------------------------

  /** The maps written one after another into an empty map: a later map wins on a shared key. */
  function MergeAll(maps: seq<map<string, Value>>): map<string, Value>
    decreases |maps|
  {
    if maps == [] then map[] else MergeAll(maps[..|maps| - 1]) + maps[|maps| - 1]
  }

  /** The merge holds a key exactly when one of the maps holds it. */
  lemma {:induction false} MergeAllKeys(maps: seq<map<string, Value>>, k: string)
    ensures k in MergeAll(maps) <==> exists i :: 0 <= i < |maps| && k in maps[i]
    decreases |maps|
  {
    if maps != [] {
      var init := maps[..|maps| - 1];
      MergeAllKeys(init, k);
      assert forall i :: 0 <= i < |init| ==> init[i] == maps[i];
      if k in MergeAll(init) {
        var i :| 0 <= i < |init| && k in init[i];
        assert k in maps[i];
      }
    }
  }

  /** The value of a key in the merge is its value in the last map that holds it. */
  lemma {:induction false} MergeAllLastWins(maps: seq<map<string, Value>>, k: string, i: nat)
    requires i < |maps| && k in maps[i]
    requires forall j :: i < j < |maps| ==> k !in maps[j]
    ensures k in MergeAll(maps) && MergeAll(maps)[k] == maps[i][k]
    decreases |maps|
  {
    if i < |maps| - 1 {
      var init := maps[..|maps| - 1];
      assert forall j :: 0 <= j < |init| ==> init[j] == maps[j];
      MergeAllLastWins(init, k, i);
    }
  }

  /** Writing two maps in the other order can give a different result. */
  lemma MergeAllNotCommutative()
    ensures MergeAll([map["k" := Leaf(Int(1))], map["k" := Leaf(Int(2))]])["k"] == Leaf(Int(2))
    ensures MergeAll([map["k" := Leaf(Int(2))], map["k" := Leaf(Int(1))]])["k"] == Leaf(Int(1))
  {
    var a := [map["k" := Leaf(Int(1))], map["k" := Leaf(Int(2))]];
    var b := [map["k" := Leaf(Int(2))], map["k" := Leaf(Int(1))]];
    assert a[..1] == [a[0]] && [a[0]][..0] == [];
    assert b[..1] == [b[0]] && [b[0]][..0] == [];
  }

  /** What All(true) returns for each store. */
  function Exports(src: seq<Flatten>): (r: seq<map<string, Value>>)
    reads src
    ensures |r| == |src|
    ensures forall i :: 0 <= i < |src| ==> r[i] == Exported(src[i].container, src[i].namespace, true)
    decreases |src|
  {
    if src == [] then []
    else Exports(src[..|src| - 1]) + [Exported(src[|src| - 1].container, src[|src| - 1].namespace, true)]
  }

  /** The list without its second element, as Compile's loop visits it. */
  function SkipSecond<T>(s: seq<T>): (r: seq<T>)
    ensures |r| == if |s| >= 2 then |s| - 1 else |s|
  {
    if |s| >= 2 then s[..1] + s[2..] else s
  }

  /** The visited list keeps the first element and then continues from the third. */
  lemma SkipSecondItems<T>(s: seq<T>, i: nat)
    requires i < |SkipSecond(s)|
    ensures SkipSecond(s)[i] == s[if i == 0 then 0 else i + 1]
  {
  }

  lemma SkipSecondNext<T>(s: seq<T>, n: nat)
    requires n < |s| && n != 1
    ensures SkipSecond(s[..n + 1]) == SkipSecond(s[..n]) + [s[n]]
  {
    if n >= 2 {
      assert s[..n + 1][2..] == s[..n][2..] + [s[n]];
    } else {
      assert s[..1] == [s[0]];
    }
  }

  lemma MergeStep(base: map<string, Value>, entries: map<string, Value>, rest: set<string>, k: string)
    requires k in rest && k in entries
    ensures base + (entries - (rest - {k})) == (base + (entries - rest))[k := entries[k]]
  {
  }

  lemma MergeDone(base: map<string, Value>, entries: map<string, Value>)
    ensures base + (entries - {}) == base + entries
  {
    assert entries - {} == entries;
  }

  /** One more store written into the merge. */
  lemma MergeAllNext(ex: seq<map<string, Value>>, n: nat)
    requires n < |ex|
    ensures MergeAll(ex[..n + 1]) == MergeAll(ex[..n]) + ex[n]
  {
    assert ex[..n + 1][..n] == ex[..n];
  }

  /** One more store written into the merge, the second left out. */
  lemma SkipMergeNext(ex: seq<map<string, Value>>, n: nat)
    requires n < |ex| && n != 1
    ensures MergeAll(SkipSecond(ex[..n + 1])) == MergeAll(SkipSecond(ex[..n])) + ex[n]
  {
    SkipSecondNext(ex, n);
    var t := SkipSecond(ex[..n + 1]);
    assert t[..|t| - 1] == SkipSecond(ex[..n]);
  }

  /** Nothing to merge: the empty map. */
  lemma NoSources(ex: seq<map<string, Value>>)
    requires |ex| == 0
    ensures MergeAll(SkipSecond(ex)) == map[]
  {
  }

  lemma SkipMergeSecond(ex: seq<map<string, Value>>)
    requires 2 <= |ex|
    ensures MergeAll(SkipSecond(ex[..2])) == MergeAll(SkipSecond(ex[..1]))
  {
    assert SkipSecond(ex[..2]) == [ex[0]] == SkipSecond(ex[..1]);
  }

  // ---------------------------------------------------------------------
  // mergeValue
  // ---------------------------------------------------------------------

  /**
   * mergeValue: adds every pair of right, with right's namespace in front,
   * to left and returns left. The source receives both stores by value,
   * but their maps are shared, so left itself changes.
   */
  method MergeValue(left: Flatten, right: Flatten) returns (r: Flatten)
    requires left.Valid()
    modifies left
    ensures r == left && left.Valid()
    ensures left.container == old(left.container) + old(Exported(right.container, right.namespace, true))
    ensures left.namespace == old(left.namespace) && left.delimiter == old(left.delimiter)
  {
    var entries := right.All(true);
    var rest := entries.Keys;
    while rest != {}
      invariant rest <= entries.Keys
      invariant left.Valid() && left.namespace == old(left.namespace) && left.delimiter == old(left.delimiter)
      invariant left.container == old(left.container) + (entries - rest)
      decreases rest
    {
      var k :| k in rest;
      var _ := left.Add(k, entries[k]);
      MergeStep(old(left.container), entries, rest, k);
      rest := rest - {k};
    }
    MergeDone(old(left.container), entries);
    r := left;
  }

  /**
   * One iteration of Compile's loop over n stores, at position index: the
   * first branch needs fewer than two stores, which never reach the loop;
   * the store at position 1 is skipped; any other is merged into result.
   */
  method CompileStep(result: Flatten, right: Flatten, n: nat, ghost ex: seq<map<string, Value>>, index: nat)
      returns (r: Flatten)
    requires n != 1 && index < n == |ex|
    requires result.Valid() && result.container == MergeAll(SkipSecond(ex[..index]))
    requires ex[index] == Exported(right.container, right.namespace, true)
    modifies result
    ensures r == result && r.Valid()
    ensures r.namespace == old(result.namespace) && r.delimiter == old(result.delimiter)
    ensures r.container == MergeAll(SkipSecond(ex[..index + 1]))
  {
    if index == 0 && index + 1 >= n {
      assert false;
    } else if index == 1 {
      SkipMergeSecond(ex);
      r := result;
    } else {
      r := MergeValue(result, right);
      SkipMergeNext(ex, index);
    }
  }

  // ---------------------------------------------------------------------
  // Merge
  // ---------------------------------------------------------------------

  /** The loop of Compile, over a list of stores other than a single one. */
  method CompileLoop(src: seq<Flatten>) returns (r: Flatten)
    requires |src| != 1
    ensures fresh(r) && r.Valid() && r.namespace == "" && r.delimiter == "."
    ensures r.container == MergeAll(SkipSecond(Exports(src)))
  {
    r := new Flatten();
    ghost var ex := Exports(src);
    var index := 0;
    while index < |src|
      invariant 0 <= index <= |src|
      invariant fresh(r) && r.Valid() && r.namespace == "" && r.delimiter == "."
      invariant r.container == MergeAll(SkipSecond(ex[..index]))
    {
      r := CompileStep(r, src[index], |src|, ex, index);
      index := index + 1;
    }
    assert ex[..|src|] == ex;
  }

  class Merge {
    var source: seq<Flatten>

    /** NewMerge: a merge of the given stores, in order. */
    constructor (flattens: seq<Flatten>)
      ensures source == flattens
    {
      source := flattens;
    }

    /**
     * Compile, as written: a single store comes back itself; otherwise a
     * new store receives the pairs of every store but the second. The first
     * branch of the loop needs a list of at most one store, which the loop
     * never sees, and the second skips the store at position 1.
     */
    method Compile() returns (r: Flatten)
      ensures |source| == 1 ==> r == source[0]
      ensures |source| != 1 ==> && fresh(r) && r.Valid() && r.namespace == "" && r.delimiter == "."
                                && r.container == MergeAll(SkipSecond(Exports(source)))
      ensures |source| == 0 ==> r.container == map[]
    {
      if |source| == 1 {
        return source[0];
      }
      r := CompileLoop(source);
      if |source| == 0 {
        NoSources(Exports(source));
      }
    }

    /**
     * Compile as evidently intended: a single store comes back itself;
     * otherwise a new store receives the pairs of every store, in order.
     */
    method CompileAll() returns (r: Flatten)
      ensures |source| == 1 ==> r == source[0]
      ensures |source| != 1 ==> && fresh(r) && r.Valid() && r.namespace == "" && r.delimiter == "."
                                && r.container == MergeAll(Exports(source))
    {
      if |source| == 1 {
        return source[0];
      }
      var result := new Flatten();
      var src := source;
      ghost var ex := Exports(src);
      var index := 0;
      while index < |src|
        invariant 0 <= index <= |src|
        invariant fresh(result) && result.Valid() && result.namespace == "" && result.delimiter == "."
        invariant result.container == MergeAll(ex[..index])
      {
        result := MergeValue(result, src[index]);
        MergeAllNext(ex, index);
        index := index + 1;
      }
      assert ex[..|src|] == ex;
      return result;
    }
  }

  /**
   * With two maps, Compile as written keeps only the first: a key that only
   * the second store holds is lost, while the intended merge keeps it.
   */
  lemma CompileDropsSecond(a: map<string, Value>, b: map<string, Value>, k: string)
    requires k in b && k !in a
    ensures k !in MergeAll(SkipSecond([a, b]))
    ensures k in MergeAll([a, b])
  {
    assert SkipSecond([a, b]) == [a];
    assert [a][..0] == [];
    assert [a, b][..1] == [a];
  }
}
