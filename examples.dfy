/**
 * The scenarios of flatten_test.go, stated over the model: each method runs
 * the calls of one test and its ensures states what the test asserts.
 */
module Scenarios {
  import opened Wrappers
  import opened GoStrings
  import opened Values
  import opened Utils
  import opened Nesting
  import opened KeyIndex
  import opened Store

  /** The index of a store with one key: the key is listed, alone, under each of its prefixes. */
  lemma SingleKeyIndex(key: string)
    ensures key in MetaKeyAdded(map[], key) && MetaKeyAdded(map[], key)[key] == [key]
  {
    assert key in PrefixSet(key) by {
      assert Prefixes(key)[|Prefixes(key)| - 1] == key;
    }
  }

  /** TestFlatten_Add: a value added under a key is what Get returns for it. */
  method AddThenGet() returns (r: Lookup)
    ensures r == Found(Leaf(Str("yep")))
  {
    var flat := new Flatten();
    var _ := flat.Add("test.abs.1", Leaf(Str("yep")));
    SingleKeyIndex("test.abs.1");
    r := flat.Get("test.abs.1");
  }

  /** TestFlatten_Delete: after Delete, Get finds nothing under the key. */
  method AddDeleteGet() returns (before: Lookup, after: Lookup)
    ensures before == Found(Leaf(Str("yep")))
    ensures after == Missing
  {
    var flat := new Flatten();
    var _ := flat.Add("test.abs.1", Leaf(Str("yep")));
    SingleKeyIndex("test.abs.1");
    before := flat.Get("test.abs.1");
    flat.Delete("test.abs.1");
    assert flat.container == map[];
    SubTreeEmpty(flat.container, "test.abs.1");
    after := flat.Get("test.abs.1");
  }

  /**
   * TestFlatten_ToNested and TestFlatten_ToJson: a store made from a
   * round-trippable tree gives that tree back, with or without asking for
   * the (empty) namespace.
   */
  method FromMapToNested(t: Value, withNamespace: bool) returns (r: Value)
    requires RoundTrippable(t, ".")
    ensures r == t
  {
    WellFormedFlattens(t, '.');
    var flat, err := NewFlattenFromMap(t);
    ExportedPlain(flat.container, flat.namespace, withNamespace);
    assert FlattensTo(t, flat.container, ".");
    forall k | k in flat.container
      ensures SafeSegments(Split(k, "."))
    {
      var _ := FlatEntry(t, flat.container, ".", k);
    }
    r := flat.ToNested(withNamespace);
  }

  // ---------------------------------------------------------------------
  // TestFlatten_Get and TestNewFlattenFromMapNested
  // ---------------------------------------------------------------------

  /** {"test": "a", "test01": {"a": {"avt": "hi"}}} */
  function Sample(): Value {
    Obj(map["test" := Leaf(Str("a")), "test01" := Obj(map["a" := Obj(map["avt" := Leaf(Str("hi"))])])])
  }

  /** The branch "test01" of Sample holds the one leaf "test01.a.avt". */
  lemma SampleBranchLeaves()
    ensures Leaves(Obj(map["a" := Obj(map["avt" := Leaf(Str("hi"))])]), "test01", ".") == {("test01.a.avt", Leaf(Str("hi")))}
  {
    var hi := Leaf(Str("hi"));
    var inner := Obj(map["avt" := hi]);
    LeavesField(map["avt" := hi], "avt", "test01.a", ".");
    assert map["avt" := hi] - {"avt"} == map[];
    assert MakeFlattenKey("test01.a", "avt", ".") == "test01.a.avt";
    assert Leaves(Obj(map[]), "test01.a", ".") == {};
    assert Leaves(inner, "test01.a", ".") == {("test01.a.avt", hi)};
    LeavesField(map["a" := inner], "a", "test01", ".");
    assert map["a" := inner] - {"a"} == map[];
    assert MakeFlattenKey("test01", "a", ".") == "test01.a";
    assert Leaves(Obj(map[]), "test01", ".") == {};
  }

  /** Sample without its field "test": the one leaf "test01.a.avt". */
  lemma SampleRestLeaves()
    ensures Leaves(Obj(map["test01" := Obj(map["a" := Obj(map["avt" := Leaf(Str("hi"))])])]), "", ".")
         == {("test01.a.avt", Leaf(Str("hi")))}
  {
    var mid := Obj(map["a" := Obj(map["avt" := Leaf(Str("hi"))])]);
    SampleBranchLeaves();
    LeavesField(map["test01" := mid], "test01", "", ".");
    assert map["test01" := mid] - {"test01"} == map[];
    assert Leaves(Obj(map[]), "", ".") == {};
  }

  lemma SampleLeaves()
    ensures Leaves(Sample(), "", ".") == {("test", Leaf(Str("a"))), ("test01.a.avt", Leaf(Str("hi")))}
  {
    var a := Leaf(Str("a"));
    var mid := Obj(map["a" := Obj(map["avt" := Leaf(Str("hi"))])]);
    var m := Sample().fields;
    var rest := Leaves(Obj(map["test01" := mid]), "", ".");
    assert rest == {("test01.a.avt", Leaf(Str("hi")))} by {
      SampleRestLeaves();
    }
    assert Leaves(Sample(), "", ".") == rest + Leaves(a, "test", ".") by {
      LeavesField(m, "test", "", ".");
      assert m - {"test"} == map["test01" := mid];
    }
    assert Leaves(a, "test", ".") == {("test", a)};
  }

  lemma NotANumber(s: string)
    requires |s| > 0 && !IsDigit(s[0]) && s[0] != '+' && s[0] != '-'
    ensures Atoi(s).None?
  {
  }

  lemma SampleIsRoundTrippable()
    ensures RoundTrippable(Sample(), ".")
  {
    NotANumber("test");
    NotANumber("test01");
    SampleBranchWellFormed();
    assert '.' !in "test" && '.' !in "test01";
    assert WellFormed(Leaf(Str("a")), '.');
    assert "test" in Sample().fields;
  }

  /** The branch of the sample under "test01" is well formed. */
  lemma SampleBranchWellFormed()
    ensures WellFormed(Obj(map["a" := Obj(map["avt" := Leaf(Str("hi"))])]), '.')
  {
    NotANumber("a");
    NotANumber("avt");
    var hi := Leaf(Str("hi"));
    assert '.' !in "avt" && '.' !in "a";
    assert WellFormed(hi, '.');
    assert "avt" in map["avt" := hi];
    assert WellFormed(Obj(map["avt" := hi]), '.');
    assert "a" in map["a" := Obj(map["avt" := hi])];
  }

  /** A map holding exactly the two sample pairs, each written once. */
  lemma SampleContainer(c: map<string, Value>)
    requires Absorbs(map[], c, {("test", Leaf(Str("a"))), ("test01.a.avt", Leaf(Str("hi")))})
    ensures c == map["test" := Leaf(Str("a")), "test01.a.avt" := Leaf(Str("hi"))]
  {
    var a := Leaf(Str("a"));
    var hi := Leaf(Str("hi"));
    var L := {("test", a), ("test01.a.avt", hi)};
    assert KeysOf(L) == {"test", "test01.a.avt"} by {
      assert ("test", a).0 == "test";
      assert ("test01.a.avt", hi).0 == "test01.a.avt";
    }
    assert c.Keys == {"test", "test01.a.avt"};
    assert ("test", c["test"]) in L;
    assert ("test01.a.avt", c["test01.a.avt"]) in L;
    assert "test" != "test01.a.avt";
  }

  /** A stored key that no other stored key extends is listed alone under itself. */
  lemma OnlyListed(ks: KeyStore, key: string, keys: set<string>)
    requires IsIndexOf(keys, ks) && key in keys
    requires forall v :: v in keys && v != key ==> !(key + "." <= v)
    ensures key in ks && ks[key] == [key]
  {
    PrefixShape(key, key);
    var list := ks[key];
    forall j | 0 <= j < |list|
      ensures list[j] == key
    {
      assert list[j] in list;
      assert list[j] in keys && key in Prefixes(list[j]);
      PrefixShape(key, list[j]);
    }
    if |list| > 1 {
      NoDupTwo(list);
      assert false;
    }
    assert list == [list[0]];
  }

  lemma NoDupTwo(s: seq<string>)
    requires NoDup(s) && |s| > 1
    ensures s[0] != s[1]
  {
  }

  /** Below "test01.a" the sample store holds "avt" alone. */
  lemma SampleSubTree(c: map<string, Value>)
    requires c == map["test" := Leaf(Str("a")), "test01.a.avt" := Leaf(Str("hi"))]
    ensures SubTree(c, "test01.a") == map["avt" := Leaf(Str("hi"))]
  {
    SubTreeLookup(c, "test01.a", "avt");
    assert "test01.a" + "." + "avt" == "test01.a.avt";
    forall s | s in SubTree(c, "test01.a")
      ensures s == "avt"
    {
      SubTreeLookup(c, "test01.a", s);
      assert "test01.a" + "." + s == "test01.a.avt";
      assert s == ("test01.a" + "." + s)[9..];
    }
  }

  /** Get on a stored key that no other stored key extends gives its value. */
  method GetLeaf(data: Flatten, key: string) returns (r: Lookup)
    requires data.Valid() && key in data.container
    requires forall v :: v in data.container && v != key ==> !(key + "." <= v)
    ensures r == Found(data.container[key])
  {
    OnlyListed(data.keyStore, key, data.container.Keys);
    r := data.Get(key);
  }

  /**
   * Add then Get, for any store: the value added under a key that no other
   * stored key extends is what Get returns for it.
   */
  method AddGet(flat: Flatten, key: string, value: Value) returns (r: Lookup)
    requires flat.Valid()
    requires forall v :: v in flat.container && v != key ==> !(key + "." <= v)
    modifies flat
    ensures r == Found(value)
  {
    var _ := flat.Add(key, value);
    r := GetLeaf(flat, key);
  }

  /** Get on the inner key "test01.a" of the sample store gives the store of the pair below it. */
  method GetInner(data: Flatten) returns (r: Lookup)
    requires data.Valid()
    requires data.container == map["test" := Leaf(Str("a")), "test01.a.avt" := Leaf(Str("hi"))]
    ensures r.Branch? && r.store.container == map["avt" := Leaf(Str("hi"))]
  {
    var c := data.container;
    SampleSubTree(c);
    assert "test01.a" !in c;
    assert SubTree(c, "test01.a") != map[] by {
      assert "avt" in SubTree(c, "test01.a");
    }
    r := data.Get("test01.a");
  }

  /** The three Get calls of TestFlatten_Get, on the store made from Sample. */
  method SampleGets(data: Flatten) returns (inner: Lookup, test: Lookup, leaf: Lookup)
    requires data.Valid()
    requires data.container == map["test" := Leaf(Str("a")), "test01.a.avt" := Leaf(Str("hi"))]
    ensures inner.Branch? && inner.store.container == map["avt" := Leaf(Str("hi"))]
    ensures test == Found(Leaf(Str("a")))
    ensures leaf == Found(Leaf(Str("hi")))
  {
    inner := GetInner(data);
    assert !("test" + "." <= "test01.a.avt") by {
      assert ("test" + ".")[4] != "test01.a.avt"[4];
    }
    test := GetLeaf(data, "test");
    leaf := GetLeaf(data, "test01.a.avt");
  }

  /**
   * TestFlatten_Get: on the store made from Sample, an inner key gives a
   * store of the pairs below it, and the keys of leaves give their values.
   */
  method FromMapGet() returns (inner: Lookup, test: Lookup, leaf: Lookup)
    ensures inner.Branch? && inner.store.container == map["avt" := Leaf(Str("hi"))]
    ensures test == Found(Leaf(Str("a")))
    ensures leaf == Found(Leaf(Str("hi")))
  {
    SampleIsRoundTrippable();
    WellFormedFlattens(Sample(), '.');
    var data, err := NewFlattenFromMap(Sample());
    SampleLeaves();
    SampleContainer(data.container);
    inner, test, leaf := SampleGets(data);
  }

  // ---------------------------------------------------------------------
  // TestNewFlattenFromMapFlatten
  // ---------------------------------------------------------------------

  /** {"test": "a", "test01.a.avt": "hi"}: the sample already in flat form. */
  function FlatSample(): Value {
    Obj(map["test" := Leaf(Str("a")), "test01.a.avt" := Leaf(Str("hi"))])
  }

  lemma FlatSampleLeaves()
    ensures Leaves(FlatSample(), "", ".") == {("test", Leaf(Str("a"))), ("test01.a.avt", Leaf(Str("hi")))}
  {
    var c := FlatSample().fields;
    ReflattenFlat(c, ".");
    var L := set k | k in c :: (k, c[k]);
    assert ("test", c["test"]) in L && ("test01.a.avt", c["test01.a.avt"]) in L;
    assert c.Keys == {"test", "test01.a.avt"};
  }

  /** Flattening the flat sample writes the same pairs as flattening the nested one. */
  lemma SampleReflattens()
    ensures Leaves(FlatSample(), "", ".") == Leaves(Sample(), "", ".")
  {
    FlatSampleLeaves();
    SampleLeaves();
  }

  /**
   * TestNewFlattenFromMapFlatten: on the store made from the flat sample,
   * the inner key gives a store of the pair below it, and the keys of
   * leaves give their values.
   */
  method FromMapFlatGet() returns (inner: Lookup, test: Lookup, leaf: Lookup)
    ensures inner.Branch? && inner.store.container == map["avt" := Leaf(Str("hi"))]
    ensures test == Found(Leaf(Str("a")))
    ensures leaf == Found(Leaf(Str("hi")))
  {
    ScalarsFlatten(FlatSample().fields);
    var data, err := NewFlattenFromMap(FlatSample());
    FlatSampleLeaves();
    SampleContainer(data.container);
    inner, test, leaf := SampleGets(data);
  }
}
