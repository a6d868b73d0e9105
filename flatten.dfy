/**
 * flatten.go: the Flatten store. A store keeps flat key/value pairs and an
 * index from every "."-prefix of a stored key to the stored keys below it,
 * so that Get can answer for a whole subtree as well as for a single key.
 */
module Store {
  import opened Wrappers
  import opened GoStrings
  import opened Values
  import opened Utils
  import opened Nesting
  import opened KeyIndex

  /** What Get returns: nil, a stored value, or a new store with the subtree below the key. */
  datatype Lookup = Missing | Found(value: Value) | Branch(store: Flatten)

  // ---------------------------------------------------------------------
  // The views All and Get give of the stored pairs
  // ---------------------------------------------------------------------

  /** The key All reports for a stored key: with the namespace in front when one is asked for. */
  function ExportKey(ns: string, withNamespace: bool, k: string): string {
    if withNamespace then MakeKey(ns, k) else k
  }

  lemma ExportKeyInjective(ns: string, withNamespace: bool)
    ensures forall k1, k2 :: ExportKey(ns, withNamespace, k1) == ExportKey(ns, withNamespace, k2) ==> k1 == k2
  {
    forall k1, k2 | ExportKey(ns, withNamespace, k1) == ExportKey(ns, withNamespace, k2)
      ensures k1 == k2
    {
      if withNamespace {
        MakeKeyInjective(ns, k1, k2);
      }
    }
  }

  /** The map All returns for the stored pairs c. */
  function Exported(c: map<string, Value>, ns: string, withNamespace: bool): map<string, Value> {
    ExportKeyInjective(ns, withNamespace);
    map k | k in c :: ExportKey(ns, withNamespace, k) := c[k]
  }

  /**
   * All loses and merges nothing: every stored pair appears once, under its
   * exported key, and nothing else appears.
   */
  lemma ExportedLookup(c: map<string, Value>, ns: string, withNamespace: bool, k: string)
    ensures k in c <==> ExportKey(ns, withNamespace, k) in Exported(c, ns, withNamespace)
    ensures k in c ==> Exported(c, ns, withNamespace)[ExportKey(ns, withNamespace, k)] == c[k]
    ensures forall x :: x in Exported(c, ns, withNamespace) ==> exists k' :: k' in c && x == ExportKey(ns, withNamespace, k')
  {
    ExportKeyInjective(ns, withNamespace);
  }

  /** Without a namespace, or without asking for it, All returns the stored pairs as they are. */
  lemma ExportedPlain(c: map<string, Value>, ns: string, withNamespace: bool)
    requires ns == [] || !withNamespace
    ensures Exported(c, ns, withNamespace) == c
  {
  }

  /** Exporting one more stored key adds its pair under the exported key. */
  lemma ExportedStep(c: map<string, Value>, rest: set<string>, ns: string, withNamespace: bool, k: string)
    requires k in rest && k in c
    ensures Exported(c - (rest - {k}), ns, withNamespace)
         == Exported(c - rest, ns, withNamespace)[ExportKey(ns, withNamespace, k) := c[k]]
  {
    ExportKeyInjective(ns, withNamespace);
  }

  /** k with the first n + 1 characters cut off, or nothing when it is shorter. */
  function Strip(key: string, k: string): string {
    if |key| + 1 <= |k| then k[|key| + 1..] else []
  }

  lemma StripInjective(key: string)
    ensures forall k1, k2 :: key + "." <= k1 && key + "." <= k2 && Strip(key, k1) == Strip(key, k2) ==> k1 == k2
  {
    forall k1, k2 | key + "." <= k1 && key + "." <= k2 && Strip(key, k1) == Strip(key, k2)
      ensures k1 == k2
    {
      assert k1 == k1[..|key| + 1] + k1[|key| + 1..];
      assert k2 == k2[..|key| + 1] + k2[|key| + 1..];
    }
  }

  /** The pairs of c with a key in K below key + ".", with that prefix cut off. */
  ghost function Below(c: map<string, Value>, key: string, K: set<string>): map<string, Value> {
    StripInjective(key);
    map k | k in c && k in K && key + "." <= k :: Strip(key, k) := c[k]
  }

  /** The store Get returns for an inner key: every pair below key + ".", with that prefix cut off. */
  ghost function SubTree(c: map<string, Value>, key: string): map<string, Value> {
    Below(c, key, c.Keys)
  }

  /** The subtree holds s exactly when c holds key + "." + s, with the same value. */
  lemma SubTreeLookup(c: map<string, Value>, key: string, s: string)
    ensures s in SubTree(c, key) <==> key + "." + s in c
    ensures s in SubTree(c, key) ==> SubTree(c, key)[s] == c[key + "." + s]
  {
    StripInjective(key);
    var k := key + "." + s;
    assert Strip(key, k) == s;
    assert key + "." <= k;
  }

  /** The subtree is empty exactly when no stored key lies below key + ".". */
  lemma SubTreeEmpty(c: map<string, Value>, key: string)
    ensures SubTree(c, key) == map[] <==> forall k :: k in c ==> !(key + "." <= k)
  {
    if exists k :: k in c && key + "." <= k {
      var k :| k in c && key + "." <= k;
      assert Strip(key, k) in SubTree(c, key);
    }
  }

  lemma BelowAdd(c: map<string, Value>, key: string, K: set<string>, k: string)
    requires k in c && key + "." <= k
    ensures Below(c, key, K + {k}) == Below(c, key, K)[Strip(key, k) := c[k]]
  {
    StripInjective(key);
  }

  lemma BelowSame(c: map<string, Value>, key: string, K1: set<string>, K2: set<string>)
    requires forall k :: k in c && key + "." <= k ==> (k in K1 <==> k in K2)
    ensures Below(c, key, K1) == Below(c, key, K2)
  {
  }

  /** The first n elements of a list, as a set. */
  ghost function Firsts(list: seq<string>, n: int): set<string> {
    set j | 0 <= j < n && j < |list| :: list[j]
  }

  lemma FirstsNext(list: seq<string>, n: nat)
    requires n < |list|
    ensures Firsts(list, n + 1) == Firsts(list, n) + {list[n]}
  {
  }

  /** Under the index, key has a list exactly when something is stored at or below it. */
  lemma Listed(c: map<string, Value>, ks: KeyStore, key: string)
    requires IsIndexOf(c.Keys, ks)
    ensures key !in ks <==> key !in c && SubTree(c, key) == map[]
  {
    IndexedPrefix(c.Keys, ks, key);
    forall k | k in c
      ensures key in Prefixes(k) <==> k == key || key + "." <= k
    {
      PrefixShape(key, k);
    }
    SubTreeEmpty(c, key);
  }

  /** The list of a key that is not stored itself names the stored keys below it. */
  lemma ListedBelow(c: map<string, Value>, ks: KeyStore, key: string)
    requires IsIndexOf(c.Keys, ks) && key in ks && key !in c
    ensures forall v :: v in ks[key] ==> v in c && key + "." <= v
    ensures Below(c, key, Firsts(ks[key], |ks[key]|)) == SubTree(c, key)
  {
    var list := ks[key];
    forall v | v in list
      ensures v in c && key + "." <= v
    {
      PrefixShape(key, v);
    }
    forall k | k in c && key + "." <= k
      ensures k in Firsts(list, |list|)
    {
      PrefixShape(key, k);
      assert k in list;
    }
    BelowSame(c, key, Firsts(list, |list|), c.Keys);
  }

  // ---------------------------------------------------------------------
  // The store
  // ---------------------------------------------------------------------

  class Flatten {
    var namespace: string
    var delimiter: string
    var container: map<string, Value>
    var keyStore: KeyStore

    /** The index lists exactly the stored keys, under each of their prefixes. */
    ghost predicate Valid()
      reads this
    {
      IsIndexOf(container.Keys, keyStore)
    }

    /** NewFlatten: an empty store without a namespace and with "." as delimiter. */
    constructor ()
      ensures Valid()
      ensures namespace == "" && delimiter == "." && container == map[] && keyStore == map[]
    {
      namespace := "";
      delimiter := ".";
      container := map[];
      keyStore := map[];
    }

    function GetDelimiter(): (d: string)
      reads this
      ensures d == delimiter
    {
      delimiter
    }

    /** SetDelimiter: records the delimiter and returns the store for chaining. */
    method SetDelimiter(delimiter': string) returns (self: Flatten)
      modifies this
      ensures self == this && delimiter == delimiter'
      ensures namespace == old(namespace) && container == old(container) && keyStore == old(keyStore)
    {
      delimiter := delimiter';
      self := this;
    }

    function GetNamespace(): (ns: string)
      reads this
      ensures ns == namespace
    {
      namespace
    }

    /** SetNamespace: records the namespace and returns the store for chaining. */
    method SetNamespace(prefix: string) returns (self: Flatten)
      modifies this
      ensures self == this && namespace == prefix
      ensures delimiter == old(delimiter) && container == old(container) && keyStore == old(keyStore)
    {
      namespace := prefix;
      self := this;
    }

    /** metaKeyExist: key is listed under subKey. */
    method MetaKeyExist(subKey: string, key: string) returns (b: bool)
      ensures b <==> subKey in keyStore && key in keyStore[subKey]
    {
      if subKey in keyStore {
        var list := keyStore[subKey];
        var i := 0;
        while i < |list|
          invariant 0 <= i <= |list|
          invariant forall j :: 0 <= j < i ==> list[j] != key
        {
          if list[i] == key {
            return true;
          }
          i := i + 1;
        }
      }
      return false;
    }

    /**
     * metaKeyAdd: appends key to the list of each of its prefixes that does
     * not hold it yet. The block before the loop in the source is left out
     * here; KeyIndex.MetaKeyAddAsWritten models it.
     */
    method MetaKeyAdd(key: string)
      modifies this
      ensures keyStore == MetaKeyAdded(old(keyStore), key)
      ensures namespace == old(namespace) && delimiter == old(delimiter) && container == old(container)
    {
      var subKeys := Split(key, ".");
      var index := 0;
      while index < |subKeys|
        invariant 0 <= index <= |subKeys| == |Prefixes(key)|
        invariant keyStore == AddUnder(old(keyStore), key, PrefixesBefore(key, index))
        invariant namespace == old(namespace) && delimiter == old(delimiter) && container == old(container)
      {
        var sliceSubKey := Join(subKeys[..index + 1], ".");
        assert sliceSubKey == Prefixes(key)[index];
        var found := MetaKeyExist(sliceSubKey, key);
        if !found {
          keyStore := keyStore[sliceSubKey := (if sliceSubKey in keyStore then keyStore[sliceSubKey] else []) + [key]];
        }
        AddUnderStep(old(keyStore), key, PrefixesBefore(key, index), sliceSubKey);
        PrefixesBeforeNext(key, index);
        index := index + 1;
      }
      PrefixesBeforeAll(key);
    }

    /**
     * metaKeyDelete: removes key from the list of each of its prefixes and
     * drops the lists left empty. The block before the loop in the source
     * is left out here; KeyIndex.MetaKeyDeleteAsWritten models it.
     */
    method MetaKeyDelete(key: string)
      modifies this
      ensures keyStore == MetaKeyDeleted(old(keyStore), key)
      ensures namespace == old(namespace) && delimiter == old(delimiter) && container == old(container)
    {
      var subKeys := Split(key, ".");
      var index := 0;
      while index < |subKeys|
        invariant 0 <= index <= |subKeys| == |Prefixes(key)|
        invariant keyStore == RemoveUnder(old(keyStore), key, PrefixesBefore(key, index))
        invariant namespace == old(namespace) && delimiter == old(delimiter) && container == old(container)
      {
        var sliceSubKey := Join(subKeys[..index + 1], ".");
        assert sliceSubKey == Prefixes(key)[index];
        PrefixesBeforeNext(key, index);
        RemoveUnderStep(old(keyStore), key, PrefixesBefore(key, index), sliceSubKey);
        if sliceSubKey in keyStore {
          var list := SpliceOut(keyStore[sliceSubKey], key);
          keyStore := keyStore[sliceSubKey := list];
          if |list| == 0 {
            keyStore := keyStore - {sliceSubKey};
          }
        }
        index := index + 1;
      }
      PrefixesBeforeAll(key);
    }

    /** The loop of NewFlattenFromMap: every stored key indexed, into an empty index. */
    method IndexContainer()
      requires keyStore == map[]
      modifies this
      ensures Valid()
      ensures namespace == old(namespace) && delimiter == old(delimiter) && container == old(container)
    {
      var rest := container.Keys;
      while rest != {}
        invariant rest <= container.Keys
        invariant namespace == old(namespace) && delimiter == old(delimiter) && container == old(container)
        invariant IsIndexOf(container.Keys - rest, keyStore)
        decreases rest
      {
        var key :| key in rest;
        ghost var before := keyStore;
        MetaKeyAdd(key);
        AddKeepsIndex(container.Keys - rest, before, key);
        assert container.Keys - (rest - {key}) == (container.Keys - rest) + {key};
        rest := rest - {key};
      }
      assert container.Keys - rest == container.Keys;
    }

    /**
     * Add: stores value under key as it is (a map or slice is not
     * flattened, and the namespace is not put in front), indexes the key,
     * and returns the store for chaining.
     */
    method Add(key: string, value: Value) returns (self: Flatten)
      requires Valid()
      modifies this
      ensures Valid()
      ensures container == old(container)[key := value]
      ensures keyStore == MetaKeyAdded(old(keyStore), key)
      ensures namespace == old(namespace) && delimiter == old(delimiter)
      ensures self == this
    {
      container := container[key := value];
      MetaKeyAdd(key);
      AddKeepsIndex(old(container).Keys, old(keyStore), key);
      assert container.Keys == old(container).Keys + {key};
      self := this;
    }

    /**
     * Get: nil when nothing is stored at or below key; the stored value
     * when key itself is stored; otherwise a new store holding the pairs
     * below key + ".", with that prefix cut off. A key that is stored and
     * also has keys below it makes the source slice past the end of the
     * key itself and panic, so callers must not ask for one.
     */
    method Get(key: string) returns (r: Lookup)
      requires Valid()
      requires key in container && key in keyStore ==> |keyStore[key]| == 1
      ensures r.Missing? <==> key !in container && SubTree(container, key) == map[]
      ensures r.Found? <==> key in container
      ensures r.Found? ==> r.value == container[key]
      ensures r.Branch? ==> && fresh(r.store) && r.store.Valid()
                            && r.store.container == SubTree(container, key)
                            && r.store.namespace == "" && r.store.delimiter == "."
    {
      Listed(container, keyStore, key);
      if key !in keyStore {
        return Missing;
      }
      if key in container && |keyStore[key]| == 1 {
        return Found(container[key]);
      }
      ListedBelow(container, keyStore, key);
      var flat := NewSubStore(container, key, keyStore[key]);
      return Branch(flat);
    }

    /** All: the stored pairs, each key with the namespace in front when asked for and set. */
    method All(withNamespace: bool) returns (result: map<string, Value>)
      ensures result == Exported(container, namespace, withNamespace)
    {
      result := map[];
      var rest := container.Keys;
      while rest != {}
        invariant rest <= container.Keys
        invariant result == Exported(container - rest, namespace, withNamespace)
        decreases rest
      {
        var key :| key in rest;
        var k := key;
        if |namespace| > 0 && withNamespace {
          k := namespace + "." + key;
        }
        assert k == ExportKey(namespace, withNamespace, key);
        ExportedStep(container, rest, namespace, withNamespace, key);
        result := result[k := container[key]];
        rest := rest - {key};
      }
      assert container - {} == container;
    }

    /**
     * Delete: removes the pair under key, with the namespace in front when
     * one is set, and takes it out of the index. The receiver is a copy of
     * the store in the source, but its maps are shared, so the store itself
     * changes.
     */
    method Delete(key: string)
      requires Valid()
      modifies this
      ensures Valid()
      ensures container == old(container) - {MakeKey(namespace, key)}
      ensures keyStore == MetaKeyDeleted(old(keyStore), MakeKey(namespace, key))
      ensures namespace == old(namespace) && delimiter == old(delimiter)
    {
      var k := MakeKey(namespace, key);
      container := container - {k};
      MetaKeyDelete(k);
      DeleteKeepsIndex(old(container).Keys, old(keyStore), k);
      assert container.Keys == old(container).Keys - {k};
    }

    /**
     * ToNested: the tree nested rebuilds from All. The store's delimiter
     * splits the keys. When the pairs are the flat form of a round-trippable
     * tree, that tree comes back.
     */
    method ToNested(withNamespace: bool) returns (r: Value)
      requires forall k :: k in Exported(container, namespace, withNamespace) ==> SafeSegments(Split(k, delimiter))
      ensures r == Nil <==> container == map[]
      ensures forall t :: FlattensTo(t, Exported(container, namespace, withNamespace), delimiter) ==> r == t
    {
      var flat := All(withNamespace);
      if container != map[] {
        var k :| k in container;
        ExportedLookup(container, namespace, withNamespace, k);
      }
      r := Nested(flat, delimiter);
    }
  }

  /** The inner loop of metaKeyDelete: the list with the first occurrence of key spliced out. */
  method SpliceOut(list: seq<string>, key: string) returns (r: seq<string>)
    ensures r == RemoveFirst(list, key)
  {
    var j := 0;
    while j < |list| && list[j] != key
      invariant 0 <= j <= |list|
      invariant forall m :: 0 <= m < j ==> list[m] != key
    {
      j := j + 1;
    }
    RemoveFirstAt(list, key, j);
    r := list;
    if j < |list| {
      r := list[..j] + list[j + 1..];
    }
  }

  /**
   * The loop at the end of Get: a new store with the pair of every key in
   * list, the prefix key + "." cut off.
   */
  method NewSubStore(c: map<string, Value>, key: string, list: seq<string>) returns (flat: Flatten)
    requires forall v :: v in list ==> v in c && key + "." <= v
    ensures fresh(flat) && flat.Valid() && flat.namespace == "" && flat.delimiter == "."
    ensures flat.container == Below(c, key, Firsts(list, |list|))
  {
    flat := new Flatten();
    var i := 0;
    while i < |list|
      invariant 0 <= i <= |list|
      invariant fresh(flat) && flat.Valid() && flat.namespace == "" && flat.delimiter == "."
      invariant flat.container == Below(c, key, Firsts(list, i))
    {
      var value := list[i];
      assert value in list;
      assert Strip(key, value) == value[|key| + 1..];
      var _ := flat.Add(value[|key| + 1..], c[value]);
      BelowAdd(c, key, Firsts(list, i), value);
      FirstsNext(list, i);
      i := i + 1;
    }
  }

  /**
   * NewFlattenFromMap: a new store holding the flat form of data, every
   * key indexed; nil and the error when flatten fails.
   */
  method NewFlattenFromMap(data: Value) returns (r: Flatten?, err: Option<FlattenError>)
    requires NilFree(data)
    ensures err == FlattenOutcome(data)
    ensures r == null <==> err.Some?
    ensures r != null ==> && fresh(r) && r.Valid() && r.namespace == "" && r.delimiter == "."
                          && Absorbs(map[], r.container, Leaves(data, "", "."))
  {
    var result := new Flatten();
    var c, e := FlattenInto(result.container, data, "", result.delimiter);
    if e.Some? {
      return null, e;
    }
    result.container := c;
    result.IndexContainer();
    return result, None;
  }
}
